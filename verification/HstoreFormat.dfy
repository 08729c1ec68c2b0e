/** The two entry formats of an hstore value (contrib/hstore/hstore.h,
    contrib/hstore/hstore_compat.c), over decoded entries and the string area. */
module HstoreFormat {
  import opened HstoreMemory

  type Bytes = seq<byte>

  /** A key with its value; a null value has no bytes. */
  datatype Item = Item(key: Bytes, isNull: bool, value: Bytes)

  // ----- New entries

  /** HEntry: where the string ends, whether it is null, whether no entry precedes it. */
  datatype HEntry = HEntry(end: nat, isNull: bool, isFirst: bool)

  datatype NewPair = NewPair(k: HEntry, v: HEntry)

  /** HSE_OFF of a key entry, which is first or has a value entry before it. */
  function KeyOff(es: seq<NewPair>, i: nat): nat
    requires i < |es| && (i > 0 || es[0].k.isFirst)
  {
    if es[i].k.isFirst then 0 else es[i - 1].v.end
  }

  /** HSE_OFF of a value entry. */
  function ValueOff(es: seq<NewPair>, i: nat): nat
    requires i < |es|
  {
    if es[i].v.isFirst then 0 else es[i].k.end
  }

  predicate PairInOrder(es: seq<NewPair>, i: nat)
    requires i < |es|
  {
    && (i > 0 ==> !es[i].k.isFirst && es[i - 1].v.end <= es[i].k.end)
    && !es[i].v.isFirst && es[i].k.end <= es[i].v.end
  }

  /** No entry but the first is flagged so, and end positions never decrease. */
  predicate InOrder(es: seq<NewPair>) {
    forall i :: 0 <= i < |es| ==> PairInOrder(es, i)
  }

  /** The length of the string area. */
  function StringsEnd(es: seq<NewPair>): nat {
    if es == [] then 0 else es[|es| - 1].v.end
  }

  /** A value whose strings lie in memory, first entry flagged, positions nondecreasing. */
  predicate NewReadable(es: seq<NewPair>, strings: Bytes) {
    (es != [] ==> es[0].k.isFirst) && InOrder(es) && StringsEnd(es) <= |strings|
  }

  lemma {:induction false} EndsBelow(es: seq<NewPair>, i: nat, j: nat)
    requires InOrder(es) && i <= j < |es|
    ensures es[i].v.end <= es[j].v.end
    decreases j - i
  {
    assert PairInOrder(es, j);
    if i < j {
      EndsBelow(es, i, j - 1);
    }
  }

  lemma EndsInside(es: seq<NewPair>, strings: Bytes, i: nat)
    requires NewReadable(es, strings) && i < |es|
    ensures KeyOff(es, i) <= es[i].k.end == ValueOff(es, i) <= es[i].v.end <= |strings|
  {
    assert PairInOrder(es, i);
    EndsBelow(es, i, |es| - 1);
  }

  /** HSTORE_KEY and HSTORE_VAL with their lengths, and HSTORE_VALISNULL. */
  function NewItem(es: seq<NewPair>, strings: Bytes, i: nat): Item
    requires NewReadable(es, strings) && i < |es|
  {
    EndsInside(es, strings, i);
    var isNull := es[i].v.isNull;
    Item(strings[KeyOff(es, i)..es[i].k.end], isNull, if isNull then [] else strings[ValueOff(es, i)..es[i].v.end])
  }

  /** Everything a reader of the new format sees. */
  function NewItems(es: seq<NewPair>, strings: Bytes): (items: seq<Item>)
    requires NewReadable(es, strings)
  {
    seq(|es|, i requires 0 <= i < |es| => NewItem(es, strings, i))
  }

  // ----- Old entries

  /** HOldEntry: the value length means nothing when the value is null. */
  datatype HOldEntry = HOldEntry(keyLen: nat, valLen: nat, isNull: bool, pos: nat) {
    function Used(): nat { keyLen + if isNull then 0 else valLen }
  }

  /** Where entry i must start when the entries before it are contiguous. */
  function OldStart(es: seq<HOldEntry>, i: nat): nat
    requires i <= |es|
  {
    if i == 0 then 0 else OldStart(es, i - 1) + es[i - 1].Used()
  }

  predicate Contiguous(es: seq<HOldEntry>) {
    forall i :: 0 <= i < |es| ==> StartsInPlace(es, i)
  }

  predicate StartsInPlace(es: seq<HOldEntry>, i: nat)
    requires i < |es|
  {
    es[i].pos == OldStart(es, i)
  }

  /** Contiguous entries whose strings lie in memory. */
  predicate OldReadable(es: seq<HOldEntry>, strings: Bytes) {
    Contiguous(es) && OldStart(es, |es|) <= |strings|
  }

  lemma {:induction false} OldStartsBelow(es: seq<HOldEntry>, i: nat, j: nat)
    requires i <= j <= |es|
    ensures OldStart(es, i) <= OldStart(es, j)
    decreases j - i
  {
    if i < j {
      OldStartsBelow(es, i, j - 1);
    }
  }

  function OldItem(es: seq<HOldEntry>, strings: Bytes, i: nat): Item
    requires OldReadable(es, strings) && i < |es|
  {
    OldStartsBelow(es, i + 1, |es|);
    assert StartsInPlace(es, i);
    var key, value := es[i].pos, es[i].pos + es[i].keyLen;
    Item(strings[key..value], es[i].isNull, if es[i].isNull then [] else strings[value..value + es[i].valLen])
  }

  /** Everything a reader of the old format saw. */
  function OldItems(es: seq<HOldEntry>, strings: Bytes): (items: seq<Item>)
    requires OldReadable(es, strings)
  {
    seq(|es|, i requires 0 <= i < |es| => OldItem(es, strings, i))
  }

  // ----- From old to new

  /** The new entries for old entry o. */
  function Renewed(o: HOldEntry, first: bool): NewPair {
    NewPair(HEntry(o.pos + o.keyLen, false, first), HEntry(o.pos + o.Used(), o.isNull, false))
  }

  function RenewedAll(es: seq<HOldEntry>): (r: seq<NewPair>)
    ensures |r| == |es|
  {
    seq(|es|, i requires 0 <= i < |es| => Renewed(es[i], i == 0))
  }

  lemma RenewedReadable(es: seq<HOldEntry>, strings: Bytes)
    requires OldReadable(es, strings)
    ensures NewReadable(RenewedAll(es), strings) && StringsEnd(RenewedAll(es)) == OldStart(es, |es|)
  {
    forall i | 0 <= i < |es| ensures PairInOrder(RenewedAll(es), i) {
      assert StartsInPlace(es, i);
      if i > 0 {
        assert StartsInPlace(es, i - 1);
      }
    }
    if es != [] {
      assert StartsInPlace(es, |es| - 1);
    }
  }

  lemma RenewedOffsets(es: seq<HOldEntry>, strings: Bytes, i: nat)
    requires OldReadable(es, strings) && NewReadable(RenewedAll(es), strings) && i < |es|
    ensures var r := RenewedAll(es);
            && KeyOff(r, i) == es[i].pos && r[i].k.end == ValueOff(r, i) == es[i].pos + es[i].keyLen
            && r[i].v.isNull == es[i].isNull && r[i].v.end == es[i].pos + es[i].Used()
  {
    assert StartsInPlace(es, i);
    if i > 0 {
      assert StartsInPlace(es, i - 1);
    }
  }

  lemma ItemPreserved(es: seq<HOldEntry>, strings: Bytes, i: nat)
    requires OldReadable(es, strings) && NewReadable(RenewedAll(es), strings) && i < |es|
    ensures NewItem(RenewedAll(es), strings, i) == OldItem(es, strings, i)
  {
    RenewedOffsets(es, strings, i);
  }

  /** The upgrade preserves meaning: every key, value and null flag. */
  lemma UpgradePreserves(es: seq<HOldEntry>, strings: Bytes)
    requires OldReadable(es, strings)
    ensures NewReadable(RenewedAll(es), strings)
    ensures NewItems(RenewedAll(es), strings) == OldItems(es, strings)
    ensures StringsEnd(RenewedAll(es)) == OldStart(es, |es|)
  {
    RenewedReadable(es, strings);
    var new_, old_ := NewItems(RenewedAll(es), strings), OldItems(es, strings);
    forall i | 0 <= i < |es| ensures new_[i] == old_[i] {
      ItemPreserved(es, strings, i);
    }
  }
}
