/** Building an hstore value: HS_ADDITEM, HS_COPYITEM, HS_FINALIZE (contrib/hstore/hstore.h). */
module HstoreBuilder {
  import opened CArith
  import opened HstoreMemory
  import opened HstoreFormat
  import opened HstoreUpgrade

  /** What a reader is to see of a stored item: a null has no bytes, whatever was copied. */
  function Seen(item: Item): Item {
    if item.isNull then item.(value := []) else item
  }

  function SeenAll(items: seq<Item>): (r: seq<Item>)
    ensures |r| == |items|
  {
    seq(|items|, i requires 0 <= i < |items| => Seen(items[i]))
  }

  /** The string area of the items stored so far. */
  function Text(items: seq<Item>): Bytes {
    if items == [] then []
    else Text(items[..|items| - 1]) + items[|items| - 1].key + items[|items| - 1].value
  }

  /** The entries of item i, before the first one is flagged. */
  function Plain(items: seq<Item>, i: nat): NewPair
    requires i < |items|
  {
    var start := |Text(items[..i])|;
    NewPair(HEntry(start + |items[i].key|, false, false),
            HEntry(start + |items[i].key| + |items[i].value|, items[i].isNull, false))
  }

  /** All entries of a finished value. */
  function Finished(items: seq<Item>): (es: seq<NewPair>)
    ensures |es| == |items|
  {
    seq(|items|, i requires 0 <= i < |items| =>
      var p := Plain(items, i); if i == 0 then p.(k := p.k.(isFirst := true)) else p)
  }

  lemma {:induction false} TextStep(items: seq<Item>, i: nat)
    requires i < |items|
    ensures Text(items[..i + 1]) == Text(items[..i]) + items[i].key + items[i].value
  {
    assert items[..i + 1][..i] == items[..i];
  }

  lemma {:induction false} TextPrefix(items: seq<Item>, i: nat, j: nat)
    requires i <= j <= |items|
    ensures Text(items[..i]) <= Text(items[..j])
    decreases j - i
  {
    if i < j {
      TextPrefix(items, i, j - 1);
      TextStep(items, j - 1);
    }
  }

  lemma {:induction false} FinishedReadable(items: seq<Item>, strings: Bytes)
    requires Text(items) <= strings
    ensures NewReadable(Finished(items), strings) && StringsEnd(Finished(items)) == |Text(items)|
  {
    var es := Finished(items);
    forall i | 0 <= i < |items| ensures PairInOrder(es, i) {
      if i > 0 {
        TextStep(items, i - 1);
      }
    }
    if items != [] {
      TextStep(items, |items| - 1);
      assert items[..|items|] == items;
    }
  }

  lemma {:induction false} FinishedOffsets(items: seq<Item>, strings: Bytes, i: nat)
    requires Text(items) <= strings && NewReadable(Finished(items), strings) && i < |items|
    ensures var es, start := Finished(items), |Text(items[..i])|;
            && KeyOff(es, i) == start && ValueOff(es, i) == es[i].k.end == start + |items[i].key|
            && es[i].v == HEntry(start + |items[i].key| + |items[i].value|, items[i].isNull, false)
  {
    if i > 0 {
      TextStep(items, i - 1);
    }
  }

  lemma {:induction false} StoredHere(items: seq<Item>, strings: Bytes, i: nat)
    requires Text(items) <= strings && i < |items|
    ensures Text(items[..i]) + items[i].key + items[i].value <= strings
  {
    TextStep(items, i);
    TextPrefix(items, i + 1, |items|);
    assert items[..|items|] == items;
  }

  lemma {:induction false} FinishedItem(items: seq<Item>, strings: Bytes, i: nat)
    requires Text(items) <= strings && NewReadable(Finished(items), strings) && i < |items|
    ensures NewItem(Finished(items), strings, i) == Seen(items[i])
  {
    var es, start := Finished(items), |Text(items[..i])|;
    var key, value := items[i].key, items[i].value;
    FinishedOffsets(items, strings, i);
    StoredHere(items, strings, i);
    PrefixSlices(Text(items[..i]), key, value, strings);
    assert strings[KeyOff(es, i)..es[i].k.end] == key && strings[ValueOff(es, i)..es[i].v.end] == value;
  }

  lemma PrefixSlices(a: Bytes, b: Bytes, c: Bytes, s: Bytes)
    requires a + b + c <= s
    ensures s[|a|..|a| + |b|] == b && s[|a| + |b|..|a| + |b| + |c|] == c
  {
    assert s[..|a| + |b| + |c|] == a + b + c;
  }

  /** Round trip: what was stored is what is read. */
  lemma {:induction false} FinishedReads(items: seq<Item>, strings: Bytes)
    requires Text(items) <= strings
    ensures NewReadable(Finished(items), strings)
    ensures NewItems(Finished(items), strings) == SeenAll(items)
  {
    FinishedReadable(items, strings);
    var read, seen := NewItems(Finished(items), strings), SeenAll(items);
    forall i | 0 <= i < |items| ensures read[i] == seen[i] {
      FinishedItem(items, strings, i);
    }
  }

  class Builder {
    const mem: array<byte>
    /** The count under which the entry area was laid out. */
    const reserved: nat
    var size: word
    var varsize: nat
    /** Pairs written, and string bytes written: the entry and string pointers. */
    var done: nat
    var ptr: nat
    ghost var items: seq<Item>

    ghost predicate Valid()
      reads this, mem
    {
      && reserved < COUNT_LIMIT && size == reserved + TWO_31 && done <= reserved
      && HEADER + mem.Length < TWO_30 && 8 * reserved + ptr <= mem.Length
      && |items| == done && ptr == |Text(items)| && Text(items) <= Strings(mem[..], reserved)
      && Written(Entries(mem[..], reserved), items)
    }

    /** A reader of the new format sees these items, in a value of exactly the right size. */
    ghost predicate Holds(read: seq<Item>)
      reads this, mem
    {
      && NewVersion(size) && Count(size) == |read| && 8 * |read| <= mem.Length
      && var es, text := NewView(Entries(mem[..], |read|)), Strings(mem[..], |read|);
         && NewReadable(es, text) && NewItems(es, text) == read
         && varsize == DataSize(|read|, StringsEnd(es)) && varsize <= HEADER + mem.Length
    }

    /** HS_SETCOUNT on fresh memory with room for `reserved` pairs and `room` string bytes. */
    constructor (reserved: nat, room: nat)
      requires reserved < COUNT_LIMIT && DataSize(reserved, room) < TWO_30
      ensures Valid() && items == [] && fresh(mem) && this.reserved == reserved && mem.Length == 8 * reserved + room
    {
      this.reserved := reserved;
      mem := new byte[8 * reserved + room];
      size := reserved + TWO_31;
      varsize := DataSize(reserved, room);
      done, ptr, items := 0, 0, [];
    }

    /** HS_ADDITEM: the value of a null pair is not looked at. */
    method AddItem(item: Item)
      requires Valid()
      requires done < reserved && 8 * reserved + ptr + |item.key| + |Seen(item).value| <= mem.Length
      modifies mem, this`done, this`ptr, this`items
      ensures Valid() && items == old(items) + [Seen(item)]
    {
      ghost var entries, text, stored := Entries(mem[..], reserved), Text(items), Seen(item);
      var end := WriteItem(mem, reserved, done, ptr, item, text);
      WrittenMore(entries, items, stored, Encode(ptr + |item.key|, false), Encode(end, item.isNull));
      items := items + [stored];
      done, ptr := done + 1, end;
    }

    /** HS_COPYITEM: key and value lie side by side at the source; the value bytes are copied
        even for a null. */
    method CopyItem(src: Bytes, klen: nat, vlen: nat, vnull: bool)
      requires Valid() && klen + vlen == |src|
      requires done < reserved && 8 * reserved + ptr + |src| <= mem.Length
      modifies mem, this`done, this`ptr, this`items
      ensures Valid() && items == old(items) + [Item(src[..klen], vnull, src[klen..])]
    {
      ghost var entries, text := Entries(mem[..], reserved), Text(items);
      ghost var item := Item(src[..klen], vnull, src[klen..]);
      var end := CopyPair(mem, reserved, done, ptr, src, klen, vlen, vnull, text);
      WrittenMore(entries, items, item, Encode(ptr + klen, false), Encode(end, vnull));
      assert text + item.key + item.value == text + src;
      items := items + [item];
      done, ptr := done + 1, end;
    }

    /** HS_FINALIZE: the strings slide over the entries that were reserved and not used. */
    method Finalize()
      requires Valid()
      modifies mem, this`size, this`varsize
      ensures Holds(SeenAll(items)) && varsize == DataSize(done, ptr)
    {
      var buflen := ptr;
      SetCountReads(done);
      SetCountReads(reserved);
      FinishMemory(mem, done, reserved, buflen, items);
      if done != Count(size) {
        size := done + TWO_31;
      }
      varsize := DataSize(done, buflen);
    }
  }

  /** The writes of HS_FINALIZE to the entry and string areas. */
  method FinishMemory(mem: array<byte>, count: nat, reserved: nat, buflen: nat, ghost items: seq<Item>)
    requires count == |items| <= reserved && 8 * reserved + buflen <= mem.Length
    requires buflen == |Text(items)| && Text(items) <= Strings(mem[..], reserved)
    requires Written(Entries(mem[..], reserved), items)
    modifies mem
    ensures var read, text := NewView(Entries(mem[..], count)), Strings(mem[..], count);
            && NewReadable(read, text) && NewItems(read, text) == SeenAll(items) && StringsEnd(read) == buflen
  {
    ghost var entries := Entries(mem[..], reserved);
    if count != 0 {
      MarkFirst(mem, reserved);
    }
    ghost var marked := Entries(mem[..], reserved);
    if count != reserved {
      SlideStrings(mem, count, reserved, 8 * reserved, buflen, Text(items));
    }
    FinishedMemory(mem[..], entries, marked, items);
  }

  lemma {:induction false} FinishedMemory(mem: Bytes, es: seq<Pair>, marked: seq<Pair>, items: seq<Item>)
    requires Written(es, items) && 8 * |items| <= |mem|
    requires marked == if items == [] then es else es[0 := es[0].(k := WithFirst(es[0].k))]
    requires Entries(mem, |items|) == marked[..|items|] && Text(items) <= Strings(mem, |items|)
    ensures var read, text := NewView(Entries(mem, |items|)), Strings(mem, |items|);
            && NewReadable(read, text) && NewItems(read, text) == SeenAll(items) && StringsEnd(read) == |Text(items)|
  {
    FinishedWords(es, marked, items);
    FinishedReadable(items, Strings(mem, |items|));
    FinishedReads(items, Strings(mem, |items|));
  }

  /** hstorePairs: the value built from a list of pairs is read back as that list. */
  method HstorePairs(pairs: seq<Item>, buflen: nat) returns (b: Builder)
    requires |pairs| < COUNT_LIMIT && buflen == |Text(SeenAll(pairs))| && DataSize(|pairs|, buflen) < TWO_30
    ensures fresh(b) && b.Holds(SeenAll(pairs)) && b.varsize == DataSize(|pairs|, buflen)
  {
    b := new Builder(|pairs|, buflen);
    ghost var stored := SeenAll(pairs);
    var i := 0;
    while i < |pairs|
      invariant 0 <= i <= |pairs| && b.Valid() && fresh(b) && fresh(b.mem)
      invariant b.items == stored[..i] && b.reserved == |pairs| && b.mem.Length == 8 * |pairs| + buflen
    {
      RoomFor(stored, i);
      b.AddItem(pairs[i]);
      i := i + 1;
    }
    assert stored[..|stored|] == stored;
    SeenTwice(pairs);
    b.Finalize();
  }

  lemma {:induction false} RoomFor(items: seq<Item>, i: nat)
    requires i < |items|
    ensures |Text(items[..i])| + |items[i].key| + |items[i].value| <= |Text(items)|
    ensures items[..i + 1] == items[..i] + [items[i]]
  {
    TextStep(items, i);
    TextPrefix(items, i + 1, |items|);
    assert items[..|items|] == items;
  }

  lemma SeenTwice(items: seq<Item>)
    ensures SeenAll(SeenAll(items)) == SeenAll(items)
  {
  }

  // ----- Writing to the two areas

  method PutString(mem: array<byte>, reserved: nat, ptr: nat, s: Bytes, ghost text: Bytes)
    requires 8 * reserved + ptr + |s| <= mem.Length
    requires ptr == |text| && text <= Strings(mem[..], reserved)
    modifies mem
    ensures Entries(mem[..], reserved) == old(Entries(mem[..], reserved))
    ensures text + s <= Strings(mem[..], reserved)
  {
    ghost var before := mem[..];
    CopyBytes(mem, 8 * reserved + ptr, s);
    ghost var after := mem[..];
    assert before[..8 * reserved] == after[..8 * reserved];
    EntriesFrame(before, after, reserved);
    assert Strings(after, reserved) == Splice(Strings(before, reserved), ptr, s);
  }

  /** The body of HS_ADDITEM. */
  method WriteItem(mem: array<byte>, reserved: nat, i: nat, ptr: nat, item: Item, ghost text: Bytes) returns (end: nat)
    requires i < reserved && 8 * reserved + ptr + |item.key| + |Seen(item).value| <= mem.Length
    requires ptr == |text| && text <= Strings(mem[..], reserved)
    modifies mem
    ensures end == ptr + |item.key| + |Seen(item).value|
    ensures Entries(mem[..], reserved) ==
            old(Entries(mem[..], reserved))[i := Pair(Encode(ptr + |item.key|, false), Encode(end, item.isNull))]
    ensures text + item.key + Seen(item).value <= Strings(mem[..], reserved)
  {
    PutString(mem, reserved, ptr, item.key, text);
    end := ptr + |item.key|;
    PutKey(mem, reserved, i, Encode(end, false));
    if item.isNull {
      PutValue(mem, reserved, i, Encode(end, true));
    } else {
      PutString(mem, reserved, end, item.value, text + item.key);
      end := end + |item.value|;
      PutValue(mem, reserved, i, Encode(end, false));
    }
  }

  /** The body of HS_COPYITEM. */
  method CopyPair(mem: array<byte>, reserved: nat, i: nat, ptr: nat, src: Bytes, klen: nat, vlen: nat, vnull: bool,
                  ghost text: Bytes)
    returns (end: nat)
    requires i < reserved && 8 * reserved + ptr + |src| <= mem.Length && klen + vlen == |src|
    requires ptr == |text| && text <= Strings(mem[..], reserved)
    modifies mem
    ensures end == ptr + |src|
    ensures Entries(mem[..], reserved) ==
            old(Entries(mem[..], reserved))[i := Pair(Encode(ptr + klen, false), Encode(end, vnull))]
    ensures text + src <= Strings(mem[..], reserved)
  {
    PutString(mem, reserved, ptr, src, text);
    end := ptr + klen + vlen;
    PutKey(mem, reserved, i, Encode(end - vlen, false));
    PutValue(mem, reserved, i, Encode(end, vnull));
  }

  /** The memmove of HS_FINALIZE. */
  method SlideStrings(mem: array<byte>, count: nat, ghost reserved: nat, from: nat, n: nat, ghost text: Bytes)
    requires count <= reserved && from == 8 * reserved && from + n <= mem.Length
    requires |text| == n && text <= Strings(mem[..], reserved)
    modifies mem
    ensures Entries(mem[..], count) == old(Entries(mem[..], reserved))[..count]
    ensures text <= Strings(mem[..], count)
  {
    ghost var before := mem[..];
    assert before[from..from + n] == text;
    MoveDown(mem, 8 * count, from, n);
    ghost var after := mem[..];
    assert after[..8 * count] == before[..8 * count];
    EntriesFrame(before, after, count);
    EntriesPrefix(before, count, reserved);
    assert after[8 * count..8 * count + n] == text;
  }

  method PutKey(mem: array<byte>, ghost reserved: nat, i: nat, w: word)
    requires i < reserved && 8 * reserved <= mem.Length
    modifies mem
    ensures var es := old(Entries(mem[..], reserved)); Entries(mem[..], reserved) == es[i := es[i].(k := w)]
    ensures Strings(mem[..], reserved) == old(Strings(mem[..], reserved))
  {
    StoreKeySets(mem[..], reserved, i, w);
    StoreWord(mem, 2 * i, w);
  }

  method PutValue(mem: array<byte>, ghost reserved: nat, i: nat, w: word)
    requires i < reserved && 8 * reserved <= mem.Length
    modifies mem
    ensures var es := old(Entries(mem[..], reserved)); Entries(mem[..], reserved) == es[i := es[i].(v := w)]
    ensures Strings(mem[..], reserved) == old(Strings(mem[..], reserved))
  {
    StoreValueSets(mem[..], reserved, i, w);
    StoreWord(mem, 2 * i + 1, w);
  }

  method MarkFirst(mem: array<byte>, ghost reserved: nat)
    requires 0 < reserved && 8 * reserved <= mem.Length
    modifies mem
    ensures var es := old(Entries(mem[..], reserved)); Entries(mem[..], reserved) == es[0 := es[0].(k := WithFirst(es[0].k))]
    ensures Strings(mem[..], reserved) == old(Strings(mem[..], reserved))
  {
    var p := LoadPair(mem, 0, reserved);
    PutKey(mem, reserved, 0, WithFirst(p.k));
  }

  // ----- What the entry area holds

  /** Item i is encoded by the given words. */
  predicate Encoded(p: Pair, items: seq<Item>, i: nat)
    requires i < |items|
  {
    var start := |Text(items[..i])|;
    && start + |items[i].key| + |items[i].value| < TWO_30
    && p == Pair(Encode(start + |items[i].key|, false),
                 Encode(start + |items[i].key| + |items[i].value|, items[i].isNull))
  }

  /** The entry area starts with the entries of the items. */
  predicate Written(es: seq<Pair>, items: seq<Item>) {
    |items| <= |es| && forall i :: 0 <= i < |items| ==> Encoded(es[i], items, i)
  }

  lemma {:induction false} WrittenMore(es: seq<Pair>, items: seq<Item>, item: Item, k: word, v: word)
    requires Written(es, items) && |items| < |es|
    requires |Text(items)| + |item.key| + |item.value| < TWO_30
    requires k == Encode(|Text(items)| + |item.key|, false)
    requires v == Encode(|Text(items)| + |item.key| + |item.value|, item.isNull)
    ensures Written(es[|items| := Pair(k, v)], items + [item])
    ensures Text(items + [item]) == Text(items) + item.key + item.value
  {
    var more := items + [item];
    assert more[..|items|] == items;
    var updated := es[|items| := Pair(k, v)];
    forall i | 0 <= i < |more| ensures Encoded(updated[i], more, i) {
      if i < |items| {
        assert more[..i] == items[..i];
        assert Encoded(es[i], items, i);
      }
    }
  }

  /** The words of a finished value read as its entries. */
  lemma {:induction false} FinishedWords(es: seq<Pair>, marked: seq<Pair>, items: seq<Item>)
    requires Written(es, items)
    requires marked == if items == [] then es else es[0 := es[0].(k := WithFirst(es[0].k))]
    ensures NewView(marked[..|items|]) == Finished(items)
  {
    var view := NewView(marked[..|items|]);
    forall i | 0 <= i < |items| ensures view[i] == Finished(items)[i] {
      assert Encoded(es[i], items, i);
      var start := |Text(items[..i])|;
      EncodeReads(start + |items[i].key|, false);
      EncodeReads(start + |items[i].key| + |items[i].value|, items[i].isNull);
    }
  }
}
