/** Reading hstore values of either format: the validity tests and the in-place upgrade
    (contrib/hstore/hstore_compat.c). */
module HstoreUpgrade {
  import opened CArith
  import opened HstoreMemory
  import opened HstoreFormat

  const HEADER := 8
  const COUNT_LIMIT := 0x1000_0000

  /** HS_COUNT and HS_FLAG_NEWVERSION */
  function Count(size: word): nat { size % COUNT_LIMIT }

  predicate NewVersion(size: word) { size >= TWO_31 }

  lemma SetCountReads(count: nat)
    requires count < COUNT_LIMIT
    ensures Count(count + TWO_31) == count
  {
  }

  /** CALCDATASIZE */
  function DataSize(count: nat, strings: nat): nat { 8 * count + HEADER + strings }

  // ----- Words and entries

  /** HSE_ENDPOS, HSE_ISNULL, HSE_ISFIRST */
  function Decode(w: word): HEntry {
    HEntry(w % TWO_30, (w / TWO_30) % 2 == 1, w >= TWO_31)
  }

  function Encode(end: nat, isNull: bool): word { end % TWO_30 + if isNull then TWO_30 else 0 }

  function WithFirst(w: word): word { if w >= TWO_31 then w else w + TWO_31 }

  lemma EncodeReads(end: nat, isNull: bool)
    requires end < TWO_30
    ensures Decode(Encode(end, isNull)) == HEntry(end, isNull, false)
    ensures Decode(WithFirst(Encode(end, isNull))) == HEntry(end, isNull, true)
  {
  }

  /** The 16-bit and bit-field layout of HOldEntry on a little-endian machine. */
  function DecodeOld(p: Pair): HOldEntry {
    HOldEntry(p.k % 0x1_0000, p.k / 0x1_0000, p.v % 2 == 1, p.v / 2)
  }

  function NewView(ps: seq<Pair>): (es: seq<NewPair>)
    ensures |es| == |ps|
  {
    seq(|ps|, i requires 0 <= i < |ps| => NewPair(Decode(ps[i].k), Decode(ps[i].v)))
  }

  function OldView(ps: seq<Pair>): (es: seq<HOldEntry>)
    ensures |es| == |ps|
  {
    seq(|ps|, i requires 0 <= i < |ps| => DecodeOld(ps[i]))
  }

  /** The words the upgrade writes for an old entry. */
  function RenewedWords(o: HOldEntry, first: bool): Pair {
    var k := Encode(o.pos + o.keyLen, false);
    Pair(if first then WithFirst(k) else k, Encode(o.pos + o.Used(), o.isNull))
  }

  function RenewedMemory(ps: seq<Pair>): (r: seq<Pair>)
    ensures |r| == |ps|
  {
    seq(|ps|, i requires 0 <= i < |ps| => RenewedWords(DecodeOld(ps[i]), i == 0))
  }

  lemma RenewedWordsReadAt(o: HOldEntry, first: bool)
    requires o.pos + o.Used() < TWO_30
    ensures var p := RenewedWords(o, first); NewPair(Decode(p.k), Decode(p.v)) == Renewed(o, first)
  {
    var keyEnd, end: nat := o.pos + o.keyLen, o.pos + o.Used();
    EncodeReads(keyEnd, false);
    EncodeReads(end, o.isNull);
    var k, v := Encode(keyEnd, false), Encode(end, o.isNull);
    assert RenewedWords(o, first) == Pair(if first then WithFirst(k) else k, v);
  }

  /** Read as new entries, the written words say what the old ones said. */
  lemma {:induction false} RenewedWordsRead(ps: seq<Pair>)
    requires Contiguous(OldView(ps)) && OldStart(OldView(ps), |ps|) < TWO_30
    ensures NewView(RenewedMemory(ps)) == RenewedAll(OldView(ps))
  {
    var es, rs := OldView(ps), RenewedMemory(ps);
    forall i | 0 <= i < |ps| ensures NewPair(Decode(rs[i].k), Decode(rs[i].v)) == Renewed(es[i], i == 0) {
      OldStartsBelow(es, i + 1, |es|);
      assert StartsInPlace(es, i);
      RenewedWordsReadAt(es[i], i == 0);
    }
  }

  // ----- What the validity tests accept

  function KeyLen(es: seq<NewPair>, i: nat): int
    requires i < |es| && (i > 0 || es[0].k.isFirst)
  {
    es[i].k.end - KeyOff(es, i)
  }

  predicate KeyInOrder(es: seq<NewPair>, i: nat)
    requires 0 < i < |es| && es[0].k.isFirst
  {
    KeyLen(es, i - 1) <= KeyLen(es, i) && !es[i].k.isNull
  }

  /** The first key's null flag is not looked at. */
  predicate NewAcceptable(es: seq<NewPair>, varsize: nat)
    requires es != []
  {
    && es[0].k.isFirst && DataSize(|es|, StringsEnd(es)) <= varsize && InOrder(es)
    && forall i :: 0 < i < |es| ==> KeyInOrder(es, i)
  }

  /** 0 = not valid, 1 = valid with slop in the length, 2 = exactly valid. */
  function NewVerdict(es: seq<NewPair>, size: word, varsize: nat): nat
    requires |es| == Count(size)
  {
    if NewVersion(size) || es == [] then 2
    else if !NewAcceptable(es, varsize) then 0
    else if DataSize(|es|, StringsEnd(es)) != varsize then 1
    else 2
  }

  predicate OldKeysInOrder(es: seq<HOldEntry>) {
    forall i :: 0 < i < |es| ==> es[i - 1].keyLen <= es[i].keyLen
  }

  /** The number of entries an old value can have been read to have; no more fit in it. */
  predicate OldCountFits(size: word, varsize: nat) {
    size < COUNT_LIMIT && DataSize(size, 0) <= varsize
  }

  function OldVerdict(mem: Bytes, size: word, varsize: nat): nat
    requires varsize <= HEADER + |mem|
  {
    if NewVersion(size) then 0
    else if size == 0 then 2
    else if !OldCountFits(size, varsize) then 0
    else
      var es := OldView(Entries(mem, size));
      if !OldKeysInOrder(es) || !Contiguous(es) then 0
      else if DataSize(size, OldStart(es, size)) > varsize then 0
      else if DataSize(size, OldStart(es, size)) != varsize then 1
      else 2
  }

  /** An accepted old value is one a reader of the old format can read. */
  lemma OldAcceptedIsReadable(mem: Bytes, size: word, varsize: nat)
    requires varsize <= HEADER + |mem| && OldVerdict(mem, size, varsize) != 0
    ensures 8 * size <= |mem| && OldReadable(OldView(Entries(mem, size)), Strings(mem, size))
  {
  }

  /** An accepted new value is one a reader of the new format can read. */
  lemma NewAcceptedIsReadable(mem: Bytes, size: word, varsize: nat)
    requires 8 * Count(size) <= |mem| && varsize <= HEADER + |mem| && !NewVersion(size)
    requires NewVerdict(NewView(Entries(mem, Count(size))), size, varsize) != 0
    ensures NewReadable(NewView(Entries(mem, Count(size))), Strings(mem, Count(size)))
  {
  }

  lemma OldStartNext(es: seq<HOldEntry>, i: nat)
    requires i < |es|
    ensures OldStart(es, i + 1) == OldStart(es, i) + es[i].Used()
    ensures StartsInPlace(es, i) <==> es[i].pos == OldStart(es, i)
  {
  }

  lemma KeyLenNext(es: seq<NewPair>, i: nat)
    requires 0 < i < |es| && es[0].k.isFirst && PairInOrder(es, i)
    ensures KeyLen(es, i) == es[i].k.end - es[i - 1].v.end
    ensures KeyInOrder(es, i) <==> KeyLen(es, i - 1) <= KeyLen(es, i) && !es[i].k.isNull
  {
  }

  // ----- The fast path

  /** A short value whose first word has the first flag is taken as new without further checks. */
  predicate FastPath(mem: Bytes, size: word, varsize: nat)
    requires size != 0 ==> 8 <= |mem|
  {
    size == 0 || (varsize < 32768 && Decode(WordAt(mem, 0)).isFirst)
  }

  /** An accepted old value goes that way only if its first value is null with a stored length
      of 32768 or more. */
  lemma FastPathIff(mem: Bytes, size: word, varsize: nat)
    requires varsize <= HEADER + |mem| && 0 < size && 8 <= |mem| && OldVerdict(mem, size, varsize) != 0
    ensures FastPath(mem, size, varsize) <==>
            varsize < 32768 && DecodeOld(Entries(mem, size)[0]).isNull && DecodeOld(Entries(mem, size)[0]).valLen >= 32768
  {
    var es := OldView(Entries(mem, size));
    OldStartsBelow(es, 1, |es|);
    assert OldStart(es, 1) == OldStart(es, 0) + es[0].Used();
    FirstFlagIsLongValue(Entries(mem, size)[0]);
  }

  lemma FirstFlagIsLongValue(p: Pair)
    ensures Decode(p.k).isFirst <==> DecodeOld(p).valLen >= 32768
  {
  }

  /** A short value that starts with a null whose stored length is 32768 or more. */
  predicate LongNullFirst(mem: Bytes, size: word, varsize: nat)
    requires 8 <= |mem|
  {
    var first := DecodeOld(Entries(mem, 1)[0]);
    varsize < 32768 && first.isNull && first.valLen >= 32768
  }

  /** What was held the n items in the old format, and now holds the same items in the new one. */
  ghost predicate SameItems(was: Bytes, now: Bytes, n: nat) {
    && |was| == |now| && 8 * n <= |was|
    && var o, e := OldView(Entries(was, n)), NewView(Entries(now, n));
       && OldReadable(o, Strings(was, n)) && NewReadable(e, Strings(now, n))
       && NewItems(e, Strings(now, n)) == OldItems(o, Strings(was, n))
  }

  /** The first words of an old value, read as new ones: neither a null nor a value that
      takes up room. */
  lemma FirstOldWordsReadAsNew(p: Pair)
    requires DecodeOld(p).pos == 0
    ensures Decode(p.v) == HEntry(if DecodeOld(p).isNull then 1 else 0, false, false)
    ensures Decode(p.k).isFirst ==> DecodeOld(p).valLen >= 32768
  {
    FirstFlagIsLongValue(p);
  }

  lemma FirstItemDiffers(o: seq<HOldEntry>, e: seq<NewPair>, strings: Bytes)
    requires o != [] && |e| == |o| && OldReadable(o, strings) && NewReadable(e, strings)
    requires e[0].v == HEntry(if o[0].isNull then 1 else 0, false, false) && o[0].valLen >= 32768
    ensures NewItem(e, strings, 0) != OldItem(o, strings, 0)
  {
    assert PairInOrder(e, 0) && StartsInPlace(o, 0);
    OldStartsBelow(o, 1, |o|);
    OldStartNext(o, 0);
    var was, now := OldItem(o, strings, 0), NewItem(e, strings, 0);
    if !was.isNull {
      assert now.value == [] && |was.value| >= 32768;
    }
  }

  /** No accepted old value means the same when its memory is taken as new: either it cannot be
      read so, or the first value has become an empty string. */
  lemma TakenAsNewIsMisread(mem: Bytes, size: word, varsize: nat)
    requires varsize <= HEADER + |mem| && 0 < size && OldVerdict(mem, size, varsize) != 0
    ensures !SameItems(mem, mem, size)
  {
    OldAcceptedIsReadable(mem, size, varsize);
    var ps, strings := Entries(mem, size), Strings(mem, size);
    var o, e := OldView(ps), NewView(ps);
    assert StartsInPlace(o, 0);
    FirstOldWordsReadAsNew(ps[0]);
    if NewReadable(e, strings) {
      FirstItemDiffers(o, e, strings);
      assert OldItems(o, strings)[0] != NewItems(e, strings)[0];
    }
  }

  /** The meaning of an accepted old value survives if and only if the value is not a short one
      starting with a long null and, where ambiguous values are resolved as new, is not
      acceptable as new as well. */
  ghost predicate KeptIff(was: Bytes, now: Bytes, size: word, varsize: nat, asNew: bool)
    requires 8 * Count(size) <= |was| && 8 <= |was|
  {
    SameItems(was, now, size) <==>
    && !LongNullFirst(was, size, varsize)
    && !(asNew && NewVerdict(NewView(Entries(was, Count(size))), size, varsize) != 0)
  }

  /** An accepted old value is rewritten, or taken as new in exactly these cases. */
  lemma DecisionOnOld(mem: Bytes, size: word, varsize: nat, asNew: bool)
    requires varsize <= HEADER + |mem| && 0 < size && 8 * Count(size) <= |mem| && 8 <= |mem|
    requires OldVerdict(mem, size, varsize) != 0
    ensures Decision(mem, size, varsize, asNew) ==
            if LongNullFirst(mem, size, varsize) ||
               (asNew && NewVerdict(NewView(Entries(mem, Count(size))), size, varsize) != 0)
            then TakeAsNew else RewriteOld
  {
    FastPathIff(mem, size, varsize);
  }

  lemma UpgradeKeepsMeaningIff(was: Bytes, now: Bytes, size: word, varsize: nat, asNew: bool)
    requires varsize <= HEADER + |was| && 0 < size && 8 * Count(size) <= |was| && 8 <= |was|
    requires OldVerdict(was, size, varsize) != 0
    requires Decision(was, size, varsize, asNew) == TakeAsNew ==> now == was
    requires Decision(was, size, varsize, asNew) == RewriteOld ==> SameItems(was, now, size)
    ensures KeptIff(was, now, size, varsize, asNew)
  {
    DecisionOnOld(was, size, varsize, asNew);
    if Decision(was, size, varsize, asNew) == TakeAsNew {
      TakenAsNewIsMisread(was, size, varsize);
    }
  }

  /** One null entry for key "a", its unused value length stored as 32768. */
  function NullEntry(): Bytes {
    [1, 0, 0, 128, 1, 0, 0, 0, 97]
  }

  lemma NullEntryWords()
    ensures Entries(NullEntry(), 1) == [Pair(0x8000_0001, 1)] && Strings(NullEntry(), 1) == [97]
    ensures OldView(Entries(NullEntry(), 1)) == [HOldEntry(1, 0x8000, true, 0)]
    ensures NewView(Entries(NullEntry(), 1)) == [NewPair(HEntry(1, false, true), HEntry(1, false, false))]
  {
  }

  lemma NullEntryItems()
    ensures var o, e, strings: Bytes := [HOldEntry(1, 0x8000, true, 0)],
              [NewPair(HEntry(1, false, true), HEntry(1, false, false))], [97];
            && OldReadable(o, strings) && NewReadable(e, strings) && OldStart(o, 1) == 1
            && OldItems(o, strings) == [Item([97], true, [])] && NewItems(e, strings) == [Item([97], false, [])]
  {
    var o, e := [HOldEntry(1, 0x8000, true, 0)], [NewPair(HEntry(1, false, true), HEntry(1, false, false))];
    assert OldStart(o, 1) == OldStart(o, 0) + o[0].Used();
    assert StartsInPlace(o, 0) && PairInOrder(e, 0);
    var strings: Bytes := [97];
    assert strings[0..1] == [97];
    assert OldItem(o, strings, 0) == Item([97], true, []) && NewItem(e, strings, 0) == Item([97], false, []);
  }

  /** An accepted old value that the upgrade takes as new, and whose null so becomes an empty
      string. */
  lemma FastPathMisreads()
    ensures var mem := NullEntry();
            && OldVerdict(mem, 1, 17) == 2 && FastPath(mem, 1, 17) && Decision(mem, 1, 17, false) == TakeAsNew
            && OldReadable(OldView(Entries(mem, 1)), Strings(mem, 1))
            && NewReadable(NewView(Entries(mem, 1)), Strings(mem, 1))
            && OldItems(OldView(Entries(mem, 1)), Strings(mem, 1)) == [Item([97], true, [])]
            && NewItems(NewView(Entries(mem, 1)), Strings(mem, 1)) == [Item([97], false, [])]
  {
    NullEntryWords();
    NullEntryItems();
    assert WordAt(NullEntry(), 0) == 0x8000_0001;
  }

  // ----- The value in memory

  class HStore {
    const mem: array<byte>
    var size: word
    var varsize: nat

    /** A varlena of at most 2^30 bytes whose entry array lies in memory. */
    ghost predicate Valid()
      reads this, mem
    {
      && HEADER + mem.Length < TWO_30 && varsize <= HEADER + mem.Length
      && 8 * Count(size) <= mem.Length && (size != 0 ==> 8 <= mem.Length)
    }

    ghost function Pairs(): seq<Pair>
      requires Valid()
      reads this, mem
    {
      Entries(mem[..], Count(size))
    }

    ghost function Text(): Bytes
      requires Valid()
      reads this, mem
    {
      Strings(mem[..], Count(size))
    }

    method LoadNew(i: nat, ghost es: seq<NewPair>) returns (e: NewPair)
      requires i < |es| && 8 * |es| <= mem.Length && es == NewView(Entries(mem[..], |es|))
      ensures e == es[i]
    {
      var p := LoadPair(mem, i, |es|);
      e := NewPair(Decode(p.k), Decode(p.v));
    }

    method LoadOld(i: nat, ghost es: seq<HOldEntry>) returns (e: HOldEntry)
      requires i < |es| && 8 * |es| <= mem.Length && es == OldView(Entries(mem[..], |es|))
      ensures e == es[i]
    {
      var p := LoadPair(mem, i, |es|);
      e := DecodeOld(p);
    }

    /** HS_FIXSIZE after HS_SETCOUNT of the present count */
    method TakeAsNew()
      requires Valid() && !NewVersion(size)
      modifies this`size, this`varsize
      ensures Count(size) == old(Count(size)) && NewVersion(size)
      ensures varsize == DataSize(Count(size), StringsEnd(NewView(Entries(mem[..], Count(size)))))
    {
      var count := size % COUNT_LIMIT;
      SetCountReads(count);
      size := count + TWO_31;
      FixSize(count);
    }

    method FixSize(count: nat)
      requires 8 * count <= mem.Length
      modifies this`varsize
      ensures varsize == DataSize(count, StringsEnd(NewView(Entries(mem[..], count))))
    {
      var bl := 0;
      if count != 0 {
        var p := LoadPair(mem, count - 1, count);
        bl := p.v % TWO_30;
      }
      varsize := DataSize(count, bl);
    }

    /** hstoreValidNewFormat: entry positions */
    method PositionsInOrder(ghost es: seq<NewPair>, count: nat) returns (r: bool)
      requires count == |es| && 8 * count <= mem.Length && es == NewView(Entries(mem[..], count))
      ensures r == InOrder(es)
    {
      var before: nat := 0;
      var i := 0;
      while i < count
        invariant 0 <= i <= count
        invariant i > 0 ==> before == es[i - 1].v.end
        invariant forall j :: 0 <= j < i ==> PairInOrder(es, j)
      {
        var e := LoadNew(i, es);
        if (i > 0 && (e.k.isFirst || e.k.end < before)) || e.v.isFirst || e.v.end < e.k.end {
          assert !PairInOrder(es, i);
          return false;
        }
        before := e.v.end;
        i := i + 1;
      }
      return true;
    }

    /** hstoreValidNewFormat: key lengths and null keys */
    method NewKeysInOrder(ghost es: seq<NewPair>, count: nat) returns (r: bool)
      requires 0 < count == |es| && 8 * count <= mem.Length && es == NewView(Entries(mem[..], count))
      requires es[0].k.isFirst && InOrder(es)
      ensures r <==> forall i :: 0 < i < count ==> KeyInOrder(es, i)
    {
      var e := LoadNew(0, es);
      var before, len: int := e.v.end, e.k.end;
      var i: nat := 1;
      while i < count
        invariant 1 <= i <= count
        invariant before == es[i - 1].v.end && len == KeyLen(es, i - 1)
        invariant forall j :: 0 < j < i ==> KeyInOrder(es, j)
      {
        r, before, len := NextKey(es, i, before, len);
        if !r {
          return;
        }
        i := i + 1;
      }
      return true;
    }

    method NextKey(ghost es: seq<NewPair>, i: nat, before: nat, len: int) returns (r: bool, before': nat, len': int)
      requires 0 < i < |es| && 8 * |es| <= mem.Length && es == NewView(Entries(mem[..], |es|))
      requires es[0].k.isFirst && InOrder(es) && before == es[i - 1].v.end && len == KeyLen(es, i - 1)
      ensures r == KeyInOrder(es, i) && before' == es[i].v.end && len' == KeyLen(es, i)
    {
      var e := LoadNew(i, es);
      assert PairInOrder(es, i);
      KeyLenNext(es, i);
      before', len' := e.v.end, e.k.end - before;
      r := !(len' < len || e.k.isNull);
    }

    /** hstoreValidNewFormat */
    method ValidNewFormat() returns (r: nat)
      requires Valid()
      ensures r == NewVerdict(NewView(Pairs()), size, varsize)
    {
      var count := size % COUNT_LIMIT;
      if size >= TWO_31 || count == 0 {
        return 2;
      }
      ghost var es := NewView(Pairs());
      var last := LoadNew(count - 1, es);
      var vsize := DataSize(count, last.v.end);
      var first := LoadNew(0, es);
      if !first.k.isFirst || vsize > varsize {
        return 0;
      }
      var ok := PositionsInOrder(es, count);
      if !ok {
        return 0;
      }
      ok := NewKeysInOrder(es, count);
      if !ok {
        return 0;
      }
      return if vsize != varsize then 1 else 2;
    }

    /** hstoreValidOldFormat: key lengths */
    method OldKeysOk(ghost es: seq<HOldEntry>, count: nat) returns (r: bool)
      requires 0 < count == |es| && 8 * count <= mem.Length && es == OldView(Entries(mem[..], count))
      ensures r == OldKeysInOrder(es)
    {
      var e := LoadOld(0, es);
      var len := e.keyLen;
      var i := 1;
      while i < count
        invariant 1 <= i <= count && len == es[i - 1].keyLen
        invariant forall j :: 0 < j < i ==> es[j - 1].keyLen <= es[j].keyLen
      {
        e := LoadOld(i, es);
        if e.keyLen < len {
          return false;
        }
        len := e.keyLen;
        i := i + 1;
      }
      return true;
    }

    /** hstoreValidOldFormat: contiguity; lastpos is where the strings end. */
    method OldContiguous(ghost es: seq<HOldEntry>, count: nat) returns (r: bool, lastpos: nat)
      requires count == |es| && 8 * count <= mem.Length && es == OldView(Entries(mem[..], count))
      ensures r == Contiguous(es) && (r ==> lastpos == OldStart(es, count))
    {
      lastpos := 0;
      var i: nat := 0;
      while i < count
        invariant i <= count && lastpos == OldStart(es, i)
        invariant forall j :: 0 <= j < i ==> StartsInPlace(es, j)
      {
        var e := LoadOld(i, es);
        OldStartNext(es, i);
        if e.pos != lastpos {
          return false, lastpos;
        }
        lastpos := lastpos + e.Used();
        i := i + 1;
      }
      r := true;
    }

    /** hstoreValidOldFormat */
    method ValidOldFormat() returns (r: nat)
      requires Valid()
      ensures r == OldVerdict(mem[..], size, varsize)
    {
      if size >= TWO_31 {
        return 0;
      }
      if size == 0 {
        return 2;
      }
      if size >= COUNT_LIMIT || DataSize(size, 0) > varsize {
        return 0;
      }
      ghost var es := OldView(Entries(mem[..], size));
      var first := LoadOld(0, es);
      if first.pos != 0 {
        assert !StartsInPlace(es, 0);
        return 0;
      }
      var ok := OldKeysOk(es, size);
      if !ok {
        return 0;
      }
      var lastpos;
      ok, lastpos := OldContiguous(es, size);
      if !ok {
        return 0;
      }
      var vsize := DataSize(size, lastpos);
      return if vsize > varsize then 0 else if vsize != varsize then 1 else 2;
    }

    method RewriteWords(e: HOldEntry) returns (k: word, v: word)
      ensures Pair(k, v) == RenewedWords(e, false)
    {
      var valLen := e.valLen;
      if e.isNull {
        valLen := 0;
      }
      k := Encode(e.pos + e.keyLen, false);
      v := Encode(e.pos + e.keyLen + valLen, e.isNull);
    }

    /** One turn of the rewrite: the old entry is read whole before the two words that alias it
        are written. */
    method RewriteEntry(i: nat, ghost count: nat)
      requires i < count && 8 * count <= mem.Length
      modifies mem
      ensures var ps := old(Entries(mem[..], count));
              Entries(mem[..], count) == ps[i := RenewedWords(DecodeOld(ps[i]), false)]
      ensures Strings(mem[..], count) == old(Strings(mem[..], count))
    {
      ghost var was := mem[..];
      var e := LoadOld(i, OldView(Entries(was, count)));
      var k, v := RewriteWords(e);
      StoreWord(mem, 2 * i, k);
      StoreWord(mem, 2 * i + 1, v);
      ghost var now := mem[..];
      assert now == StorePair(was, i, Pair(k, v));
      StorePairSets(was, count, i, Pair(k, v));
    }

    method MarkFirst(ghost count: nat)
      requires 0 < count && 8 * count <= mem.Length
      modifies mem
      ensures var ps := old(Entries(mem[..], count));
              Entries(mem[..], count) == ps[0 := ps[0].(k := WithFirst(ps[0].k))]
      ensures Strings(mem[..], count) == old(Strings(mem[..], count))
    {
      var p := LoadPair(mem, 0, count);
      StoreKeySets(mem[..], count, 0, WithFirst(p.k));
      StoreWord(mem, 0, WithFirst(p.k));
    }

    method RewriteEntries(count: nat)
      requires 8 * count <= mem.Length
      modifies mem
      ensures Entries(mem[..], count) == RenewedMemory(old(Entries(mem[..], count)))
      ensures Strings(mem[..], count) == old(Strings(mem[..], count))
    {
      ghost var ps := Entries(mem[..], count);
      ghost var now := ps;
      var i := 0;
      while i < count
        invariant 0 <= i <= count
        invariant Strings(mem[..], count) == old(Strings(mem[..], count))
        invariant now == Entries(mem[..], count)
        invariant forall j :: 0 <= j < count ==> now[j] == if j < i then RenewedWords(DecodeOld(ps[j]), false) else ps[j]
      {
        RewriteEntry(i, count);
        now := now[i := RenewedWords(DecodeOld(ps[i]), false)];
        i := i + 1;
      }
      if count != 0 {
        MarkFirst(count);
        now := now[0 := now[0].(k := WithFirst(now[0].k))];
      }
      assert now == RenewedMemory(ps);
    }

    /** The branches of hstoreUpgrade. */
    method Dispatch(asNew: bool) returns (ok: bool)
      requires Valid()
      modifies this`size, this`varsize, mem
      ensures var was, oldSize, oldVarsize := old(mem[..]), old(size), old(varsize);
              match Decision(was, oldSize, oldVarsize, asNew)
              case Keep => ok && mem[..] == was && size == oldSize && varsize == oldVarsize
              case Reject => !ok && mem[..] == was && size == oldSize && varsize == oldVarsize
              case TakeAsNew =>
                && ok && mem[..] == was && NewVersion(size) && Count(size) == Count(oldSize)
                && varsize == DataSize(Count(size), StringsEnd(NewView(Entries(was, Count(size)))))
              case RewriteOld =>
                && ok && NewVersion(size) && Count(size) == oldSize
                && MeaningKept(was, mem[..], oldSize, varsize) && varsize <= oldVarsize
    {
      if size >= TWO_31 {
        return true;
      }
      var first := false;
      if size != 0 {
        var w := LoadWord(mem, 0);
        first := Decode(w).isFirst;
      }
      if size == 0 || (varsize < 32768 && first) {
        TakeAsNew();
        return true;
      }
      var validNew := ValidNewFormat();
      var validOld := ValidOldFormat();
      if validOld == 0 {
        if validNew != 0 {
          TakeAsNew();
          return true;
        }
        return false;
      }
      if validNew != 0 && asNew {
        TakeAsNew();
        return true;
      }
      UpgradeOld();
      return true;
    }

    /** hstoreUpgrade; asNew says that ambiguous values are resolved as new. A false result is
        the error "invalid hstore value found". */
    method Upgrade(asNew: bool) returns (ok: bool)
      requires Valid()
      modifies this`size, this`varsize, mem
      ensures var was, oldSize, oldVarsize := old(mem[..]), old(size), old(varsize);
              match Decision(was, oldSize, oldVarsize, asNew)
              case Keep => ok && mem[..] == was && size == oldSize && varsize == oldVarsize
              case Reject => !ok && mem[..] == was && size == oldSize && varsize == oldVarsize
              case TakeAsNew =>
                && ok && mem[..] == was && NewVersion(size) && Count(size) == Count(oldSize)
                && varsize == DataSize(Count(size), StringsEnd(NewView(Entries(was, Count(size)))))
              case RewriteOld =>
                && ok && NewVersion(size) && Count(size) == oldSize
                && MeaningKept(was, mem[..], oldSize, varsize) && varsize <= oldVarsize
      ensures var was, oldSize, oldVarsize := old(mem[..]), old(size), old(varsize);
              0 < oldSize && OldVerdict(was, oldSize, oldVarsize) != 0 ==>
                ok && KeptIff(was, mem[..], oldSize, oldVarsize, asNew)
    {
      ghost var was, oldSize, oldVarsize := mem[..], size, varsize;
      ok := Dispatch(asNew);
      if 0 < oldSize && OldVerdict(was, oldSize, oldVarsize) != 0 {
        DecisionOnOld(was, oldSize, oldVarsize, asNew);
        UpgradeKeepsMeaningIff(was, mem[..], oldSize, oldVarsize, asNew);
      }
    }

    /** The rewrite of an accepted old value. */
    method UpgradeOld()
      requires Valid() && !NewVersion(size) && 0 < size && OldVerdict(mem[..], size, varsize) != 0
      modifies this`size, this`varsize, mem
      ensures NewVersion(size) && Count(size) == old(size)
      ensures MeaningKept(old(mem[..]), mem[..], old(size), varsize) && varsize <= old(varsize)
    {
      ghost var was, before := mem[..], varsize;
      OldAcceptedIsReadable(was, size, varsize);
      var count := size;
      RewriteEntries(count);
      ghost var now := mem[..];
      RewriteKeepsMeaning(was, now, count);
      SetCountReads(count);
      size := count + TWO_31;
      FixSize(count);
      assert mem[..] == now;
    }
  }

  /** The n entries that `was` held in the old format, `now` holds in the new one, in a value of
      exactly the right size. */
  ghost predicate MeaningKept(was: Bytes, now: Bytes, n: nat, varsize: nat) {
    && SameItems(was, now, n)
    && varsize == DataSize(n, OldStart(OldView(Entries(was, n)), n)) == DataSize(n, StringsEnd(NewView(Entries(now, n))))
  }

  lemma RewriteKeepsMeaning(was: Bytes, now: Bytes, n: nat)
    requires |was| == |now| && 8 * n <= |was| < TWO_30
    requires OldReadable(OldView(Entries(was, n)), Strings(was, n))
    requires Entries(now, n) == RenewedMemory(Entries(was, n)) && Strings(now, n) == Strings(was, n)
    ensures MeaningKept(was, now, n, DataSize(n, OldStart(OldView(Entries(was, n)), n)))
  {
    RenewedWordsRead(Entries(was, n));
    UpgradePreserves(OldView(Entries(was, n)), Strings(was, n));
  }

  datatype Action = Keep | TakeAsNew | RewriteOld | Reject

  /** What hstoreUpgrade does with a value. */
  function Decision(mem: Bytes, size: word, varsize: nat, asNew: bool): Action
    requires 8 * Count(size) <= |mem| && varsize <= HEADER + |mem| && (size != 0 ==> 8 <= |mem|)
  {
    var newOk := NewVerdict(NewView(Entries(mem, Count(size))), size, varsize) != 0;
    if NewVersion(size) then Keep
    else if FastPath(mem, size, varsize) then TakeAsNew
    else if OldVerdict(mem, size, varsize) == 0 then (if newOk then TakeAsNew else Reject)
    else if newOk && asNew then TakeAsNew
    else RewriteOld
  }
}
