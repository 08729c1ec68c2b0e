/** Bloom signatures: the bits a column value sets, and the test a scan applies
    (contrib/bloom/blutils.c, contrib/bloom/blscan.c). */
module BloomSignature {
  import opened Optional
  import opened CArith
  import opened BloomWord
  import opened BloomGenerator

  const INDEX_MAX_KEYS := 32

  type Signature = seq<bv16>

  /** bloomLength is in words; bitSize[i] is the number of bits column i sets. */
  datatype Options = Options(bloomLength: nat, bitSize: seq<nat>) {
    predicate Valid() {
      1 <= bloomLength <= 256 && |bitSize| <= INDEX_MAX_KEYS
    }

    function BitCount(): nat {
      bloomLength * SIGNWORDBITS
    }
  }

  /** A column value; its hash is supplied by the operator class, one function per column. */
  type Value = int
  type Hash = (nat, Value) -> uint32

  predicate HasBit(s: Signature, i: nat)
    requires i < |s| * SIGNWORDBITS
  {
    WordBit(s[i / SIGNWORDBITS], i % SIGNWORDBITS)
  }

  /** One output of a generator seeded with the column number. */
  function ColumnWord(attno: nat): (w: int)
    requires attno < INDEX_MAX_KEYS
    ensures w == MULTIPLIER * (attno + 1) - 1
  {
    Step(Seed(attno)) - 1
  }

  /** The seed for a value of column attno. */
  function ColumnSeed(hash: uint32, attno: nat): (s: int)
    requires attno < INDEX_MAX_KEYS
    ensures Seeded(s)
  {
    var u := Xor32(hash, ColumnWord(attno));
    ZeroSeeds(u);
    Seed(u)
  }

  /** The j-th bit index drawn from a seeded generator. */
  function BitFrom(s: int, j: nat, bitCount: nat): int
    requires bitCount > 0
  {
    TruncMod(Iterate(s, j + 1) - 1, bitCount)
  }

  /** Every index falls inside the signature exactly when the seed is not zero. */
  lemma BitFromInRangeIff(s: int, j: nat, bitCount: nat)
    requires Seeded(s) && bitCount > 1
    ensures 0 <= BitFrom(s, j, bitCount) < bitCount <==> s != 0
  {
    if s != 0 {
      StaysInRange(s, j + 1);
    } else {
      ZeroIsAbsorbing(j + 1);
    }
  }

  lemma {:induction false} ZeroIsAbsorbing(n: nat)
    ensures Iterate(0, n) == 0
  {
    if n > 0 {
      ZeroIsAbsorbing(n - 1);
    }
  }

  /** A value of a column is unusable for exactly two hash values, which depend on the column:
      its seed is zero, and the index drawn from that, -1, shifts by a negative amount. */
  lemma UnusableHashes(hash: uint32, attno: nat)
    requires attno < INDEX_MAX_KEYS
    ensures ColumnSeed(hash, attno) == 0 <==>
            hash == Xor32(0xFFFF_FFFF, ColumnWord(attno)) || hash == Xor32(0x8000_0001, ColumnWord(attno))
  {
    var w := ColumnWord(attno);
    ZeroSeeds(Xor32(hash, w));
    Xor32Moves(hash, w, 0xFFFF_FFFF);
    Xor32Moves(hash, w, 0x8000_0001);
  }

  /** Signing the value draws no index outside the signature. */
  predicate Usable(o: Options, hash: uint32, attno: nat)
    requires o.Valid() && attno < |o.bitSize|
  {
    o.bitSize[attno] == 0 || ColumnSeed(hash, attno) != 0
  }

  /** A value with this seed, setting n bits, sets bit i. */
  ghost predicate SignedBy(s: int, n: nat, bitCount: nat, i: int)
    requires bitCount > 0
  {
    exists j: nat :: j < n && i == BitFrom(s, j, bitCount)
  }

  // ----- Setting bits

  /** SETBIT */
  function WithBit(s: Signature, i: nat): (r: Signature)
    requires i < |s| * SIGNWORDBITS
    ensures |r| == |s|
  {
    s[i / SIGNWORDBITS := SetWordBit(s[i / SIGNWORDBITS], i % SIGNWORDBITS)]
  }

  lemma SetBitSets(s: Signature, i: nat, k: nat)
    requires i < |s| * SIGNWORDBITS && k < |s| * SIGNWORDBITS
    ensures HasBit(WithBit(s, i), k) <==> HasBit(s, k) || i == k
  {
    var w := i / SIGNWORDBITS;
    if k / SIGNWORDBITS == w {
      SetWordBitSets(s[w], i % SIGNWORDBITS, k % SIGNWORDBITS);
    }
  }

  /** Adds a value's bits to a signature. What the generator held before does not matter, and
      no bit is ever cleared. A false result is a shift by -1 at the first bit, which C leaves
      undefined; the signature is then as it was. */
  method SignValue(g: Generator, sign: array<bv16>, o: Options, hash: uint32, attno: nat) returns (defined: bool)
    requires o.Valid() && attno < |o.bitSize| && sign.Length == o.bloomLength
    modifies g, sign
    ensures defined <==> Usable(o, hash, attno)
    ensures !defined ==> sign[..] == old(sign[..])
    ensures defined ==>
              forall i: nat :: i < o.BitCount() ==>
                (HasBit(sign[..], i) <==>
                 HasBit(old(sign[..]), i) || SignedBy(ColumnSeed(hash, attno), o.bitSize[attno], o.BitCount(), i))
  {
    var r := SeedColumn(g, hash, attno);
    defined := SetBits(g, sign, o.BitCount(), o.bitSize[attno]);
  }

  /** Sets the n bits that a seeded generator draws, if it draws any. */
  method SetBits(g: Generator, sign: array<bv16>, bitCount: nat, n: nat) returns (defined: bool)
    requires Seeded(g.next) && bitCount == sign.Length * SIGNWORDBITS > 1
    modifies g, sign
    ensures defined <==> n == 0 || old(g.next) != 0
    ensures !defined ==> sign[..] == old(sign[..])
    ensures defined ==>
              forall i: nat :: i < bitCount ==>
                (HasBit(sign[..], i) <==> HasBit(old(sign[..]), i) || SignedBy(old(g.next), n, bitCount, i))
  {
    ghost var s := g.next;
    ghost var before := sign[..];
    var j := 0;
    while j < n
      invariant 0 <= j <= n
      invariant g.next == Iterate(s, j) && Seeded(g.next) && (j > 0 ==> s != 0) && (s != 0 ==> g.next != 0)
      invariant j == 0 ==> sign[..] == before
      invariant forall i: nat :: i < bitCount ==>
                  (HasBit(sign[..], i) <==> HasBit(before, i) || SignedBy(s, j, bitCount, i))
    {
      StepAvoidsZero(g.next);
      var rand := g.Rand();
      assert g.next == Iterate(s, j + 1);
      var nBit := TruncMod(rand, bitCount);
      if nBit < 0 {
        return false;
      }
      assert nBit == BitFrom(s, j, bitCount);
      ghost var was := sign[..];
      sign[nBit / SIGNWORDBITS] := SetWordBit(sign[nBit / SIGNWORDBITS], nBit % SIGNWORDBITS);
      assert sign[..] == WithBit(was, nBit);
      SignedByNextBit(before, was, sign[..], s, j, nBit);
      j := j + 1;
    }
    defined := true;
  }

  lemma SignedByOneMore(s: int, n: nat, bitCount: nat, i: int)
    requires bitCount > 0
    ensures SignedBy(s, n + 1, bitCount, i) <==> SignedBy(s, n, bitCount, i) || i == BitFrom(s, n, bitCount)
  {
    if i == BitFrom(s, n, bitCount) {
      assert n < n + 1;
    }
  }

  lemma SignedByNextBit(before: Signature, was: Signature, now: Signature, s: int, j: nat, nBit: nat)
    requires |before| == |was| && 0 < |was| && nBit < |was| * SIGNWORDBITS && now == WithBit(was, nBit)
    requires nBit == BitFrom(s, j, |was| * SIGNWORDBITS)
    requires forall i: nat :: i < |was| * SIGNWORDBITS ==>
               (HasBit(was, i) <==> HasBit(before, i) || SignedBy(s, j, |was| * SIGNWORDBITS, i))
    ensures forall i: nat :: i < |was| * SIGNWORDBITS ==>
              (HasBit(now, i) <==> HasBit(before, i) || SignedBy(s, j + 1, |was| * SIGNWORDBITS, i))
  {
    forall i: nat | i < |was| * SIGNWORDBITS
      ensures HasBit(now, i) <==> HasBit(before, i) || SignedBy(s, j + 1, |was| * SIGNWORDBITS, i)
    {
      SetBitSets(was, nBit, i);
      SignedByOneMore(s, j, |was| * SIGNWORDBITS, i);
    }
  }

  /** Seeds the generator for one column value. */
  method SeedColumn(g: Generator, hash: uint32, attno: nat) returns (r: int)
    requires attno < INDEX_MAX_KEYS
    modifies g
    ensures g.next == ColumnSeed(hash, attno)
  {
    g.Srand(attno);
    StepAvoidsZero(g.next);
    r := g.Rand();
    g.Srand(Xor32(hash, r));
  }

  // ----- Tuples and scan keys

  /** Column c of a row is not null and sets bit i. */
  ghost predicate ColumnSigns(o: Options, h: Hash, row: seq<Option<Value>>, c: nat, i: int)
    requires o.Valid() && |row| == |o.bitSize|
  {
    c < |row| && row[c].Some? && SignedBy(ColumnSeed(h(c, row[c].value), c), o.bitSize[c], o.BitCount(), i)
  }

  /** No value of the row falls on one of the two unusable hashes. */
  ghost predicate RowUsable(o: Options, h: Hash, row: seq<Option<Value>>)
    requires o.Valid() && |row| == |o.bitSize|
  {
    forall c: nat :: c < |row| && row[c].Some? ==> Usable(o, h(c, row[c].value), c)
  }

  /** The signature of a row: bit i is set exactly when some non-null column sets it. */
  ghost predicate SignatureOf(o: Options, h: Hash, row: seq<Option<Value>>, upTo: nat, s: Signature)
    requires o.Valid() && |row| == |o.bitSize|
  {
    && |s| == o.bloomLength
    && forall i: nat :: i < o.BitCount() ==>
         (HasBit(s, i) <==> exists c: nat :: c < upTo && ColumnSigns(o, h, row, c, i))
  }

  lemma SignedByNextColumn(o: Options, h: Hash, row: seq<Option<Value>>, c: nat, s: Signature, s': Signature)
    requires o.Valid() && c < |row| == |o.bitSize| && |s'| == o.bloomLength && SignatureOf(o, h, row, c, s)
    requires forall i: nat :: i < o.BitCount() ==> (HasBit(s', i) <==> HasBit(s, i) || ColumnSigns(o, h, row, c, i))
    ensures SignatureOf(o, h, row, c + 1, s')
  {
    forall i: nat | i < o.BitCount()
      ensures HasBit(s', i) <==> exists d: nat :: d < c + 1 && ColumnSigns(o, h, row, d, i)
    {
      OneMoreColumn(o, h, row, c, i);
    }
  }

  /** BloomFormTuple; None stands for the undefined shift. */
  method FormSignature(g: Generator, o: Options, h: Hash, row: seq<Option<Value>>) returns (r: Option<Signature>)
    requires o.Valid() && |row| == |o.bitSize|
    modifies g
    ensures r.Some? <==> RowUsable(o, h, row)
    ensures r.Some? ==> SignatureOf(o, h, row, |row|, r.value)
  {
    var sign := new bv16[o.bloomLength](_ => 0);
    ClearSignature(sign[..]);
    var c := 0;
    while c < |row|
      invariant 0 <= c <= |row|
      invariant SignatureOf(o, h, row, c, sign[..])
      invariant forall d: nat :: d < c && row[d].Some? ==> Usable(o, h(d, row[d].value), d)
    {
      ghost var was := sign[..];
      if row[c].Some? {
        var defined := SignValue(g, sign, o, h(c, row[c].value), c);
        if !defined {
          return None;
        }
      }
      SignedByNextColumn(o, h, row, c, was, sign[..]);
      c := c + 1;
    }
    r := Some(sign[..]);
  }

  lemma ClearSignature(s: Signature)
    requires forall w :: 0 <= w < |s| ==> s[w] == 0
    ensures forall i: nat :: i < |s| * SIGNWORDBITS ==> !HasBit(s, i)
  {
    forall i: nat | i < |s| * SIGNWORDBITS ensures !HasBit(s, i) {
      ZeroHasNoBit(i % SIGNWORDBITS);
    }
  }

  lemma OneMoreColumn(o: Options, h: Hash, row: seq<Option<Value>>, c: nat, i: nat)
    requires o.Valid() && |row| == |o.bitSize| && c < |row|
    ensures (exists d: nat :: d < c + 1 && ColumnSigns(o, h, row, d, i)) <==>
            (exists d: nat :: d < c && ColumnSigns(o, h, row, d, i)) || ColumnSigns(o, h, row, c, i)
  {
  }

  /** One equality condition of a scan: column and compared value, None for NULL. */
  datatype ScanKey = ScanKey(attno: nat, argument: Option<Value>)

  /** Scan key k sets bit i. */
  ghost predicate KeySigns(o: Options, h: Hash, k: ScanKey, i: int)
    requires o.Valid()
  {
    && k.attno < |o.bitSize|
    && k.argument.Some?
    && SignedBy(ColumnSeed(h(k.attno, k.argument.value), k.attno), o.bitSize[k.attno], o.BitCount(), i)
  }

  /** A key on a column of the index that can be signed. */
  ghost predicate KeyFine(o: Options, h: Hash, k: ScanKey)
    requires o.Valid()
  {
    k.attno < |o.bitSize| && k.argument.Some? && Usable(o, h(k.attno, k.argument.value), k.attno)
  }

  /** How signing a scan's keys comes out: a NULL key, which nothing matches, an undefined
      shift, or a signature. */
  datatype Signing = NullKey | UndefinedShift | Signed(s: Signature)

  /** The bits of s are those that the first n keys set. */
  ghost predicate SignedByKeys(o: Options, h: Hash, keys: seq<ScanKey>, n: nat, s: Signature)
    requires o.Valid() && n <= |keys| && |s| == o.bloomLength
  {
    forall i: nat :: i < o.BitCount() ==> (HasBit(s, i) <==> exists k: nat :: k < n && KeySigns(o, h, keys[k], i))
  }

  lemma SignedByNextKey(o: Options, h: Hash, keys: seq<ScanKey>, n: nat, s: Signature, s': Signature)
    requires o.Valid() && n < |keys| && |s| == |s'| == o.bloomLength && SignedByKeys(o, h, keys, n, s)
    requires forall i: nat :: i < o.BitCount() ==> (HasBit(s', i) <==> HasBit(s, i) || KeySigns(o, h, keys[n], i))
    ensures SignedByKeys(o, h, keys, n + 1, s')
  {
    forall i: nat | i < o.BitCount()
      ensures HasBit(s', i) <==> exists k: nat :: k < n + 1 && KeySigns(o, h, keys[k], i)
    {
      if HasBit(s, i) {
        var k: nat :| k < n && KeySigns(o, h, keys[k], i);
      }
    }
  }

  /** The scan signature. The first key that cannot be signed decides. */
  method ScanSignature(g: Generator, o: Options, h: Hash, keys: seq<ScanKey>) returns (r: Signing)
    requires o.Valid() && forall k: nat :: k < |keys| ==> keys[k].attno < |o.bitSize|
    modifies g
    ensures r.Signed? <==> forall k: nat :: k < |keys| ==> KeyFine(o, h, keys[k])
    ensures r.NullKey? ==>
              exists n: nat :: n < |keys| && keys[n].argument.None? && forall k: nat :: k < n ==> KeyFine(o, h, keys[k])
    ensures r.UndefinedShift? ==>
              exists n: nat :: n < |keys| && keys[n].argument.Some? && !KeyFine(o, h, keys[n]) &&
                               forall k: nat :: k < n ==> KeyFine(o, h, keys[k])
    ensures r.Signed? ==> |r.s| == o.bloomLength && SignedByKeys(o, h, keys, |keys|, r.s)
  {
    var sign := new bv16[o.bloomLength](_ => 0);
    ClearSignature(sign[..]);
    var n: nat := 0;
    while n < |keys|
      invariant n <= |keys|
      invariant forall k: nat :: k < n ==> KeyFine(o, h, keys[k])
      invariant SignedByKeys(o, h, keys, n, sign[..])
    {
      if keys[n].argument.None? {
        return NullKey;
      }
      ghost var before := sign[..];
      var defined := SignValue(g, sign, o, h(keys[n].attno, keys[n].argument.value), keys[n].attno);
      if !defined {
        return UndefinedShift;
      }
      SignedByNextKey(o, h, keys, n, before, sign[..]);
      n := n + 1;
    }
    r := Signed(sign[..]);
  }

  /** A row satisfies every scan key; NULL satisfies none. */
  predicate Satisfies(row: seq<Option<Value>>, keys: seq<ScanKey>) {
    forall k: nat :: k < |keys| ==>
      keys[k].attno < |row| && row[keys[k].attno].Some? && row[keys[k].attno] == keys[k].argument
  }

  /** The scan's test on whole signatures. */
  predicate Matches(t: Signature, q: Signature) {
    |t| == |q| && forall w :: 0 <= w < |q| ==> Covers(t[w], q[w])
  }

  /** The word loop of the scan, which stops at the first word that fails. */
  method TestSignature(t: Signature, q: Signature) returns (res: bool)
    requires |t| == |q|
    ensures res <==> Matches(t, q)
  {
    res := true;
    var i := 0;
    while i < |q|
      invariant 0 <= i <= |q|
      invariant forall w :: 0 <= w < i ==> Covers(t[w], q[w])
    {
      if !Covers(t[i], q[i]) {
        return false;
      }
      i := i + 1;
    }
  }

  lemma MatchesIff(t: Signature, q: Signature)
    requires |t| == |q|
    ensures Matches(t, q) <==> forall i: nat :: i < |q| * SIGNWORDBITS && HasBit(q, i) ==> HasBit(t, i)
  {
    if Matches(t, q) {
      forall i: nat | i < |q| * SIGNWORDBITS && HasBit(q, i) ensures HasBit(t, i) {
        CoversIff(t[i / SIGNWORDBITS], q[i / SIGNWORDBITS]);
      }
    } else {
      var w :| 0 <= w < |q| && !Covers(t[w], q[w]);
      CoversIff(t[w], q[w]);
      var b: nat :| b < SIGNWORDBITS && WordBit(q[w], b) && !WordBit(t[w], b);
      var i := w * SIGNWORDBITS + b;
      assert i / SIGNWORDBITS == w && i % SIGNWORDBITS == b;
      assert HasBit(q, i) && !HasBit(t, i);
    }
  }

  /** A signature never hides a row: whatever the generator held when the row and
      the scan were signed, a row that satisfies the keys passes the test. */
  lemma NoFalseNegative(o: Options, h: Hash, row: seq<Option<Value>>, keys: seq<ScanKey>,
                        t: Signature, q: Signature)
    requires o.Valid() && |row| == |o.bitSize| && SignatureOf(o, h, row, |row|, t)
    requires |q| == o.bloomLength && SignedByKeys(o, h, keys, |keys|, q)
    requires Satisfies(row, keys)
    ensures Matches(t, q)
  {
    forall i: nat | i < o.BitCount() && HasBit(q, i) ensures HasBit(t, i) {
      var k: nat :| k < |keys| && KeySigns(o, h, keys[k], i);
      assert ColumnSigns(o, h, row, keys[k].attno, i);
    }
    MatchesIff(t, q);
  }
}
