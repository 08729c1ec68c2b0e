/** The memory of an hstore value after its header: little-endian 32-bit entry words followed
    by string bytes (contrib/hstore/hstore.h). */
module HstoreMemory {
  import opened CArith

  type byte = x: nat | x < 256

  const TWO_30 := 0x4000_0000

  type word = x: nat | x < TWO_32

  function Pack(b0: byte, b1: byte, b2: byte, b3: byte): word {
    b0 + 0x100 * b1 + 0x1_0000 * b2 + 0x100_0000 * b3
  }

  /** The k-th entry word. */
  function WordAt(mem: seq<byte>, k: nat): word
    requires 4 * k + 4 <= |mem|
  {
    Pack(mem[4 * k], mem[4 * k + 1], mem[4 * k + 2], mem[4 * k + 3])
  }

  function ByteOf(w: word, i: nat): byte
    requires i < 4
  {
    if i == 0 then w % 0x100
    else if i == 1 then (w / 0x100) % 0x100
    else if i == 2 then (w / 0x1_0000) % 0x100
    else w / 0x100_0000
  }

  function Store(mem: seq<byte>, k: nat, w: word): (r: seq<byte>)
    requires 4 * k + 4 <= |mem|
    ensures |r| == |mem|
  {
    mem[4 * k := ByteOf(w, 0)][4 * k + 1 := ByteOf(w, 1)][4 * k + 2 := ByteOf(w, 2)][4 * k + 3 := ByteOf(w, 3)]
  }

  lemma PackBytes(w: word)
    ensures Pack(ByteOf(w, 0), ByteOf(w, 1), ByteOf(w, 2), ByteOf(w, 3)) == w
  {
    var a := w / 0x100;
    var b := w / 0x1_0000;
    assert a / 0x100 == b;
    assert b / 0x100 == w / 0x100_0000;
  }

  /** A word store changes that word and no other word or byte. */
  lemma StoreThenLoad(mem: seq<byte>, k: nat, w: word, j: nat)
    requires 4 * k + 4 <= |mem|
    ensures 4 * j + 4 <= |mem| ==> WordAt(Store(mem, k, w), j) == if j == k then w else WordAt(mem, j)
    ensures j < |mem| && !(4 * k <= j < 4 * k + 4) ==> Store(mem, k, w)[j] == mem[j]
  {
    PackBytes(w);
  }

  /** A store moves nothing in the area behind it. */
  lemma StoreKeepsTail(mem: seq<byte>, k: nat, w: word, base: nat)
    requires 4 * k + 4 <= base <= |mem|
    ensures Store(mem, k, w)[base..] == mem[base..]
  {
  }

  /** The two words that describe one key and its value. */
  datatype Pair = Pair(k: word, v: word)

  /** The memory of a value with `count` pairs: the entries, then the strings. */
  function Entries(mem: seq<byte>, count: nat): (es: seq<Pair>)
    requires 8 * count <= |mem|
    ensures |es| == count
  {
    seq(count, i requires 0 <= i < count => Pair(WordAt(mem, 2 * i), WordAt(mem, 2 * i + 1)))
  }

  function Strings(mem: seq<byte>, count: nat): seq<byte>
    requires 8 * count <= |mem|
  {
    mem[8 * count..]
  }

  function StorePair(mem: seq<byte>, i: nat, p: Pair): (r: seq<byte>)
    requires 8 * i + 8 <= |mem|
    ensures |r| == |mem|
  {
    Store(Store(mem, 2 * i, p.k), 2 * i + 1, p.v)
  }

  lemma StorePairLoads(mem: seq<byte>, i: nat, p: Pair, j: nat)
    requires 8 * i + 8 <= |mem| && 8 * j + 8 <= |mem|
    ensures Pair(WordAt(StorePair(mem, i, p), 2 * j), WordAt(StorePair(mem, i, p), 2 * j + 1)) ==
            if j == i then p else Pair(WordAt(mem, 2 * j), WordAt(mem, 2 * j + 1))
  {
    var m := Store(mem, 2 * i, p.k);
    StoreThenLoad(mem, 2 * i, p.k, 2 * j);
    StoreThenLoad(mem, 2 * i, p.k, 2 * j + 1);
    StoreThenLoad(m, 2 * i + 1, p.v, 2 * j);
    StoreThenLoad(m, 2 * i + 1, p.v, 2 * j + 1);
  }

  lemma StorePairSets(mem: seq<byte>, count: nat, i: nat, p: Pair)
    requires i < count && 8 * count <= |mem|
    ensures Entries(StorePair(mem, i, p), count) == Entries(mem, count)[i := p]
    ensures Strings(StorePair(mem, i, p), count) == Strings(mem, count)
  {
    forall j | 0 <= j < count ensures Entries(StorePair(mem, i, p), count)[j] == Entries(mem, count)[i := p][j] {
      StorePairLoads(mem, i, p, j);
    }
  }

  lemma StoreKeySets(mem: seq<byte>, count: nat, i: nat, w: word)
    requires i < count && 8 * count <= |mem|
    ensures Entries(Store(mem, 2 * i, w), count) == Entries(mem, count)[i := Entries(mem, count)[i].(k := w)]
    ensures Strings(Store(mem, 2 * i, w), count) == Strings(mem, count)
  {
    var now, want := Entries(Store(mem, 2 * i, w), count), Entries(mem, count)[i := Entries(mem, count)[i].(k := w)];
    forall j | 0 <= j < count ensures now[j] == want[j] {
      StoreThenLoad(mem, 2 * i, w, 2 * j);
      StoreThenLoad(mem, 2 * i, w, 2 * j + 1);
    }
    StoreKeepsTail(mem, 2 * i, w, 8 * count);
  }

  lemma StoreValueSets(mem: seq<byte>, count: nat, i: nat, w: word)
    requires i < count && 8 * count <= |mem|
    ensures Entries(Store(mem, 2 * i + 1, w), count) == Entries(mem, count)[i := Entries(mem, count)[i].(v := w)]
    ensures Strings(Store(mem, 2 * i + 1, w), count) == Strings(mem, count)
  {
    var now, want := Entries(Store(mem, 2 * i + 1, w), count), Entries(mem, count)[i := Entries(mem, count)[i].(v := w)];
    forall j | 0 <= j < count ensures now[j] == want[j] {
      StoreThenLoad(mem, 2 * i + 1, w, 2 * j);
      StoreThenLoad(mem, 2 * i + 1, w, 2 * j + 1);
    }
    StoreKeepsTail(mem, 2 * i + 1, w, 8 * count);
  }

  /** memcpy of src to offset `at`. */
  function Splice(mem: seq<byte>, at: nat, src: seq<byte>): (r: seq<byte>)
    requires at + |src| <= |mem|
    ensures |r| == |mem|
  {
    mem[..at] + src + mem[at + |src|..]
  }

  /** Entries depend on the bytes of the entry area alone. */
  lemma EntriesFrame(a: seq<byte>, b: seq<byte>, count: nat)
    requires 8 * count <= |a| && 8 * count <= |b| && a[..8 * count] == b[..8 * count]
    ensures Entries(a, count) == Entries(b, count)
  {
    forall i | 0 <= i < 2 * count ensures WordAt(a, i) == WordAt(b, i) {
      assert forall j :: 0 <= j < 8 * count ==> a[j] == a[..8 * count][j] == b[j];
    }
  }

  lemma EntriesPrefix(mem: seq<byte>, count: nat, more: nat)
    requires count <= more && 8 * more <= |mem|
    ensures Entries(mem, count) == Entries(mem, more)[..count]
  {
  }

  method CopyBytes(mem: array<byte>, at: nat, src: seq<byte>)
    requires at + |src| <= mem.Length
    modifies mem
    ensures mem[..] == Splice(old(mem[..]), at, src)
  {
    var i := 0;
    while i < |src|
      invariant 0 <= i <= |src|
      invariant mem[..] == Splice(old(mem[..]), at, src[..i])
    {
      mem[at + i] := src[i];
      i := i + 1;
    }
    assert src[..|src|] == src;
  }

  /** memmove of n bytes toward the front. */
  method MoveDown(mem: array<byte>, to: nat, from: nat, n: nat)
    requires to <= from && from + n <= mem.Length
    modifies mem
    ensures mem[..to] == old(mem[..to]) && mem[to..to + n] == old(mem[from..from + n])
  {
    ghost var src := mem[from..from + n];
    var i := 0;
    while i < n
      invariant 0 <= i <= n
      invariant mem[..to] == old(mem[..to])
      invariant mem[to..to + i] == src[..i]
      invariant forall j :: i <= j < n ==> mem[from + j] == src[j]
    {
      mem[to + i] := mem[from + i];
      i := i + 1;
    }
  }

  method LoadWord(mem: array<byte>, k: nat) returns (w: word)
    requires 4 * k + 4 <= mem.Length
    ensures w == WordAt(mem[..], k)
  {
    w := Pack(mem[4 * k], mem[4 * k + 1], mem[4 * k + 2], mem[4 * k + 3]);
  }

  method LoadPair(mem: array<byte>, i: nat, ghost count: nat) returns (p: Pair)
    requires i < count && 8 * count <= mem.Length
    ensures p == Entries(mem[..], count)[i]
  {
    var k := LoadWord(mem, 2 * i);
    var v := LoadWord(mem, 2 * i + 1);
    p := Pair(k, v);
  }

  method StoreWord(mem: array<byte>, k: nat, w: word)
    requires 4 * k + 4 <= mem.Length
    modifies mem
    ensures mem[..] == Store(old(mem[..]), k, w)
  {
    mem[4 * k] := ByteOf(w, 0);
    mem[4 * k + 1] := ByteOf(w, 1);
    mem[4 * k + 2] := ByteOf(w, 2);
    mem[4 * k + 3] := ByteOf(w, 3);
  }
}
