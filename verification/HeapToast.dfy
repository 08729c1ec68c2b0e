/** TOAST chunk accounting in the heap check (contrib/amcheck/verify_heapam.c). */
module HeapToast {
  import opened CArith

  /** TOAST_MAX_CHUNK_SIZE for 8 kB pages. */
  const CHUNK := 1996

  /** The data of a chunk: null, neither a plain nor a short varlena, or so many bytes. */
  datatype Data = NullData | BadHeader | Sized(size: nat)

  /** A chunk as the index scan returns it. */
  datatype Chunk = NullSeq(data: Data) | Chunk(seqNo: int, data: Data) {
    predicate Valid() { Chunk? ==> IsInt32(seqNo) }
  }

  datatype Report =
    | NullSequence | WrongSequence(found: int, expected: int) | NullChunk(at: int) | BadChunk(at: int)
    | PastLast(at: int, last: int) | WrongSize(at: int, size: nat, want: int)
    | NotFound | EndedEarly(last: int, expected: int)

  /** How a value is cut: chunks 0 to last - 1 are full, chunk last holds the rest. */
  datatype Shape = Shape(last: int, lastSize: int) {
    function SizeOf(seqNo: int): int { if seqNo < last then CHUNK else lastSize }
  }

  /** The bytes a value is taken to have: 32-bit arithmetic turns a size of zero into 2^32. */
  function Total(extsize: nat): nat { if extsize == 0 then TWO_32 else extsize }

  function ShapeOf(extsize: nat): Shape {
    var last := (Total(extsize) - 1) / CHUNK;
    Shape(last, Total(extsize) - last * CHUNK)
  }

  /** All figures fit in 32-bit integers and no chunk is empty. */
  lemma ShapeFits(extsize: nat)
    requires extsize < TWO_32
    ensures var s := ShapeOf(extsize);
            0 <= s.last && IsInt32(s.last) && 1 <= s.lastSize <= CHUNK && CHUNK * s.last + s.lastSize == Total(extsize)
  {
    var t := Total(extsize) - 1;
    assert t == CHUNK * (t / CHUNK) + t % CHUNK;
  }

  // ----- One chunk

  function DataReports(seqNo: int, data: Data, s: Shape): multiset<Report> {
    if data.NullData? then multiset{NullChunk(seqNo)}
    else if data.BadHeader? then multiset{BadChunk(seqNo)}
    else if seqNo > s.last then multiset{PastLast(seqNo, s.last)}
    else if data.size != s.SizeOf(seqNo) then multiset{WrongSize(seqNo, data.size, s.SizeOf(seqNo))}
    else multiset{}
  }

  function ChunkReports(c: Chunk, expected: int, s: Shape): multiset<Report> {
    if c.NullSeq? then multiset{NullSequence}
    else (if c.seqNo != expected then multiset{WrongSequence(c.seqNo, expected)} else multiset{}) + DataReports(c.seqNo, c.data, s)
  }

  /** The sequence number to expect next; signed 32-bit, so it wraps after the largest. */
  function NextExpected(c: Chunk, expected: int): int {
    if c.NullSeq? then expected else if c.seqNo == TWO_31 - 1 then -TWO_31 else c.seqNo + 1
  }

  // ----- A scan

  /** The state and the reports after the first n chunks. Reports are a bag of rows. */
  function ExpectedAfter(cs: seq<Chunk>, n: nat): int
    requires n <= |cs|
  {
    if n == 0 then 0 else NextExpected(cs[n - 1], ExpectedAfter(cs, n - 1))
  }

  function ScanReports(cs: seq<Chunk>, n: nat, s: Shape): multiset<Report>
    requires n <= |cs|
  {
    if n == 0 then multiset{} else ScanReports(cs, n - 1, s) + ChunkReports(cs[n - 1], ExpectedAfter(cs, n - 1), s)
  }

  function EndReports(cs: seq<Chunk>, s: Shape): multiset<Report> {
    if cs == [] then multiset{NotFound}
    else if ExpectedAfter(cs, |cs|) <= s.last then multiset{EndedEarly(s.last, ExpectedAfter(cs, |cs|))}
    else multiset{}
  }

  /** Everything reported about a toasted value. */
  function Reports(cs: seq<Chunk>, extsize: nat): multiset<Report> {
    ScanReports(cs, |cs|, ShapeOf(extsize)) + EndReports(cs, ShapeOf(extsize))
  }

  // ----- Silence

  /** Chunk i is well formed and of the right size. */
  predicate Whole(c: Chunk, i: int, s: Shape) {
    c.Chunk? && c.seqNo == i && c.data.Sized? && c.data.size == s.SizeOf(i)
  }

  /** The first n chunks are 0, 1, 2, ... in order, each whole. */
  predicate InSequence(cs: seq<Chunk>, n: nat, s: Shape)
    requires n <= |cs|
  {
    forall i :: 0 <= i < n ==> Whole(cs[i], i, s)
  }

  lemma ChunkSilentIff(c: Chunk, expected: int, s: Shape)
    ensures ChunkReports(c, expected, s) == multiset{} <==> Whole(c, expected, s) && expected <= s.last
  {
    if c.Chunk? && c.seqNo != expected {
      assert WrongSequence(c.seqNo, expected) in ChunkReports(c, expected, s);
    }
  }

  lemma ScanStep(cs: seq<Chunk>, n: nat, s: Shape)
    requires 0 < n <= |cs|
    ensures ScanReports(cs, n, s) == ScanReports(cs, n - 1, s) + ChunkReports(cs[n - 1], ExpectedAfter(cs, n - 1), s)
    ensures ExpectedAfter(cs, n) == NextExpected(cs[n - 1], ExpectedAfter(cs, n - 1))
  {
  }

  lemma InSequenceStep(cs: seq<Chunk>, n: nat, s: Shape)
    requires 0 < n <= |cs|
    ensures InSequence(cs, n, s) <==> InSequence(cs, n - 1, s) && Whole(cs[n - 1], n - 1, s)
  {
  }

  lemma NothingSaid(a: multiset<Report>, b: multiset<Report>)
    ensures a + b == multiset{} <==> a == multiset{} && b == multiset{}
  {
  }

  lemma SaidInTurn(a: multiset<Report>, b: multiset<Report>, c: multiset<Report>)
    ensures a + b + c == a + (b + c)
  {
  }

  /** One more chunk keeps the scan silent exactly if it is the next one and whole. */
  lemma SilentStep(cs: seq<Chunk>, n: nat, s: Shape)
    requires 0 < n <= |cs| && s.last < TWO_31 - 1
    requires ScanReports(cs, n - 1, s) == multiset{} && ExpectedAfter(cs, n - 1) == n - 1
    ensures ScanReports(cs, n, s) == multiset{} <==> Whole(cs[n - 1], n - 1, s) && n - 1 <= s.last
    ensures ScanReports(cs, n, s) == multiset{} ==> ExpectedAfter(cs, n) == n
  {
    ScanStep(cs, n, s);
    ChunkSilentIff(cs[n - 1], n - 1, s);
  }

  lemma LoudStays(cs: seq<Chunk>, n: nat, s: Shape)
    requires 0 < n <= |cs| && ScanReports(cs, n - 1, s) != multiset{}
    ensures ScanReports(cs, n, s) != multiset{}
  {
    ScanStep(cs, n, s);
    NothingSaid(ScanReports(cs, n - 1, s), ChunkReports(cs[n - 1], ExpectedAfter(cs, n - 1), s));
  }

  predicate SilentMeansWhole(cs: seq<Chunk>, n: nat, s: Shape)
    requires n <= |cs|
  {
    && (ScanReports(cs, n, s) == multiset{} <==> InSequence(cs, n, s) && n <= s.last + 1)
    && (ScanReports(cs, n, s) == multiset{} ==> ExpectedAfter(cs, n) == n)
  }

  lemma SilentMeansWholeStep(cs: seq<Chunk>, n: nat, s: Shape)
    requires 0 < n <= |cs| && s.last < TWO_31 - 1 && SilentMeansWhole(cs, n - 1, s)
    ensures SilentMeansWhole(cs, n, s)
  {
    InSequenceStep(cs, n, s);
    if ScanReports(cs, n - 1, s) == multiset{} {
      SilentStep(cs, n, s);
    } else {
      LoudStays(cs, n, s);
    }
  }

  lemma SilentAtFirst(cs: seq<Chunk>, s: Shape)
    requires -1 <= s.last
    ensures SilentMeansWhole(cs, 0, s)
  {
  }

  lemma {:induction false} ScanSilentIff(cs: seq<Chunk>, n: nat, s: Shape)
    requires n <= |cs| && -1 <= s.last < TWO_31 - 1
    ensures SilentMeansWhole(cs, n, s)
    decreases n
  {
    if n == 0 {
      SilentAtFirst(cs, s);
    } else {
      var m: nat := n - 1;
      ScanSilentIff(cs, m, s);
      assert SilentMeansWhole(cs, n - 1, s);
      SilentMeansWholeStep(cs, n, s);
    }
  }

  /** Nothing is reported exactly when the scan returned chunks 0 to last, in order and whole. */
  lemma SilentIff(cs: seq<Chunk>, extsize: nat)
    requires extsize < TWO_32
    ensures Reports(cs, extsize) == multiset{} <==> InSequence(cs, |cs|, ShapeOf(extsize)) && |cs| == ShapeOf(extsize).last + 1
  {
    ShapeFits(extsize);
    ScanSilentIff(cs, |cs|, ShapeOf(extsize));
  }

  /** The bytes of the first n chunks. */
  function SizeSum(cs: seq<Chunk>, n: nat): nat
    requires n <= |cs|
  {
    if n == 0 then 0 else SizeSum(cs, n - 1) + if cs[n - 1].data.Sized? then cs[n - 1].data.size else 0
  }

  lemma {:induction false} FullChunks(cs: seq<Chunk>, n: nat, s: Shape)
    requires n <= |cs| && InSequence(cs, n, s) && n <= s.last
    ensures SizeSum(cs, n) == CHUNK * n
  {
    if n != 0 {
      assert Whole(cs[n - 1], n - 1, s);
      FullChunks(cs, n - 1, s);
    }
  }

  /** Silence accounts for every byte of the value. */
  lemma SilentSum(cs: seq<Chunk>, extsize: nat)
    requires extsize < TWO_32 && Reports(cs, extsize) == multiset{}
    ensures SizeSum(cs, |cs|) == Total(extsize)
  {
    var s := ShapeOf(extsize);
    SilentIff(cs, extsize);
    ShapeFits(extsize);
    var n := |cs| - 1;
    FullChunks(cs, n, s);
    assert Whole(cs[n], n, s);
  }

  // ----- The check

  class ToastCheck {
    var expectedChunkSeq: int
    var reports: multiset<Report>

    /** check_toast_tuple */
    method CheckToastTuple(c: Chunk, extsize: nat)
      requires c.Valid() && extsize < TWO_32
      modifies this
      ensures reports == old(reports) + ChunkReports(c, old(expectedChunkSeq), ShapeOf(extsize))
      ensures expectedChunkSeq == NextExpected(c, old(expectedChunkSeq))
    {
      if c.NullSeq? {
        reports := reports + multiset{NullSequence};
        return;
      }
      var chunkSeq := c.seqNo;
      ghost var before, data := reports, DataReports(chunkSeq, c.data, ShapeOf(extsize));
      if chunkSeq != expectedChunkSeq {
        reports := reports + multiset{WrongSequence(chunkSeq, expectedChunkSeq)};
        SaidInTurn(before, multiset{WrongSequence(chunkSeq, expectedChunkSeq)}, data);
      }
      expectedChunkSeq := if chunkSeq == TWO_31 - 1 then -TWO_31 else chunkSeq + 1;
      CheckChunkData(chunkSeq, c.data, extsize);
    }

    /** The second half of check_toast_tuple */
    method CheckChunkData(chunkSeq: int, data: Data, extsize: nat)
      requires extsize < TWO_32
      modifies this`reports
      ensures reports == old(reports) + DataReports(chunkSeq, data, ShapeOf(extsize))
    {
      var lastChunkSeq := (Total(extsize) - 1) / CHUNK;
      if data.NullData? {
        reports := reports + multiset{NullChunk(chunkSeq)};
        return;
      }
      if data.BadHeader? {
        reports := reports + multiset{BadChunk(chunkSeq)};
        return;
      }
      if chunkSeq > lastChunkSeq {
        reports := reports + multiset{PastLast(chunkSeq, lastChunkSeq)};
        return;
      }
      var expectedSize := if chunkSeq < lastChunkSeq then CHUNK else Total(extsize) - lastChunkSeq * CHUNK;
      if data.size != expectedSize {
        reports := reports + multiset{WrongSize(chunkSeq, data.size, expectedSize)};
      }
    }

    /** check_toasted_attribute; the chunks are what the ordered index scan returns. */
    method CheckToastedAttribute(cs: seq<Chunk>, extsize: nat)
      requires (forall i :: 0 <= i < |cs| ==> cs[i].Valid()) && extsize < TWO_32
      modifies this
      ensures reports == old(reports) + Reports(cs, extsize)
    {
      ghost var s, before := ShapeOf(extsize), reports;
      var lastChunkSeq := (Total(extsize) - 1) / CHUNK;
      expectedChunkSeq := 0;
      var found := false;
      var i := 0;
      while i < |cs|
        invariant 0 <= i <= |cs| && (found <==> i > 0)
        invariant expectedChunkSeq == ExpectedAfter(cs, i)
        invariant reports == before + ScanReports(cs, i, s)
      {
        found := true;
        ScanStep(cs, i + 1, s);
        SaidInTurn(before, ScanReports(cs, i, s), ChunkReports(cs[i], expectedChunkSeq, s));
        CheckToastTuple(cs[i], extsize);
        i := i + 1;
      }
      if !found {
        reports := reports + multiset{NotFound};
      } else if expectedChunkSeq <= lastChunkSeq {
        reports := reports + multiset{EndedEarly(lastChunkSeq, expectedChunkSeq)};
      }
    }
  }
}
