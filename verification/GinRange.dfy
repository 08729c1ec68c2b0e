/** Range scans of contrib/btree_gin over integer keys (contrib/btree_gin/btree_gin.c): an
    operator becomes a start entry and a verdict per key, across int2, int4 and int8. */
module GinRange {

  datatype Op = Less | LessEqual | Equal | GreaterEqual | Greater

  /** The plain meaning of `key op query`. */
  predicate Satisfies(op: Op, query: int, key: int) {
    match op
    case Less => key < query
    case LessEqual => key <= query
    case Equal => key == query
    case GreaterEqual => key >= query
    case Greater => key > query
  }

  /** gin_btree_compare_prefix: 0 is a match, positive ends the scan, negative goes on. */
  function Verdict(op: Op, query: int, key: int): int {
    var cmp := if query > key then 1 else if query < key then -1 else 0;
    match op
    case Less => if cmp > 0 then 0 else 1
    case LessEqual => if cmp >= 0 then 0 else 1
    case Equal => if cmp == 0 then 0 else 1
    case GreaterEqual => if cmp <= 0 then 0 else -1
    case Greater => if cmp < 0 then 0 else -1
  }

  /** The index keys, each once. */
  predicate Sorted(keys: seq<int>) {
    forall i, j :: 0 <= i < j < |keys| ==> keys[i] < keys[j]
  }

  /** The keys from position i on that satisfy the operator. */
  function Filter(keys: seq<int>, i: nat, op: Op, query: int): seq<int>
    requires i <= |keys|
    decreases |keys| - i
  {
    if i == |keys| then []
    else if Satisfies(op, query, keys[i]) then [keys[i]] + Filter(keys, i + 1, op, query)
    else Filter(keys, i + 1, op, query)
  }

  /** The partial-match scan from position i, following the verdicts. */
  function Scan(keys: seq<int>, i: nat, op: Op, query: int): seq<int>
    requires i <= |keys|
    decreases |keys| - i
  {
    if i == |keys| || Verdict(op, query, keys[i]) > 0 then []
    else if Verdict(op, query, keys[i]) < 0 then Scan(keys, i + 1, op, query)
    else [keys[i]] + Scan(keys, i + 1, op, query)
  }

  /** The first position at or after i whose key is not below the entry. */
  function Seek(keys: seq<int>, i: nat, entry: int): (r: nat)
    requires i <= |keys|
    ensures i <= r <= |keys|
    ensures r < |keys| ==> keys[r] >= entry
    ensures forall j :: i <= j < r ==> keys[j] < entry
    decreases |keys| - i
  {
    if i == |keys| || keys[i] >= entry then i else Seek(keys, i + 1, entry)
  }

  /** What a partial-match search that starts at the entry returns. */
  function RangeScan(keys: seq<int>, op: Op, query: int, entry: int): seq<int> {
    Scan(keys, Seek(keys, 0, entry), op, query)
  }

  // ----- When the scan is the filter

  lemma {:induction false} FilterHas(keys: seq<int>, i: nat, op: Op, query: int, k: int)
    requires i <= |keys|
    ensures k in Filter(keys, i, op, query) <==> Satisfies(op, query, k) && exists j :: i <= j < |keys| && keys[j] == k
    decreases |keys| - i
  {
    if i < |keys| {
      FilterHas(keys, i + 1, op, query, k);
    }
  }

  lemma {:induction false} FilterNone(keys: seq<int>, i: nat, op: Op, query: int)
    requires i <= |keys| && forall j :: i <= j < |keys| ==> !Satisfies(op, query, keys[j])
    ensures Filter(keys, i, op, query) == []
    decreases |keys| - i
  {
    if i < |keys| {
      FilterNone(keys, i + 1, op, query);
    }
  }

  lemma {:induction false} FilterSkips(keys: seq<int>, i: nat, j: nat, op: Op, query: int)
    requires i <= j <= |keys| && forall m :: i <= m < j ==> !Satisfies(op, query, keys[m])
    ensures Filter(keys, i, op, query) == Filter(keys, j, op, query)
    decreases j - i
  {
    if i < j {
      FilterSkips(keys, i + 1, j, op, query);
    }
  }

  /** From where it starts, the scan returns the matches; an equality scan only if the match,
      if there is one, is the first key. */
  lemma {:induction false} ScanIsFilter(keys: seq<int>, i: nat, op: Op, query: int)
    requires Sorted(keys) && i <= |keys|
    requires op.Equal? ==> forall j :: i < j < |keys| ==> keys[j] != query
    ensures Scan(keys, i, op, query) == Filter(keys, i, op, query)
    decreases |keys| - i
  {
    if i < |keys| {
      if Verdict(op, query, keys[i]) > 0 {
        forall j | i <= j < |keys| ensures !Satisfies(op, query, keys[j]) {
        }
        FilterNone(keys, i, op, query);
      } else {
        ScanIsFilter(keys, i + 1, op, query);
      }
    }
  }

  lemma {:induction false} ScanFrom(keys: seq<int>, i: nat, op: Op, query: int, k: int)
    requires i <= |keys| && k in Scan(keys, i, op, query)
    ensures exists j :: i <= j < |keys| && keys[j] == k
    decreases |keys| - i
  {
    if k != keys[i] {
      ScanFrom(keys, i + 1, op, query, k);
    }
  }

  /** The entry leads to every match: none lies below it, and an equality match has no key
      between the entry and itself. */
  predicate EntryLeads(keys: seq<int>, op: Op, query: int, entry: int) {
    && (forall i :: 0 <= i < |keys| && Satisfies(op, query, keys[i]) ==> entry <= keys[i])
    && (op.Equal? && query in keys ==> forall i :: 0 <= i < |keys| ==> !(entry <= keys[i] < query))
  }

  /** The search equals the filter exactly when the entry leads to every match. */
  lemma RangeScanIff(keys: seq<int>, op: Op, query: int, entry: int)
    requires Sorted(keys)
    ensures RangeScan(keys, op, query, entry) == Filter(keys, 0, op, query) <==> EntryLeads(keys, op, query, entry)
  {
    var start := Seek(keys, 0, entry);
    if EntryLeads(keys, op, query, entry) {
      FilterSkips(keys, 0, start, op, query);
      if op.Equal? {
        forall j | start < j < |keys| ensures keys[j] != query {
          assert entry <= keys[start] < keys[j];
        }
      }
      ScanIsFilter(keys, start, op, query);
    }
    if RangeScan(keys, op, query, entry) == Filter(keys, 0, op, query) {
      forall i | 0 <= i < |keys| && Satisfies(op, query, keys[i]) ensures entry <= keys[i] {
        MatchIsFound(keys, op, query, entry, i);
      }
      if op.Equal? && query in keys {
        NothingBetween(keys, query, entry);
      }
    }
  }

  lemma MatchIsFound(keys: seq<int>, op: Op, query: int, entry: int, i: nat)
    requires Sorted(keys) && i < |keys| && Satisfies(op, query, keys[i])
    requires RangeScan(keys, op, query, entry) == Filter(keys, 0, op, query)
    ensures entry <= keys[i]
  {
    var start := Seek(keys, 0, entry);
    FilterHas(keys, 0, op, query, keys[i]);
    ScanFrom(keys, start, op, query, keys[i]);
    var j :| start <= j < |keys| && keys[j] == keys[i];
    if j != i {
      assert false;
    }
  }

  lemma NothingBetween(keys: seq<int>, query: int, entry: int)
    requires Sorted(keys) && query in keys
    requires RangeScan(keys, Equal, query, entry) == Filter(keys, 0, Equal, query)
    ensures forall i :: 0 <= i < |keys| ==> !(entry <= keys[i] < query)
  {
    var start := Seek(keys, 0, entry);
    var q :| 0 <= q < |keys| && keys[q] == query;
    FilterHas(keys, 0, Equal, query, query);
    assert query in Scan(keys, start, Equal, query);
    assert keys[start] == query;
  }

  // ----- Integer types

  datatype IntType = Int2 | Int4 | Int8

  function Least(t: IntType): int {
    match t
    case Int2 => -0x8000
    case Int4 => -0x8000_0000
    case Int8 => -0x8000_0000_0000_0000
  }

  predicate InType(x: int, t: IntType) { Least(t) <= x <= -Least(t) - 1 }

  /** The cvt_ functions: clamp to the indexed type. */
  function Clamp(x: int, t: IntType): (r: int)
    ensures InType(r, t)
  {
    if x < Least(t) then Least(t) else if x > -Least(t) - 1 then -Least(t) - 1 else x
  }

  /** The right-hand types an operator family numbers 0, 1, 2. */
  function RhsTypes(t: IntType): seq<IntType> {
    match t
    case Int2 => [Int2, Int4, Int8]
    case Int4 => [Int4, Int2, Int8]
    case Int8 => [Int8, Int2, Int4]
  }

  function OpOf(btreeStrategy: nat): Op
    requires 1 <= btreeStrategy <= 5
  {
    if btreeStrategy == 1 then Less else if btreeStrategy == 2 then LessEqual
    else if btreeStrategy == 3 then Equal else if btreeStrategy == 4 then GreaterEqual else Greater
  }

  /** What gin_btree_extract_query hands to the scan, or its error. */
  datatype Query = Unrecognized | Query(op: Op, orig: int, entry: int, partial: bool)

  /** gin_btree_extract_query for an index on type t */
  method ExtractQuery(t: IntType, strategy: nat, datum: int) returns (r: Query)
    requires strategy / 16 < 3 && InType(datum, RhsTypes(t)[strategy / 16])
    ensures r.Unrecognized? <==> !(1 <= strategy % 16 <= 5)
    ensures r.Query? ==>
              && r.op == OpOf(strategy % 16) && r.orig == datum && InType(r.entry, t)
              && (r.partial || (r.op == Equal && r.entry == datum))
              && forall keys :: Sorted(keys) && AllIn(keys, t) ==> EntryLeads(keys, r.op, datum, r.entry)
  {
    var btreeStrategy, rhsCode := strategy % 16, strategy / 16;
    if btreeStrategy < 1 || btreeStrategy > 5 {
      return Unrecognized;
    }
    var entry, partial := datum, false;
    if btreeStrategy <= 2 {
      entry, partial := Least(t), true;
    } else {
      if btreeStrategy >= 4 {
        partial := true;
      }
      if rhsCode > 0 {
        entry, partial := Clamp(datum, t), true;
      }
    }
    r := Query(OpOf(btreeStrategy), datum, entry, partial);
    forall keys | Sorted(keys) && AllIn(keys, t) ensures EntryLeads(keys, r.op, datum, entry) {
      if btreeStrategy > 2 {
        ClampLeads(keys, r.op, datum, t);
      }
    }
  }

  predicate AllIn(keys: seq<int>, t: IntType) {
    forall i :: 0 <= i < |keys| ==> InType(keys[i], t)
  }

  lemma ClampLeads(keys: seq<int>, op: Op, query: int, t: IntType)
    requires AllIn(keys, t) && (op.Equal? || op.GreaterEqual? || op.Greater?)
    ensures EntryLeads(keys, op, query, Clamp(query, t))
  {
    if op.Equal? && query in keys {
      var i :| 0 <= i < |keys| && keys[i] == query;
      assert InType(keys[i], t);
    }
  }

  // ----- The scan

  /** collectMatchBitmap over the entries of one column. */
  method CollectMatches(keys: seq<int>, q: Query) returns (r: seq<int>)
    requires q.Query? && q.partial
    ensures r == RangeScan(keys, q.op, q.orig, q.entry)
  {
    var i: nat := 0;
    while i < |keys| && keys[i] < q.entry
      invariant i <= |keys| && Seek(keys, 0, q.entry) == Seek(keys, i, q.entry)
    {
      i := i + 1;
    }
    r := [];
    ghost var start := i;
    while i < |keys|
      invariant start <= i <= |keys|
      invariant Scan(keys, start, q.op, q.orig) == r + Scan(keys, i, q.op, q.orig)
    {
      var cmp := Verdict(q.op, q.orig, keys[i]);
      if cmp > 0 {
        return;
      }
      if cmp == 0 {
        r := r + [keys[i]];
      }
      i := i + 1;
    }
  }

  lemma {:induction false} FilterEqual(keys: seq<int>, i: nat, query: int)
    requires Sorted(keys) && i <= |keys|
    ensures Filter(keys, i, Equal, query) == if exists j :: i <= j < |keys| && keys[j] == query then [query] else []
    decreases |keys| - i
  {
    if i < |keys| {
      FilterEqual(keys, i + 1, query);
    }
  }

  /** A cross-type search is the filter: for every key set of the indexed type, every operator
      and every query value of any of the three types. */
  method Search(t: IntType, keys: seq<int>, strategy: nat, datum: int) returns (ok: bool, r: seq<int>)
    requires Sorted(keys) && AllIn(keys, t)
    requires strategy / 16 < 3 && InType(datum, RhsTypes(t)[strategy / 16])
    ensures ok <==> 1 <= strategy % 16 <= 5
    ensures ok ==> r == Filter(keys, 0, OpOf(strategy % 16), datum)
  {
    var q := ExtractQuery(t, strategy, datum);
    if q.Unrecognized? {
      return false, [];
    }
    ok := true;
    if q.partial {
      RangeScanIff(keys, q.op, q.orig, q.entry);
      r := CollectMatches(keys, q);
    } else {
      FilterEqual(keys, 0, datum);
      r := if q.entry in keys then [q.entry] else [];
    }
  }
}
