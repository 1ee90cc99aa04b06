/**
  SplitBatch of both backends (internal/store/trino.go, clickhouse.go): clamp
  each row where the backend clamps, then chunk. Resuming a flush on chunk
  boundaries rests on how a split behaves when its own output is split again.
*/
module Splitting {
  import opened ByteStrings
  import opened Sums
  import opened Rows
  import opened Chunking
  import opened Clamping

  const MIN_STATEMENT_BUDGET := 4096
  const EXECUTE_IMMEDIATE_OVERHEAD := 27

  datatype Backend =
    | Trino(maxStmtBytes: int, insertPrefix: Bytes)
    | ClickHouse(maxBatchBytes: int)

  function StmtOverhead(insertPrefix: Bytes): int {
    EXECUTE_IMMEDIATE_OVERHEAD + |insertPrefix| + QuoteCount(insertPrefix)
  }

  function Budget(b: Backend): int {
    match b
    case Trino(maxStmtBytes, prefix) => Max(maxStmtBytes - StmtOverhead(prefix), MIN_STATEMENT_BUDGET)
    case ClickHouse(maxBatchBytes) => maxBatchBytes
  }

  function Estimate(b: Backend): Row -> int {
    if b.Trino? then RowBytes else ArgsBytes
  }

  function Prepare(b: Backend, r: Row): Row {
    if b.Trino? then Clamp(r, Budget(b)) else r
  }

  function Prepared(b: Backend, rows: seq<Row>): seq<Row> {
    seq(|rows|, i requires 0 <= i < |rows| => Prepare(b, rows[i]))
  }

  function Split(b: Backend, rows: seq<Row>): seq<seq<Row>> {
    ChunksOf(Prepared(b, rows), Budget(b), Estimate(b))
  }

  lemma SplitOf(b: Backend, rows: seq<Row>, prepared: seq<Row>)
    requires |prepared| == |rows| && forall i | 0 <= i < |rows| :: prepared[i] == Prepare(b, rows[i])
    ensures Split(b, rows) == ChunksOf(prepared, Budget(b), Estimate(b))
    ensures rows == [] ==> Split(b, rows) == []
  {
    hide Prepare;
    hide Budget;
    hide Estimate;
    assert Prepared(b, rows) == prepared;
  }

  method SplitBatch(b: Backend, rows: seq<Row>) returns (chunks: seq<seq<Row>>)
    ensures chunks == Split(b, rows)
  {
    hide Split;
    hide Clamp;
    hide ChunksOf;
    hide RowBytes;
    hide ArgsBytes;
    hide StmtOverhead;
    if b.ClickHouse? {
      chunks := ChunkRows(rows, b.maxBatchBytes, ArgsBytes);
      SplitOf(b, rows, rows);
      return;
    }
    if |rows| == 0 {
      SplitOf(b, rows, rows);
      return [];
    }
    var budget := Max(b.maxStmtBytes - StmtOverhead(b.insertPrefix), MIN_STATEMENT_BUDGET);
    var clamped := new Row[|rows|];
    for i := 0 to |rows|
      invariant forall j | 0 <= j < i :: clamped[j] == Clamp(rows[j], budget)
    {
      clamped[i] := ClampRow(rows[i], budget);
    }
    SplitOf(b, rows, clamped[..]);
    chunks := ChunkRows(clamped[..], budget, RowBytes);
  }

  /** The rows a backend can be trusted to clamp; ClickHouse clamps nothing. */
  predicate Splittable(b: Backend, rows: seq<Row>) {
    b.Trino? ==> forall i | 0 <= i < |rows| :: Addressable(rows[i])
  }

  /** A split keeps the prepared rows in order and has no empty chunk. */
  lemma SplitKeepsRows(b: Backend, rows: seq<Row>)
    ensures Flatten(Split(b, rows)) == Prepared(b, rows)
    ensures |Flatten(Split(b, rows))| == |rows|
    ensures forall c | c in Split(b, rows) :: c != []
    ensures Split(b, rows) == [] <==> rows == []
  {
    ChunksGreedy(Prepared(b, rows), Budget(b), Estimate(b));
    var cs := Split(b, rows);
    forall c | c in cs ensures c != [] {
      var i :| 0 <= i < |cs| && cs[i] == c;
      assert Packed(cs[i], Budget(b), Estimate(b));
    }
  }

  /** What a split's chunks are, for a budget and an estimate: full as can be, and over the budget only when single. */
  predicate Filled(cs: seq<seq<Row>>, budget: int, estimate: Row -> int) {
    && (forall i | 0 <= i < |cs| :: cs[i] != [] && (|cs[i]| == 1 || Sum(cs[i], estimate) <= budget))
    && (forall i | 0 < i < |cs| :: cs[i] != [] && Sum(cs[i - 1], estimate) + estimate(cs[i][0]) > budget)
  }

  lemma GreedyFilled(cs: seq<seq<Row>>, budget: int, estimate: Row -> int)
    requires Greedy(cs, budget, estimate)
    ensures Filled(cs, budget, estimate)
  {
    forall i | 0 <= i < |cs| ensures cs[i] != [] && (|cs[i]| == 1 || Sum(cs[i], estimate) <= budget) {
      assert Packed(cs[i], budget, estimate);
      PackedFits(cs[i], budget, estimate);
    }
  }

  /**
    Trino, in the configuration's own terms: the rows clamped to what the
    statement leaves beside its text, though at least to 4096 bytes, in chunks of
    that size; a row that fits is not touched.
  */
  lemma TrinoSplit(b: Backend, rows: seq<Row>)
    requires b.Trino?
    ensures var room := Max(b.maxStmtBytes - (27 + |b.insertPrefix| + QuoteCount(b.insertPrefix)), 4096);
            && Filled(Split(b, rows), room, RowBytes)
            && |Flatten(Split(b, rows))| == |rows|
            && (forall i | 0 <= i < |rows| :: Flatten(Split(b, rows))[i] == Clamp(rows[i], room))
            && (forall i | 0 <= i < |rows| && RowBytes(rows[i]) <= room :: Flatten(Split(b, rows))[i] == rows[i])
  {
    var room := Max(b.maxStmtBytes - (27 + |b.insertPrefix| + QuoteCount(b.insertPrefix)), 4096);
    assert Budget(b) == room;
    SplitFilled(b, rows);
    SplitKeepsRows(b, rows);
    hide Filled;
    hide Split;
    hide Flatten;
    hide Budget;
    hide Clamp;
    hide RowBytes;
    hide ArgsBytes;
    forall i | 0 <= i < |rows|
      ensures Prepared(b, rows)[i] == Clamp(rows[i], room)
      ensures RowBytes(rows[i]) <= room ==> Clamp(rows[i], room) == rows[i]
    {
      ClampFits(rows[i], room);
    }
  }

  lemma ClampFits(r: Row, budget: int)
    ensures RowBytes(r) <= budget ==> Clamp(r, budget) == r
  {}

  lemma SplitFilled(b: Backend, rows: seq<Row>)
    ensures Filled(Split(b, rows), Budget(b), Estimate(b))
  {
    ChunksGreedy(Prepared(b, rows), Budget(b), Estimate(b));
    hide Filled;
    hide Greedy;
    GreedyFilled(Split(b, rows), Budget(b), Estimate(b));
  }

  /** ClickHouse: the rows as they are, in chunks of MaxBatchBytes. */
  lemma ClickHouseSplit(b: Backend, rows: seq<Row>)
    requires b.ClickHouse?
    ensures Filled(Split(b, rows), b.maxBatchBytes, ArgsBytes)
    ensures Flatten(Split(b, rows)) == rows
  {
    SplitFilled(b, rows);
    SplitKeepsRows(b, rows);
    assert Prepared(b, rows) == rows;
  }

  lemma {:induction false} SumEstimatesNonNegative(args: seq<Arg>)
    ensures Sum(args, EstimateArg) >= 0
  {
    if args != [] {
      SumEstimatesNonNegative(args[1..]);
    }
  }

  /** For either backend's estimate, no split of the prepared rows that obeys the budget has fewer chunks. */
  lemma SplitOptimal(b: Backend, rows: seq<Row>, other: seq<seq<Row>>)
    requires Feasible(other, Budget(b), Estimate(b)) && Flatten(other) == Prepared(b, rows)
    ensures Feasible(Split(b, rows), Budget(b), Estimate(b))
    ensures |Split(b, rows)| <= |other|
  {
    var prepared := Prepared(b, rows);
    forall i | 0 <= i < |prepared| ensures 0 <= Estimate(b)(prepared[i]) {
      hide Prepared;
      SumEstimatesNonNegative(Args(prepared[i]));
    }
    ChunksOptimal(prepared, Budget(b), Estimate(b), other);
  }

  /** Splitting the original rows from a chunk boundary on gives the remaining chunks. */
  lemma SplitSuffix(b: Backend, rows: seq<Row>, k: nat)
    requires k <= |Split(b, rows)|
    ensures |Flatten(Split(b, rows)[..k])| <= |rows|
    ensures Split(b, rows[|Flatten(Split(b, rows)[..k])|..]) == Split(b, rows)[k..]
  {
    var cs := Split(b, rows);
    var done := |Flatten(cs[..k])|;
    SplitKeepsRows(b, rows);
    FlattenSplit(cs, k);
    assert Prepared(b, rows[done..]) == Prepared(b, rows)[done..];
    assert Flatten(cs[k..]) == Prepared(b, rows)[done..];
    ChunksStable(Prepared(b, rows), Budget(b), Estimate(b), k, |cs|);
    SliceToEnd(cs, k);
  }

  lemma PrepareStable(b: Backend, r: Row)
    requires b.Trino? ==> Addressable(r)
    ensures Prepare(b, Prepare(b, r)) == Prepare(b, r)
  {
    if b.Trino? {
      ClampStable(r, Budget(b));
    }
  }

  /** Prepared rows are left alone by a second preparation. */
  lemma PreparedStable(b: Backend, rows: seq<Row>, run: seq<Row>, at: nat)
    requires Splittable(b, rows) && at + |run| <= |rows|
    requires run == Prepared(b, rows)[at..at + |run|]
    ensures Prepared(b, run) == run
  {
    hide Prepare;
    forall j | 0 <= j < |run| ensures Prepared(b, run)[j] == run[j] {
      assert run[j] == Prepared(b, rows)[at + j];
      PrepareStable(b, rows[at + j]);
    }
  }

  /** Splitting the rows of any run of chunks gives that run; in particular a chunk is its own only chunk. */
  lemma SplitStable(b: Backend, rows: seq<Row>, lo: nat, hi: nat)
    requires Splittable(b, rows) && lo <= hi <= |Split(b, rows)|
    ensures Split(b, Flatten(Split(b, rows)[lo..hi])) == Split(b, rows)[lo..hi]
  {
    var cs := Split(b, rows);
    var run := Flatten(cs[lo..hi]);
    ChunksStable(Prepared(b, rows), Budget(b), Estimate(b), lo, hi);
    SplitKeepsRows(b, rows);
    FlattenSplit(cs, hi);
    FlattenSplit(cs[..hi], lo);
    assert cs[..hi][..lo] == cs[..lo] && cs[..hi][lo..] == cs[lo..hi];
    PreparedStable(b, rows, run, |Flatten(cs[..lo])|);
  }

  lemma SplitChunkAlone(b: Backend, rows: seq<Row>, i: nat)
    requires Splittable(b, rows) && i < |Split(b, rows)|
    ensures Split(b, Split(b, rows)[i]) == [Split(b, rows)[i]]
  {
    SplitStable(b, rows, i, i + 1);
    assert Split(b, rows)[i..i + 1] == [Split(b, rows)[i]];
    assert Flatten([Split(b, rows)[i]]) == Split(b, rows)[i];
  }

  /** Every Trino chunk fits the budget: clamping leaves no oversize single row. */
  lemma TrinoChunksFit(b: Backend, rows: seq<Row>, i: nat)
    requires b.Trino? && Splittable(b, rows) && i < |Split(b, rows)|
    ensures Sum(Split(b, rows)[i], RowBytes) <= Budget(b)
  {
    var cs := Split(b, rows);
    ChunksGreedy(Prepared(b, rows), Budget(b), Estimate(b));
    PackedFits(cs[i], Budget(b), Estimate(b));
    if |cs[i]| == 1 {
      SplitKeepsRows(b, rows);
      FlattenSplit(cs, i);
      assert Flatten(cs[i..]) == cs[i] + Flatten(cs[i + 1..]);
      var at := |Flatten(cs[..i])|;
      assert Prepared(b, rows)[at] == cs[i][0];
      ClampMeetsGoal(rows[at], Budget(b));
      SumSnoc([], cs[i][0], RowBytes);
      assert [] + [cs[i][0]] == cs[i];
    }
  }
}
