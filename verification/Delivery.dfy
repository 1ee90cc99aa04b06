/**
  What a log of insert statements means: which chunk each statement carries,
  and which rows a server has stored after it. The rows of every backend pass
  through here; acknowledgements may be lost.
*/
module Delivery {
  import opened ByteStrings
  import opened Rows
  import opened Chunking
  import opened Splitting
  import opened Dedup
  import opened Tokens

  /**
    The fate of one insert: acknowledged, or an error seen by the client, in
    which case the server may still have applied it. `reported` is what a
    writer other than the two backends claims to have committed.
  */
  datatype Outcome = Acked | Failed(applied: bool, nonRetryable: bool, reported: int)

  datatype Entry = Entry(rows: seq<Row>, outcome: Outcome)

  function Acks(log: seq<Entry>): (n: nat)
    ensures n <= |log|
  {
    if log == [] then 0
    else Acks(log[..|log| - 1]) + (if log[|log| - 1].outcome.Acked? then 1 else 0)
  }

  /**
    Every statement carries the first chunk not yet acknowledged: chunks go out
    in order, each again after each failure, none after its acknowledgement.
  */
  predicate Resumes(chunks: seq<seq<Row>>, log: seq<Entry>) {
    log == [] ||
    var before := log[..|log| - 1];
    Resumes(chunks, before) && Acks(before) < |chunks| && log[|log| - 1].rows == chunks[Acks(before)]
  }

  /** Resumes says so of every statement of the log, and acknowledgements never outrun the chunks. */
  lemma {:induction false} ResumesAt(chunks: seq<seq<Row>>, log: seq<Entry>, i: nat)
    requires Resumes(chunks, log) && i < |log|
    ensures Acks(log[..i]) < |chunks| && log[i].rows == chunks[Acks(log[..i])]
    ensures Acks(log) <= |chunks|
  {
    var n := |log| - 1;
    if i < n {
      ResumesAt(chunks, log[..n], i);
      assert log[..n][..i] == log[..i];
    }
  }

  lemma {:induction false} AcksConcat(a: seq<Entry>, b: seq<Entry>)
    ensures Acks(a + b) == Acks(a) + Acks(b)
  {
    if b == [] {
      assert a + b == a;
    } else {
      assert (a + b)[..|a + b| - 1] == a + b[..|b| - 1];
      AcksConcat(a, b[..|b| - 1]);
    }
  }

  lemma AcksSnoc(log: seq<Entry>, e: Entry)
    ensures Acks(log + [e]) == Acks(log) + (if e.outcome.Acked? then 1 else 0)
  {
    assert (log + [e])[..|log|] == log;
  }

  lemma ResumesSnoc(chunks: seq<seq<Row>>, log: seq<Entry>, e: Entry)
    requires Resumes(chunks, log)
    requires Acks(log) < |chunks| && e.rows == chunks[Acks(log)]
    ensures Resumes(chunks, log + [e])
  {
    assert (log + [e])[..|log|] == log;
  }

  /** An attempt on what is left continues the log of the attempts before it. */
  lemma {:induction false} ResumesConcat(chunks: seq<seq<Row>>, a: seq<Entry>, b: seq<Entry>)
    requires Resumes(chunks, a) && Acks(a) <= |chunks| && Resumes(chunks[Acks(a)..], b)
    ensures Resumes(chunks, a + b) && Acks(a + b) == Acks(a) + Acks(b)
  {
    if b == [] {
      assert a + b == a;
    } else {
      var n := |b| - 1;
      assert b == b[..n] + [b[n]];
      AcksSnoc(b[..n], b[n]);
      ResumesConcat(chunks, a, b[..n]);
      assert a + b == a + b[..n] + [b[n]];
      AcksSnoc(a + b[..n], b[n]);
      ResumesSnoc(chunks, a + b[..n], b[n]);
    }
  }

  // ---------------------------------------------------------------- ClickHouse

  /** The table and the deduplication window; no token leaves the window during a flush. */
  datatype Server = Server(rows: seq<Row>, window: set<Bytes>)

  function Insert(s: Server, rows: seq<Row>): Server {
    if Token(rows) in s.window then s else Server(s.rows + rows, s.window + {Token(rows)})
  }

  predicate Applied(e: Entry) {
    e.outcome.Acked? || e.outcome.applied
  }

  function Serve(s: Server, log: seq<Entry>): Server {
    if log == [] then s
    else
      var before := Serve(s, log[..|log| - 1]);
      var e := log[|log| - 1];
      if Applied(e) then Insert(before, e.rows) else before
  }

  /** The chunk awaiting acknowledgement was applied, though the client has only seen errors. */
  predicate InDoubt(log: seq<Entry>) {
    log != [] && log[|log| - 1].outcome.Failed? && (log[|log| - 1].outcome.applied || InDoubt(log[..|log| - 1]))
  }

  lemma ServeConcat(s: Server, a: seq<Entry>, b: seq<Entry>)
    ensures Serve(s, a + b) == Serve(Serve(s, a), b)
    decreases |b|
  {
    if b == [] {
      assert a + b == a;
    } else {
      assert (a + b)[..|a + b| - 1] == a + b[..|b| - 1];
      hide Insert;
      ServeConcat(s, a, b[..|b| - 1]);
    }
  }

  function ChunkTokens(chunks: seq<seq<Row>>): set<Bytes> {
    set c | c in chunks :: Token(c)
  }

  predicate DistinctTokens(chunks: seq<seq<Row>>) {
    forall i, j | 0 <= i < j < |chunks| :: Token(chunks[i]) != Token(chunks[j])
  }

  /** How many chunks the server holds: the acknowledged ones and the one in doubt. */
  function Held(log: seq<Entry>): nat {
    Acks(log) + if InDoubt(log) then 1 else 0
  }

  lemma ChunkTokensSnoc(chunks: seq<seq<Row>>, k: nat)
    requires k < |chunks|
    ensures ChunkTokens(chunks[..k + 1]) == ChunkTokens(chunks[..k]) + {Token(chunks[k])}
    ensures DistinctTokens(chunks) ==> Token(chunks[k]) !in ChunkTokens(chunks[..k])
  {
    assert chunks[..k + 1] == chunks[..k] + [chunks[k]];
    if Token(chunks[k]) in ChunkTokens(chunks[..k]) {
      var c :| c in chunks[..k] && Token(c) == Token(chunks[k]);
      var i :| 0 <= i < k && chunks[i] == c;
    }
  }

  /** A server that has taken the first k chunks. */
  function Holding(s: Server, chunks: seq<seq<Row>>, k: nat): Server
    requires k <= |chunks|
  {
    Server(s.rows + Flatten(chunks[..k]), s.window + ChunkTokens(chunks[..k]))
  }

  /** The next chunk is stored when it first arrives, and only then. */
  lemma InsertNext(s: Server, chunks: seq<seq<Row>>, k: nat)
    requires k < |chunks| && DistinctTokens(chunks) && s.window !! ChunkTokens(chunks)
    ensures Insert(Holding(s, chunks, k), chunks[k]) == Holding(s, chunks, k + 1)
    ensures Insert(Holding(s, chunks, k + 1), chunks[k]) == Holding(s, chunks, k + 1)
  {
    hide Token;
    ChunkTokensSnoc(chunks, k);
    assert chunks[k] in chunks;
    FlattenNext(chunks, k);
  }

  /** One more statement: what it carries, and what is held after it. */
  lemma HeldStep(chunks: seq<seq<Row>>, log: seq<Entry>)
    requires Resumes(chunks, log) && log != []
    ensures var before, e := log[..|log| - 1], log[|log| - 1];
            && Resumes(chunks, before)
            && Acks(before) < |chunks| && e.rows == chunks[Acks(before)]
            && Held(log) == if Applied(e) then Acks(before) + 1 else Held(before)
  {}

  /** Its effect on the server. */
  function ServeOne(s: Server, e: Entry): Server {
    if Applied(e) then Insert(s, e.rows) else s
  }

  lemma ServeStep(s: Server, log: seq<Entry>)
    requires log != []
    ensures Serve(s, log) == ServeOne(Serve(s, log[..|log| - 1]), log[|log| - 1])
  {
    hide Insert;
    hide Applied;
  }

  lemma HoldingStep(s: Server, chunks: seq<seq<Row>>, k: nat, held: nat, e: Entry)
    requires k < |chunks| && k <= held <= k + 1 && e.rows == chunks[k]
    requires DistinctTokens(chunks) && s.window !! ChunkTokens(chunks)
    ensures ServeOne(Holding(s, chunks, held), e) == Holding(s, chunks, if Applied(e) then k + 1 else held)
  {
    InsertNext(s, chunks, k);
    hide Holding;
    hide Insert;
    hide Applied;
    hide DistinctTokens;
    hide ChunkTokens;
  }

  lemma {:induction false} ServeHolds(s: Server, chunks: seq<seq<Row>>, log: seq<Entry>)
    requires Resumes(chunks, log) && DistinctTokens(chunks) && s.window !! ChunkTokens(chunks)
    ensures Held(log) <= |chunks|
    ensures Serve(s, log) == Holding(s, chunks, Held(log))
  {
    if log == [] {
      assert s.rows + [] == s.rows && s.window + {} == s.window;
    } else {
      hide Holding;
      hide ServeOne;
      hide Applied;
      hide DistinctTokens;
      hide ChunkTokens;
      hide Resumes;
      hide Acks;
      hide Held;
      hide Serve;
      var before, e := log[..|log| - 1], log[|log| - 1];
      HeldStep(chunks, log);
      ServeStep(s, log);
      ServeHolds(s, chunks, before);
      HeldRange(before);
      HoldingStep(s, chunks, Acks(before), Held(before), e);
    }
  }

  lemma HeldRange(log: seq<Entry>)
    ensures Acks(log) <= Held(log) <= Acks(log) + 1
  {}

  /** Non-empty chunks whose rows have distinct ids have pairwise distinct tokens. */
  lemma DistinctIdsDistinctTokens(cs: seq<seq<Row>>)
    requires Distinct(Flatten(cs)) && forall c | c in cs :: c != []
    ensures DistinctTokens(cs)
  {
    hide Token;
    forall i, j | 0 <= i < j < |cs| ensures Token(cs[i]) != Token(cs[j]) {
      if Token(cs[i]) == Token(cs[j]) {
        assert cs[i] in cs;
        var r, s := TokenSharesId(cs[i], cs[j]);
        var x :| 0 <= x < |cs[i]| && cs[i][x] == r;
        var y :| 0 <= y < |cs[j]| && cs[j][y] == s;
        FlattenAt(cs, i, x);
        FlattenAt(cs, j, y);
        FlattenOffsets(cs, i, j);
      }
    }
  }

  /** The chunks of a batch with distinct ids have pairwise distinct tokens. */
  lemma ChunksHaveDistinctTokens(b: Backend, rows: seq<Row>)
    requires b.ClickHouse? && Distinct(rows)
    ensures DistinctTokens(Split(b, rows))
  {
    SplitKeepsRows(b, rows);
    ClickHouseSplitKeeps(b, rows);
    hide Split;
    DistinctIdsDistinctTokens(Split(b, rows));
  }

  lemma FlattenAt<T>(cs: seq<seq<T>>, i: nat, x: nat)
    requires i < |cs| && x < |cs[i]|
    ensures |Flatten(cs[..i])| + x < |Flatten(cs)|
    ensures Flatten(cs)[|Flatten(cs[..i])| + x] == cs[i][x]
  {
    FlattenSplit(cs, i);
    assert Flatten(cs[i..]) == cs[i] + Flatten(cs[i..][1..]);
  }

  lemma FlattenOffsets<T>(cs: seq<seq<T>>, i: nat, j: nat)
    requires i < j <= |cs|
    ensures |Flatten(cs[..i])| + |cs[i]| <= |Flatten(cs[..j])|
  {
    FlattenSplit(cs[..j], i);
    assert cs[..j][..i] == cs[..i];
    assert Flatten(cs[..j][i..]) == cs[i] + Flatten(cs[..j][i..][1..]);
  }

  lemma HeldRows(s: Server, cs: seq<seq<Row>>, log: seq<Entry>)
    requires Resumes(cs, log) && DistinctTokens(cs) && s.window !! ChunkTokens(cs)
    ensures Acks(log) <= Held(log) <= Acks(log) + 1 && Held(log) <= |cs|
    ensures Serve(s, log).rows == s.rows + Flatten(cs[..Held(log)])
    ensures Acks(log) == |cs| ==> Serve(s, log).rows == s.rows + Flatten(cs)
    ensures Serve(s, log).window == s.window + ChunkTokens(cs[..Held(log)])
  {
    hide Serve;
    hide Held;
    hide Resumes;
    hide Acks;
    hide Flatten;
    hide ChunkTokens;
    hide DistinctTokens;
    HeldRange(log);
    ServeHolds(s, cs, log);
    SliceToEnd(cs, 0);
  }

  /**
    ClickHouse with lost acknowledgements. When every chunk of a deduplicated
    batch has been acknowledged, the server holds each of its rows exactly once;
    before that it holds the acknowledged chunks and at most the next one.
  */
  lemma ExactlyOnce(b: Backend, batch: seq<Row>, log: seq<Entry>, s: Server)
    requires b.ClickHouse?
    requires Resumes(Split(b, Deduped(batch)), log)
    requires s.window !! ChunkTokens(Split(b, Deduped(batch)))
    ensures Acks(log) <= Held(log) <= Acks(log) + 1 && Held(log) <= |Split(b, Deduped(batch))|
    ensures Serve(s, log).rows == s.rows + Flatten(Split(b, Deduped(batch))[..Held(log)])
    ensures Acks(log) == |Split(b, Deduped(batch))| ==> Serve(s, log).rows == s.rows + Deduped(batch)
  {
    hide Split;
    hide Deduped;
    DedupedIds(batch);
    hide HasId;
    ChunksHaveDistinctTokens(b, Deduped(batch));
    ClickHouseSplitKeeps(b, Deduped(batch));
    HeldRows(s, Split(b, Deduped(batch)), log);
  }

  lemma ClickHouseSplitKeeps(b: Backend, rows: seq<Row>)
    requires b.ClickHouse?
    ensures Flatten(Split(b, rows)) == rows
  {
    SplitKeepsRows(b, rows);
    assert Prepared(b, rows) == rows;
  }

  // ---------------------------------------------------------------- Trino

  /** The rows a server without deduplication stores. */
  function Stored(log: seq<Entry>): seq<Row> {
    if log == [] then []
    else Stored(log[..|log| - 1]) + if Applied(log[|log| - 1]) then log[|log| - 1].rows else []
  }

  /** The rows of inserts that were applied while the client saw an error. */
  function Unacknowledged(log: seq<Entry>): seq<Row> {
    if log == [] then []
    else
      var e := log[|log| - 1];
      Unacknowledged(log[..|log| - 1]) + if e.outcome.Failed? && e.outcome.applied then e.rows else []
  }

  /** Trino stores every acknowledged chunk once, and once more for each lost acknowledgement. */
  lemma {:induction false} AtLeastOnce(chunks: seq<seq<Row>>, log: seq<Entry>)
    requires Resumes(chunks, log)
    ensures Acks(log) <= |chunks|
    ensures multiset(Stored(log)) == multiset(Flatten(chunks[..Acks(log)])) + multiset(Unacknowledged(log))
  {
    if log != [] {
      var before, e := log[..|log| - 1], log[|log| - 1];
      var k := Acks(before);
      assert Resumes(chunks, before) && k < |chunks| && e.rows == chunks[k];
      assert Acks(log) == k + if e.outcome.Acked? then 1 else 0;
      assert Stored(log) == Stored(before) + if Applied(e) then e.rows else [];
      assert Unacknowledged(log) ==
             Unacknowledged(before) + if e.outcome.Failed? && e.outcome.applied then e.rows else [];
      hide Resumes;
      hide Acks;
      hide Stored;
      hide Unacknowledged;
      AtLeastOnce(chunks, before);
      FlattenNext(chunks, k);
      hide Flatten;
      OneMore(Stored(before), Flatten(chunks[..k]), Unacknowledged(before), e.rows);
    }
  }

  lemma OneMore<T>(all: seq<T>, a: seq<T>, b: seq<T>, more: seq<T>)
    requires multiset(all) == multiset(a) + multiset(b)
    ensures multiset(all + more) == multiset(a + more) + multiset(b)
    ensures multiset(all + more) == multiset(a) + multiset(b + more)
    ensures multiset(all + []) == multiset(a) + multiset(b + [])
  {
    assert all + [] == all && b + [] == b;
  }
}
