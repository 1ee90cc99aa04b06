/**
  The writers' InsertBatch and the buffer's insert (internal/store/trino.go,
  clickhouse.go, internal/ingest/buffer.go): one attempt at a list of rows
  against an adversarial server.
*/
module Inserting {
  import opened Rows
  import opened Chunking
  import opened Splitting
  import opened Delivery

  /** What CommittedRows and errors.Is(err, ErrNonRetryable) see of an insert error. */
  datatype Failure = Failure(committed: int, nonRetryable: bool)

  /** A batchSplitter that keeps the row count; the empty answer stands for not splitting. */
  type Splitter = f: seq<Row> -> seq<seq<Row>> | forall rows :: f(rows) == [] || |Flatten(f(rows))| == |rows|
    ghost witness (rows: seq<Row>) => []

  /** One of the two stores, or any other writer at all. */
  datatype Writer = Store(b: Backend) | Other(split: Splitter)

  /** (*Buffer).split. */
  function Chunks(w: Writer, rows: seq<Row>): seq<seq<Row>> {
    var chunks := match w case Store(b) => Split(b, rows) case Other(f) => f(rows);
    if chunks == [] then [rows] else chunks
  }

  lemma ChunksKeepCount(w: Writer, rows: seq<Row>)
    ensures |Flatten(Chunks(w, rows))| == |rows|
  {
    if w.Store? {
      SplitKeepsRows(w.b, rows);
    }
    assert Flatten([rows]) == rows;
  }

  /** Every statement but a failing last one was acknowledged. */
  predicate Ends(sent: seq<Entry>, err: Option<Failure>) {
    match err
    case None => Acks(sent) == |sent|
    case Some(f) =>
      && |sent| == Acks(sent) + 1
      && sent[|sent| - 1].outcome.Failed?
      && f.nonRetryable == sent[|sent| - 1].outcome.nonRetryable
  }

  /** One pass over the chunks: acknowledged up to the failing one, and `committed` says how far. */
  predicate Pass(chunks: seq<seq<Row>>, sent: seq<Entry>, committed: int, err: Option<Failure>) {
    && Resumes(chunks, sent)
    && Acks(sent) <= |chunks|
    && committed == |Flatten(chunks[..Acks(sent)])|
    && Ends(sent, err)
    && (err.None? <==> Acks(sent) == |chunks|)
  }

  /** What InsertBatch's answer says about the statements it sent: its own chunks, or one call to another writer. */
  predicate Answered(w: Writer, rows: seq<Row>, sent: seq<Entry>, err: Option<Failure>) {
    && Ends(sent, err)
    && match w
       case Store(b) => Pass(Split(b, rows), sent, if err.Some? then err.value.committed else |rows|, err)
       case Other(_) =>
         |sent| == 1 && sent[0].rows == rows &&
         (err.Some? ==> sent[0].outcome.Failed? && err.value.committed == sent[0].outcome.reported)
  }

  /** What the failure that ended an attempt claims to have committed. */
  function Claimed(sent: seq<Entry>): int {
    if sent != [] && sent[|sent| - 1].outcome.Failed? then sent[|sent| - 1].outcome.reported else 0
  }

  predicate OnStore(w: Writer, all: seq<Row>) {
    w.Store? && Splittable(w.b, all)
  }

  /**
    What insert's answer says about them, and about the rows it was given. For a
    store it counts the acknowledged chunks, for another writer those and what the
    failure claims; a failed store always leaves rows over.
  */
  predicate Inserted(w: Writer, rows: seq<Row>, sent: seq<Entry>, committed: int, err: Option<Failure>) {
    && Ends(sent, err)
    && (err.None? ==> committed == |rows|)
    && (OnStore(w, rows) ==> Pass(Split(w.b, rows), sent, committed, err))
    && (w.Other? ==> Pass(Chunks(w, rows), sent, committed - Claimed(sent), err))
    && (w.Store? && err.Some? ==> committed < |rows|)
    && (sent == [] ==> w.Store? && rows == [])
  }

  /** A pass in which everything so far was acknowledged. */
  predicate Underway(chunks: seq<seq<Row>>, sent: seq<Entry>, committed: int) {
    && Resumes(chunks, sent)
    && Acks(sent) == |sent| <= |chunks|
    && committed == |Flatten(chunks[..|sent|])|
  }

  lemma PassStart(chunks: seq<seq<Row>>)
    ensures Underway(chunks, [], 0)
  {}

  lemma PassStep(chunks: seq<seq<Row>>, sent: seq<Entry>, committed: int, e: Entry)
    requires Underway(chunks, sent, committed) && |sent| < |chunks| && e.rows == chunks[|sent|]
    ensures e.outcome.Acked? ==> Underway(chunks, sent + [e], committed + |e.rows|)
    ensures e.outcome.Failed? ==> Pass(chunks, sent + [e], committed, Some(Failure(committed, e.outcome.nonRetryable)))
  {
    AcksSnoc(sent, e);
    ResumesSnoc(chunks, sent, e);
    FlattenNext(chunks, |sent|);
  }

  lemma PassEnd(chunks: seq<seq<Row>>, sent: seq<Entry>, committed: int)
    requires Underway(chunks, sent, committed) && |sent| == |chunks|
    ensures Pass(chunks, sent, |Flatten(chunks)|, None)
  {
    assert chunks[..|chunks|] == chunks;
  }

  lemma OneAnswer(e: Entry)
    ensures Acks([e]) == if e.outcome.Acked? then 1 else 0
  {
    assert [e][..0] == [];
  }

  /** Every answer from the n-th statement on is the server's own. */
  predicate FromServer(script: nat -> Outcome, log: seq<Entry>, n: nat) {
    forall i | n <= i < |log| :: log[i].outcome == script(i)
  }

  lemma FromServerOn(script: nat -> Outcome, before: seq<Entry>, log: seq<Entry>, n: nat)
    requires FromServer(script, before, n) && FromServer(script, log, |before|) && before <= log
    ensures FromServer(script, log, n)
  {}

  lemma Behind<T>(a: seq<T>, b: seq<T>)
    ensures (a + b)[|a|..] == b
  {}

  lemma Reassociated<T>(a: seq<T>, b: seq<T>, c: seq<T>)
    ensures a + b + c == a + (b + c)
  {}

  lemma FromServerNone(script: nat -> Outcome, log: seq<Entry>)
    ensures FromServer(script, log, |log|)
  {}

  class Connection {
    const writer: Writer
    const script: nat -> Outcome  // the fate of the n-th statement ever sent
    var log: seq<Entry>

    constructor (writer: Writer, script: nat -> Outcome)
      ensures this.writer == writer && this.script == script && log == []
    {
      this.writer := writer;
      this.script := script;
      log := [];
    }

    /** insertChunk: one statement, one answer. */
    method Send(rows: seq<Row>) returns (o: Outcome)
      modifies this
      ensures o == script(|old(log)|)
      ensures log == old(log) + [Entry(rows, o)]
      ensures FromServer(script, log, |old(log)|)
    {
      o := script(|log|);
      log := log + [Entry(rows, o)];
    }

    /** InsertBatch of either store, or a single call answered by another writer. */
    method InsertBatch(rows: seq<Row>) returns (err: Option<Failure>)
      modifies this
      ensures old(log) <= log
      ensures FromServer(script, log, |old(log)|)
      ensures Answered(writer, rows, log[|old(log)|..], err)
    {
      hide Split;
      hide Flatten;
      hide Resumes;
      hide Acks;
      hide FromServer;
      if writer.Other? {
        var o := Send(rows);
        assert log[|old(log)|..] == [Entry(rows, o)];
        OneAnswer(Entry(rows, o));
        return if o.Acked? then None else Some(Failure(o.reported, o.nonRetryable));
      }
      var chunks := SplitBatch(writer.b, rows);
      SplitKeepsRows(writer.b, rows);
      err := InsertChunks(chunks);
    }

    /** The loop both stores' InsertBatch share. */
    method InsertChunks(chunks: seq<seq<Row>>) returns (err: Option<Failure>)
      modifies this
      ensures old(log) <= log
      ensures FromServer(script, log, |old(log)|)
      ensures Pass(chunks, log[|old(log)|..], if err.Some? then err.value.committed else |Flatten(chunks)|, err)
    {
      var committed := 0;
      ghost var sent := [];
      FromServerNone(script, log);
      hide FromServer;
      hide Pass;
      PassStart(chunks);
      for i := 0 to |chunks|
        invariant log == old(log) + sent && |sent| == i
        invariant FromServer(script, log, |old(log)|)
        invariant Underway(chunks, sent, committed)
      {
        hide Underway;
        ghost var before := log;
        var o := Send(chunks[i]);
        FromServerOn(script, before, log, |old(log)|);
        PassStep(chunks, sent, committed, Entry(chunks[i], o));
        Reassociated(old(log), sent, [Entry(chunks[i], o)]);
        sent := sent + [Entry(chunks[i], o)];
        Behind(old(log), sent);
        if o.Failed? {
          // With committed == 0 the bare error is returned, of which CommittedRows is 0 too.
          return Some(Failure(committed, o.nonRetryable));
        }
        committed := committed + |chunks[i]|;
      }
      Behind(old(log), sent);
      err := None;
      PassEnd(chunks, sent, committed);
    }
  }

  // ---------------------------------------------------------------- insert, chunk by chunk

  /** Where each chunk is one statement: another writer, or a store that can be trusted to clamp. */
  predicate Exact(w: Writer, rows: seq<Row>) {
    w.Other? || (Splittable(w.b, rows) && rows != [])
  }

  /** insert's loop after i acknowledged chunks. */
  predicate Midway(w: Writer, rows: seq<Row>, i: nat, sent: seq<Entry>, committed: int) {
    && i <= |Chunks(w, rows)|
    && Acks(sent) == |sent|
    && committed == |Flatten(Chunks(w, rows)[..i])|
    && (Exact(w, rows) ==> |sent| == i && Underway(Chunks(w, rows), sent, committed))
    && (w.Store? && rows == [] ==> sent == [])
    && (sent == [] ==> i == 0 || (w.Store? && rows == []))
  }

  /** split: a writer's own splitter, unless it has nothing to say. */
  lemma ChunksOfOther(split: Splitter, rows: seq<Row>)
    ensures split(rows) != [] ==> Chunks(Other(split), rows) == split(rows)
    ensures split(rows) == [] ==> Chunks(Other(split), rows) == [rows]
  {}

  lemma ChunksOfStore(w: Writer, rows: seq<Row>)
    requires w.Store?
    ensures Chunks(w, rows) == if rows == [] then [[]] else Split(w.b, rows)
    ensures rows == [] ==> Split(w.b, rows) == []
    ensures rows != [] ==> forall i | 0 <= i < |Chunks(w, rows)| :: Chunks(w, rows)[i] != []
  {
    SplitKeepsRows(w.b, rows);
    hide Split;
    forall i | 0 <= i < |Split(w.b, rows)| ensures Split(w.b, rows)[i] != [] {
      assert Split(w.b, rows)[i] in Split(w.b, rows);
    }
  }

  lemma MidwayStart(w: Writer, rows: seq<Row>)
    ensures Midway(w, rows, 0, [], 0)
  {}

  lemma MidwayStep(w: Writer, rows: seq<Row>, i: nat, sent: seq<Entry>, committed: int,
                   more: seq<Entry>, err: Option<Failure>)
    requires Midway(w, rows, i, sent, committed) && i < |Chunks(w, rows)|
    requires Answered(w, Chunks(w, rows)[i], more, err)
    ensures err.None? ==> Midway(w, rows, i + 1, sent + more, committed + |Chunks(w, rows)[i]|)
    ensures err.Some? ==> Inserted(w, rows, sent + more, committed + err.value.committed, err)
  {
    FlattenNext(Chunks(w, rows), i);
    hide Flatten;
    hide Resumes;
    AcksConcat(sent, more);
    if w.Other? {
      hide Chunks;
      hide Acks;
      OtherStep(Chunks(w, rows), sent, committed, more, err);
    } else {
      StoreStep(w, rows, i, sent, committed, more, err);
    }
  }

  lemma StoreStep(w: Writer, rows: seq<Row>, i: nat, sent: seq<Entry>, committed: int,
                  more: seq<Entry>, err: Option<Failure>)
    requires w.Store? && Midway(w, rows, i, sent, committed) && i < |Chunks(w, rows)|
    requires Answered(w, Chunks(w, rows)[i], more, err)
    ensures err.None? ==> Midway(w, rows, i + 1, sent + more, committed + |Chunks(w, rows)[i]|)
    ensures err.Some? ==> Inserted(w, rows, sent + more, committed + err.value.committed, err)
  {
    FlattenNext(Chunks(w, rows), i);
    ChunksOfStore(w, rows);
    PartialChunk(w, rows, i, more, err);
    hide Chunks;
    hide Split;
    hide Flatten;
    hide Resumes;
    AcksConcat(sent, more);
    hide Acks;
    if Exact(w, rows) {
      ExactStep(w.b, rows, sent, committed, more, err);
    }
    hide Underway;
    assert err.Some? ==> (sent + more)[|sent + more| - 1] == more[|more| - 1];
  }

  lemma OtherStep(chunks: seq<seq<Row>>, sent: seq<Entry>, committed: int, more: seq<Entry>, err: Option<Failure>)
    requires Underway(chunks, sent, committed) && |sent| < |chunks|
    requires |more| == 1 && more[0].rows == chunks[|sent|] && Ends(more, err)
    requires err.Some? ==> err.value.committed == more[0].outcome.reported
    ensures err.None? ==> Underway(chunks, sent + more, committed + |chunks[|sent|]|)
    ensures err.Some? ==> Claimed(sent + more) == err.value.committed
                          && Pass(chunks, sent + more, committed, err)
  {
    OneAnswer(more[0]);
    assert more == [more[0]];
    PassStep(chunks, sent, committed, more[0]);
    hide Resumes;
    hide Acks;
    hide Flatten;
  }

  /** A failing chunk of a store sends something and is not committed as a whole, so rows are left. */
  lemma PartialChunk(w: Writer, rows: seq<Row>, i: nat, more: seq<Entry>, err: Option<Failure>)
    requires w.Store? && i < |Chunks(w, rows)|
    requires Answered(w, Chunks(w, rows)[i], more, err)
    ensures rows != [] ==> more != []
    ensures rows == [] ==> more == [] && err.None?
    ensures err.Some? ==> |Flatten(Chunks(w, rows)[..i])| + err.value.committed < |rows|
  {
    var chunk := Chunks(w, rows)[i];
    ChunksOfStore(w, rows);
    SplitKeepsRows(w.b, chunk);
    if rows == [] {
      EmptyStep(more, err);
    } else if err.Some? {
      ChunksKeepCount(w, rows);
      UpTo(Chunks(w, rows), i);
      UpTo(Split(w.b, chunk), Acks(more));
    }
  }

  /** Rows before and in the k-th chunk are at most all the rows. */
  lemma UpTo<T>(cs: seq<seq<T>>, k: nat)
    requires k < |cs|
    ensures |Flatten(cs[..k])| + |cs[k]| <= |Flatten(cs)|
    ensures cs[k] in cs
  {
    FlattenSplit(cs, k);
    FlattenFrom(cs, k);
  }

  lemma FlattenFrom<T>(cs: seq<seq<T>>, k: nat)
    requires k < |cs|
    ensures Flatten(cs[k..]) == cs[k] + Flatten(cs[k + 1..])
  {
    assert cs[k..][1..] == cs[k + 1..];
  }

  lemma ExactStep(b: Backend, rows: seq<Row>, sent: seq<Entry>, committed: int, more: seq<Entry>, err: Option<Failure>)
    requires Splittable(b, rows) && Underway(Split(b, rows), sent, committed) && |sent| < |Split(b, rows)|
    requires Pass(Split(b, Split(b, rows)[|sent|]), more,
                  if err.Some? then err.value.committed else |Split(b, rows)[|sent|]|, err)
    ensures |more| == 1
    ensures err.None? ==> Underway(Split(b, rows), sent + more, committed + |Split(b, rows)[|sent|]|)
    ensures err.Some? ==> Pass(Split(b, rows), sent + more, committed + err.value.committed, err)
  {
    hide Split;
    OneStatement(b, rows, |sent|, more, err);
    OneAnswer(more[0]);
    assert more == [more[0]];
    PassStep(Split(b, rows), sent, committed, more[0]);
    hide Resumes;
    hide Acks;
    hide Flatten;
  }

  /** Inserting no rows sends nothing and succeeds. */
  lemma EmptyStep(more: seq<Entry>, err: Option<Failure>)
    requires Pass([], more, if err.Some? then err.value.committed else 0, err)
    ensures more == [] && err.None?
  {}

  lemma MidwayEnd(w: Writer, rows: seq<Row>, sent: seq<Entry>, committed: int)
    requires Midway(w, rows, |Chunks(w, rows)|, sent, committed)
    ensures Inserted(w, rows, sent, committed, None)
  {
    ChunksKeepCount(w, rows);
    SliceToEnd(Chunks(w, rows), 0);
    assert Chunks(w, rows)[..|Chunks(w, rows)|] == Chunks(w, rows);
    if w.Store? {
      ChunksOfStore(w, rows);
    } else {
      NoClaim(sent);
    }
  }

  lemma NoClaim(sent: seq<Entry>)
    requires Acks(sent) == |sent|
    ensures Claimed(sent) == 0
  {}

  /** A chunk of a split is sent as one statement, whatever the answer. */
  lemma OneStatement(b: Backend, rows: seq<Row>, i: nat, more: seq<Entry>, err: Option<Failure>)
    requires Splittable(b, rows) && i < |Split(b, rows)|
    requires Pass(Split(b, Split(b, rows)[i]), more,
                  if err.Some? then err.value.committed else |Split(b, rows)[i]|, err)
    ensures |more| == 1 && more[0].rows == Split(b, rows)[i]
    ensures err.Some? ==> more[0].outcome.Failed? && err.value.committed == 0
    ensures err.None? ==> more[0].outcome.Acked?
  {
    SplitChunkAlone(b, rows, i);
    var chunk := Split(b, rows)[i];
    assert more[..0] == [];
    ResumesAt([chunk], more, 0);
  }
}
