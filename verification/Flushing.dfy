/**
  The buffer's flush (internal/ingest/buffer.go): one batch, its retries, and
  what they leave on the server.
*/
module Flushing {
  import opened Sums
  import opened Rows
  import opened Chunking
  import opened Splitting
  import opened Dedup
  import opened Delivery
  import opened Inserting
  import opened Backoff
  import Statements

  function Failures(sent: seq<Entry>): nat {
    |sent| - Acks(sent)
  }

  predicate Cancelled(cancelledBy: Option<nat>, answered: nat) {
    cancelledBy.Some? && cancelledBy.value <= answered
  }

  /** No failure in sent ends the flush: none is final, at none was the flush context cancelled. */
  predicate Retryable(sent: seq<Entry>, cancelledBy: Option<nat>, start: nat) {
    forall i | 0 <= i < |sent| && sent[i].outcome.Failed? ::
      !sent[i].outcome.nonRetryable && !Cancelled(cancelledBy, start + i + 1)
  }

  /** The last attempt returned no error: it ended on an acknowledgement, or there was nothing to send. */
  predicate Recovered(sent: seq<Entry>) {
    sent == [] || sent[|sent| - 1].outcome.Acked?
  }

  /** The flush ended on a failure marked ErrNonRetryable. */
  predicate EndsFinal(sent: seq<Entry>) {
    !Recovered(sent) && sent[|sent| - 1].outcome.nonRetryable
  }

  /**
    When a flush stops: on an acknowledgement, or on a failure that is final, or
    meets a cancelled context, or uses up the attempts; nothing is sent after a
    failure of the first two kinds.
  */
  predicate Stops(cfg: Config, cancelledBy: Option<nat>, start: nat, sent: seq<Entry>) {
    && Failures(sent) <= cfg.maxRetries + (if Recovered(sent) then 0 else 1)
    && (sent != [] ==> Retryable(sent[..|sent| - 1], cancelledBy, start))
    && (Recovered(sent) || EndsFinal(sent) || Cancelled(cancelledBy, start + |sent|)
        || Failures(sent) == cfg.maxRetries + 1)
  }

  function Clip(committed: int, n: nat): (c: nat)
    ensures c <= n
  {
    Min(Max(committed, 0), n)
  }

  function Distance(a: int, b: int): nat {
    if a < b then b - a else a - b
  }

  /** A claimed count stands for the possible count nearest to it. */
  lemma ClipNearest(committed: int, n: nat, other: nat)
    requires other <= n && other != Clip(committed, n)
    ensures Distance(committed, Clip(committed, n)) < Distance(committed, other)
  {}

  // ---------------------------------------------------------------- the log of another writer

  /** Inside the retries for a writer that is no store: the rows left, and how many of their chunks are acknowledged. */
  datatype Place = Place(rest: seq<Row>, acked: nat)

  /** A failure takes off the acknowledged chunks' rows and whatever it claims, within reason. */
  function PlaceAfter(w: Writer, all: seq<Row>, sent: seq<Entry>): Place {
    if sent == [] then Place(all, 0)
    else
      var p := PlaceAfter(w, all, sent[..|sent| - 1]);
      match sent[|sent| - 1].outcome
      case Acked => Place(p.rest, p.acked + 1)
      case Failed(_, _, reported) =>
        var chunks := Chunks(w, p.rest);
        var counted := |Flatten(chunks[..Min(p.acked, |chunks|)])|;
        Place(p.rest[Clip(counted + reported, |p.rest|)..], 0)
  }

  /** Every statement carries the next chunk of the rows left. */
  predicate Follows(w: Writer, all: seq<Row>, sent: seq<Entry>) {
    sent == [] ||
    var before := sent[..|sent| - 1];
    var p := PlaceAfter(w, all, before);
    Follows(w, all, before) && p.acked < |Chunks(w, p.rest)| && sent[|sent| - 1].rows == Chunks(w, p.rest)[p.acked]
  }

  // ---------------------------------------------------------------- what a flush delivers

  /** The statements go through the one chunk list of `all`, and the acknowledged chunks hold `counted` rows. */
  predicate Walked(b: Backend, all: seq<Row>, sent: seq<Entry>, counted: int) {
    && Resumes(Split(b, all), sent)
    && Acks(sent) <= |Split(b, all)|
    && counted == |Flatten(Split(b, all)[..Acks(sent)])|
  }

  /**
    On a store, the flush walked the one chunk list of `all`, to its end exactly
    when it recovered. With another writer, it walked the chunks of what its
    reports left, and `flushed` is what they add up to.
  */
  predicate Delivered(w: Writer, all: seq<Row>, sent: seq<Entry>, flushed: int) {
    && (OnStore(w, all) ==>
          && Walked(w.b, all, sent, flushed)
          && (Recovered(sent) <==> Acks(sent) == |Split(w.b, all)|))
    && (w.Other? ==>
          && Follows(w, all, sent)
          && var p := PlaceAfter(w, all, sent);
             && (Recovered(sent) <==> p.acked == |Chunks(w, p.rest)|)
             && flushed == |all| - if Recovered(sent) then 0 else |p.rest|)
  }

  /** What is left of all between attempts, once the committed rows are gone. */
  predicate Remaining(w: Writer, all: seq<Row>, sent: seq<Entry>, rest: seq<Row>) {
    && |rest| <= |all| && rest == all[|all| - |rest|..]
    && (OnStore(w, all) ==> Walked(w.b, all, sent, |all| - |rest|))
    && (w.Other? ==> Follows(w, all, sent) && PlaceAfter(w, all, sent) == Place(rest, 0))
    && (w.Store? && sent != [] ==> rest != [])
  }

  /** The state before an attempt. */
  predicate Trying(w: Writer, cancelledBy: Option<nat>, start: nat, all: seq<Row>,
                   sent: seq<Entry>, rest: seq<Row>, attempt: nat) {
    && Remaining(w, all, sent, rest)
    && Retryable(sent, cancelledBy, start)
    && Failures(sent) == attempt
  }

  lemma TryStart(w: Writer, cancelledBy: Option<nat>, start: nat, all: seq<Row>)
    ensures Trying(w, cancelledBy, start, all, [], all, 0)
  {
    assert all[0..] == all;
  }

  /** Continuing a log of chunks with a pass over the chunks that are left. */
  lemma ContinuePass(chunks: seq<seq<Row>>, sent: seq<Entry>, more: seq<Entry>, committed: int, err: Option<Failure>)
    requires Resumes(chunks, sent) && Acks(sent) <= |chunks|
    requires Pass(chunks[Acks(sent)..], more, committed, err)
    ensures Resumes(chunks, sent + more) && Acks(sent + more) <= |chunks|
    ensures |Flatten(chunks[..Acks(sent + more)])| == |Flatten(chunks[..Acks(sent)])| + committed <= |Flatten(chunks)|
    ensures err.None? <==> Acks(sent + more) == |chunks|
  {
    hide Flatten;
    hide Resumes;
    hide Acks;
    var a, b := Acks(sent), Acks(more);
    ResumesConcat(chunks, sent, more);
    FlattenSplit(chunks[..a + b], a);
    assert chunks[..a + b][..a] == chunks[..a] && chunks[..a + b][a..] == chunks[a..][..b];
    FlattenSplit(chunks, a + b);
  }

  /** One more statement, acknowledged or not. */
  lemma FollowOne(w: Writer, all: seq<Row>, sent: seq<Entry>, p: Place, chunks: seq<seq<Row>>, e: Entry)
    requires Follows(w, all, sent) && PlaceAfter(w, all, sent) == p && chunks == Chunks(w, p.rest)
    requires p.acked < |chunks| && e.rows == chunks[p.acked]
    ensures Follows(w, all, sent + [e])
    ensures PlaceAfter(w, all, sent + [e]) ==
            if e.outcome.Acked? then Place(p.rest, p.acked + 1)
            else Place(p.rest[Clip(|Flatten(chunks[..p.acked])| + e.outcome.reported, |p.rest|)..], 0)
  {
    hide Chunks;
    var more := sent + [e];
    assert more[..|more| - 1] == sent && more[|more| - 1] == e;
    PlaceAfterOne(w, all, more);
    assert Follows(w, all, more);
    hide Follows;
    hide PlaceAfter;
    assert p == Place(p.rest, p.acked);
  }

  lemma PlaceAfterOne(w: Writer, all: seq<Row>, sent: seq<Entry>)
    requires sent != []
    ensures var p, e := PlaceAfter(w, all, sent[..|sent| - 1]), sent[|sent| - 1];
            p.acked <= |Chunks(w, p.rest)| ==>
              PlaceAfter(w, all, sent) ==
              if e.outcome.Acked? then Place(p.rest, p.acked + 1)
              else Place(p.rest[Clip(|Flatten(Chunks(w, p.rest)[..p.acked])| + e.outcome.reported, |p.rest|)..], 0)
  {
    hide Chunks;
    hide Flatten;
    hide Clip;
  }

  /** The acknowledged part of an attempt only moves the place along. */
  lemma {:induction false} FollowAcked(w: Writer, all: seq<Row>, sent: seq<Entry>, rest: seq<Row>,
                                       chunks: seq<seq<Row>>, acked: seq<Entry>)
    requires Follows(w, all, sent) && PlaceAfter(w, all, sent) == Place(rest, 0) && chunks == Chunks(w, rest)
    requires Resumes(chunks, acked) && Acks(acked) == |acked|
    ensures Follows(w, all, sent + acked) && PlaceAfter(w, all, sent + acked) == Place(rest, |acked|)
  {
    hide Chunks;
    hide Follows;
    hide PlaceAfter;
    if acked == [] {
      assert sent + acked == sent;
    } else {
      var before, e := acked[..|acked| - 1], acked[|acked| - 1];
      assert Resumes(chunks, before) && Acks(before) == |before| < |chunks|;
      assert e.outcome.Acked? && e.rows == chunks[|before|];
      hide Resumes;
      hide Acks;
      FollowAcked(w, all, sent, rest, chunks, before);
      FollowOne(w, all, sent + before, Place(rest, |before|), chunks, e);
      assert sent + acked == sent + before + [e];
    }
  }

  /** One attempt with another writer. */
  lemma FollowPass(w: Writer, all: seq<Row>, sent: seq<Entry>, rest: seq<Row>, chunks: seq<seq<Row>>,
                   more: seq<Entry>, committed: int, err: Option<Failure>)
    requires Follows(w, all, sent) && PlaceAfter(w, all, sent) == Place(rest, 0) && chunks == Chunks(w, rest)
    requires Pass(chunks, more, committed - Claimed(more), err)
    ensures Follows(w, all, sent + more)
    ensures PlaceAfter(w, all, sent + more) ==
            if err.Some? then Place(rest[Clip(committed, |rest|)..], 0) else Place(rest, |chunks|)
  {
    hide Chunks;
    hide Follows;
    hide PlaceAfter;
    hide Flatten;
    hide Clip;
    if err.None? {
      FollowAcked(w, all, sent, rest, chunks, more);
    } else {
      var first, e := more[..|more| - 1], more[|more| - 1];
      assert Resumes(chunks, first) && Acks(first) == |first| == Acks(more) < |chunks|;
      assert e.rows == chunks[|first|] && Claimed(more) == e.outcome.reported;
      hide Resumes;
      hide Acks;
      FollowAcked(w, all, sent, rest, chunks, first);
      FollowOne(w, all, sent + first, Place(rest, |first|), chunks, e);
      assert sent + more == sent + first + [e];
    }
  }

  /** One attempt on what is left; chunk boundaries do not move. */
  lemma TryOnStore(w: Writer, all: seq<Row>, sent: seq<Entry>, rest: seq<Row>,
                   more: seq<Entry>, committed: int, err: Option<Failure>)
    requires w.Store? && Remaining(w, all, sent, rest) && Inserted(w, rest, more, committed, err)
    ensures err.Some? ==> Clip(committed, |rest|) < |rest|
    ensures err.None? ==> committed == |rest|
    ensures OnStore(w, all) ==>
              && Walked(w.b, all, sent + more, |all| - |rest| + Clip(committed, |rest|))
              && (err.None? <==> Acks(sent + more) == |Split(w.b, all)|)
  {
    if OnStore(w, all) {
      assert Splittable(w.b, rest);
      SplitSuffix(w.b, all, Acks(sent));
      SplitKeepsRows(w.b, all);
      hide Split;
      hide Splittable;
      ContinuePass(Split(w.b, all), sent, more, committed, err);
    }
    hide Resumes;
    hide Flatten;
    hide Acks;
  }

  lemma TryOnce(w: Writer, all: seq<Row>, sent: seq<Entry>, rest: seq<Row>,
                more: seq<Entry>, committed: int, err: Option<Failure>)
    requires Remaining(w, all, sent, rest) && Inserted(w, rest, more, committed, err)
    ensures err.Some? ==> Remaining(w, all, sent + more, rest[Clip(committed, |rest|)..])
    ensures err.None? ==> Clip(committed, |rest|) == |rest|
    ensures Recovered(sent + more) <==> err.None?
    ensures Delivered(w, all, sent + more, |all| - |rest| + Clip(committed, |rest|))
  {
    EndRecovers(sent, more, err);
    DropTwice(all, |all| - |rest|, Clip(committed, |rest|));
    hide Recovered;
    hide Splittable;
    hide Walked;
    if w.Store? {
      TryOnStore(w, all, sent, rest, more, committed, err);
    } else {
      TryOnOther(w, all, sent, rest, more, committed, err);
    }
    hide Flatten;
    hide Resumes;
    hide Follows;
    hide PlaceAfter;
    hide Chunks;
    hide Split;
    hide Pass;
    hide Acks;
    hide Ends;
    hide Claimed;
  }

  lemma DropTwice<T>(s: seq<T>, i: nat, j: nat)
    requires i + j <= |s|
    ensures s[i..][j..] == s[i + j..]
  {}

  lemma TryOnOther(w: Writer, all: seq<Row>, sent: seq<Entry>, rest: seq<Row>,
                   more: seq<Entry>, committed: int, err: Option<Failure>)
    requires w.Other? && Remaining(w, all, sent, rest) && Inserted(w, rest, more, committed, err)
    ensures Follows(w, all, sent + more)
    ensures err.Some? ==> PlaceAfter(w, all, sent + more) == Place(rest[Clip(committed, |rest|)..], 0)
    ensures err.Some? ==> Chunks(w, rest[Clip(committed, |rest|)..]) != []
    ensures err.None? ==> PlaceAfter(w, all, sent + more) == Place(rest, |Chunks(w, rest)|)
  {
    FollowPass(w, all, sent, rest, Chunks(w, rest), more, committed, err);
    ChunksNonEmpty(w, rest[Clip(committed, |rest|)..]);
  }

  lemma EndRecovers(sent: seq<Entry>, more: seq<Entry>, err: Option<Failure>)
    requires Ends(more, err) && (more == [] ==> sent == [])
    ensures Recovered(sent + more) <==> err.None?
  {
    OnlyLastFails(more, err);
    assert more != [] ==> (sent + more)[|sent + more| - 1] == more[|more| - 1];
  }

  lemma ChunksNonEmpty(w: Writer, rows: seq<Row>)
    ensures Chunks(w, rows) != []
  {}

  lemma {:induction false} AllAcked(log: seq<Entry>)
    requires Acks(log) == |log|
    ensures forall i | 0 <= i < |log| :: log[i].outcome.Acked?
  {
    if log != [] {
      AllAcked(log[..|log| - 1]);
    }
  }

  /** An attempt has at most one failure, its last statement. */
  lemma OnlyLastFails(more: seq<Entry>, err: Option<Failure>)
    requires Ends(more, err)
    ensures forall i | 0 <= i < |more| && more[i].outcome.Failed? :: i == |more| - 1 && err.Some?
    ensures err.Some? ==> more != [] && more[|more| - 1].outcome.Failed?
                          && more[|more| - 1].outcome.nonRetryable == err.value.nonRetryable
    ensures Acks(more) == |more| - if err.Some? then 1 else 0
  {
    AllAcked(if err.Some? then more[..|more| - 1] else more);
    if err.Some? {
      var first := more[..|more| - 1];
      assert forall i | 0 <= i < |first| :: more[i] == first[i];
    }
  }

  lemma AttemptEnds(cfg: Config, cancelledBy: Option<nat>, start: nat, sent: seq<Entry>, attempt: nat,
                    more: seq<Entry>, err: Option<Failure>)
    requires Retryable(sent, cancelledBy, start) && Failures(sent) == attempt <= cfg.maxRetries
    requires Ends(more, err) && (more == [] ==> sent == [])
    ensures Failures(sent + more) == attempt + if err.Some? then 1 else 0
    ensures err.None? ==> Stops(cfg, cancelledBy, start, sent + more) && !EndsFinal(sent + more)
    ensures err.Some? ==> EndsFinal(sent + more) == err.value.nonRetryable
    ensures err.Some? && (err.value.nonRetryable || Cancelled(cancelledBy, start + |sent + more|) || attempt == cfg.maxRetries) ==>
              Stops(cfg, cancelledBy, start, sent + more)
    ensures err.Some? && !err.value.nonRetryable && !Cancelled(cancelledBy, start + |sent + more|) ==>
              Retryable(sent + more, cancelledBy, start)
  {
    AcksConcat(sent, more);
    OnlyLastFails(more, err);
    hide Acks;
    forall i | |sent| <= i < |sent + more| && (sent + more)[i].outcome.Failed? ensures i == |sent + more| - 1 {
      assert (sent + more)[i] == more[i - |sent|];
    }
    if more != [] {
      assert (sent + more)[|sent + more| - 1] == more[|more| - 1];
    }
  }

  /** What flush's loop body establishes, by the way it is left. */
  lemma Attempt(w: Writer, cfg: Config, cancelledBy: Option<nat>, start: nat, all: seq<Row>,
                sent: seq<Entry>, rest: seq<Row>, attempt: nat, more: seq<Entry>, committed: int, err: Option<Failure>)
    requires Trying(w, cancelledBy, start, all, sent, rest, attempt) && attempt <= cfg.maxRetries
    requires Inserted(w, rest, more, committed, err)
    ensures |rest| <= |all|
    ensures Failures(sent + more) == attempt + if err.Some? then 1 else 0
    ensures Recovered(sent + more) <==> err.None?
    ensures Delivered(w, all, sent + more, |all| - |rest| + Clip(committed, |rest|))
    ensures err.None? ==> Clip(committed, |rest|) == |rest| && Stops(cfg, cancelledBy, start, sent + more)
    ensures EndsFinal(sent + more) <==> err.Some? && err.value.nonRetryable
    ensures err.Some? && (err.value.nonRetryable || Cancelled(cancelledBy, start + |sent + more|) || attempt == cfg.maxRetries) ==>
              Stops(cfg, cancelledBy, start, sent + more)
    ensures err.Some? && !err.value.nonRetryable && !Cancelled(cancelledBy, start + |sent + more|) ==>
              Trying(w, cancelledBy, start, all, sent + more, rest[Clip(committed, |rest|)..], attempt + 1)
  {
    hide Retryable;
    hide Delivered;
    hide Stops;
    hide EndsFinal;
    hide Split;
    AttemptFacts(w, all, sent, rest, more, committed, err);
    hide Remaining;
    hide Inserted;
    TryOnce(w, all, sent, rest, more, committed, err);
    AttemptEnds(cfg, cancelledBy, start, sent, attempt, more, err);
  }

  lemma AttemptFacts(w: Writer, all: seq<Row>, sent: seq<Entry>, rest: seq<Row>,
                     more: seq<Entry>, committed: int, err: Option<Failure>)
    requires Remaining(w, all, sent, rest) && Inserted(w, rest, more, committed, err)
    ensures |rest| <= |all| && Ends(more, err) && (more == [] ==> sent == [])
  {}

  lemma WaitsSnoc(cfg: Config, k: nat, earlier: seq<int>)
    ensures earlier + Waits(cfg, k) + [Wait(cfg, k)] == earlier + Waits(cfg, k + 1)
    ensures Wait(cfg, k + 1) == Min(Wrap64(Wait(cfg, k) * 2), cfg.retryMaxBackoff)
  {
    hide Wrap64;
    assert Waits(cfg, k + 1) == Waits(cfg, k) + [Wait(cfg, k)];
  }

  /** Appending to a log in two steps. */
  lemma LogGrows(start: seq<Entry>, sent: seq<Entry>, log: seq<Entry>)
    requires start + sent <= log
    ensures log == start + (sent + log[|start + sent|..])
    ensures log[|start|..] == sent + log[|start + sent|..]
  {}

  class Buffer {
    const w: Connection
    const cfg: Config
    const cancelledBy: Option<nat>  // flushCancel runs once this many statements are answered

    // Observer totals.
    var flushed: nat
    var dropped: nat
    var flushFailed: nat
    var flushNonRetryable: nat
    var waits: seq<int>  // the retry timers started so far

    constructor (w: Connection, cfg: Config, cancelledBy: Option<nat>)
      ensures this.w == w && this.cfg == cfg && this.cancelledBy == cancelledBy
      ensures flushed == dropped == flushFailed == flushNonRetryable == 0 && waits == []
    {
      this.w := w;
      this.cfg := cfg;
      this.cancelledBy := cancelledBy;
      flushed, dropped, flushFailed, flushNonRetryable, waits := 0, 0, 0, 0, [];
    }

    method Flush(batch: seq<Row>)
      modifies this, w
      ensures old(w.log) <= w.log
      ensures FromServer(w.script, w.log, |old(w.log)|)
      // Accounting, for any writer.
      ensures flushed + dropped == old(flushed) + old(dropped) + |Deduped(batch)|
      ensures Recovered(w.log[|old(w.log)|..]) ==> dropped == old(dropped)
      ensures flushFailed == old(flushFailed) + if Recovered(w.log[|old(w.log)|..]) then 0 else 1
      ensures flushNonRetryable == old(flushNonRetryable) + if EndsFinal(w.log[|old(w.log)|..]) then 1 else 0
      // When it stops, and how it waits.
      ensures Stops(cfg, cancelledBy, |old(w.log)|, w.log[|old(w.log)|..])
      ensures waits == old(waits) +
        Waits(cfg, Failures(w.log[|old(w.log)|..]) - if Recovered(w.log[|old(w.log)|..]) then 0 else 1)
      // What was sent, and what counts as flushed.
      ensures Delivered(w.writer, Deduped(batch), w.log[|old(w.log)|..], flushed - old(flushed))
    {
      hide Split;
      hide Deduped;
      hide Trying;
      hide Inserted;
      hide Delivered;
      hide Stops;
      hide EndsFinal;
      hide Recovered;
      hide Failures;
      hide Clip;
      hide Cancelled;
      hide Min;
      hide Wrap64;
      hide Acks;
      assert Waits(cfg, 0) == [] && Wait(cfg, 0) == cfg.retryBackoff;
      hide Wait;
      hide Waits;
      var rows := Dedupe(batch);
      ghost var all, start := rows, |w.log|;
      ghost var sent := [];
      TryStart(w.writer, cancelledBy, start, all);
      FromServerNone(w.script, w.log);
      hide FromServer;
      var backoff: Int64 := cfg.retryBackoff;
      var attempt := 0;
      while attempt <= cfg.maxRetries
        invariant 0 <= attempt <= cfg.maxRetries + 1
        invariant w.log == old(w.log) + sent
        invariant FromServer(w.script, w.log, start)
        invariant flushed + |rows| == old(flushed) + |all|
        invariant dropped == old(dropped) && flushFailed == old(flushFailed)
        invariant flushNonRetryable == old(flushNonRetryable)
        invariant attempt <= cfg.maxRetries ==>
          && Trying(w.writer, cancelledBy, start, all, sent, rows, attempt)
          && backoff == Wait(cfg, attempt)
          && waits == old(waits) + Waits(cfg, attempt)
        invariant attempt == cfg.maxRetries + 1 ==>
          && Stops(cfg, cancelledBy, start, sent)
          && !Recovered(sent)
          && !EndsFinal(sent)
          && Delivered(w.writer, all, sent, flushed - old(flushed))
          && Failures(sent) == attempt
          && waits == old(waits) + Waits(cfg, cfg.maxRetries)
      {
        ghost var before := w.log;
        var committed, err := Insert(rows);
        FromServerOn(w.script, before, w.log, start);
        ghost var more := w.log[|before|..];
        LogGrows(old(w.log), sent, w.log);
        Attempt(w.writer, cfg, cancelledBy, start, all, sent, rows, attempt, more, committed, err);
        sent := sent + more;
        committed := Clip(committed, |rows|);
        if committed > 0 {
          flushed := flushed + committed;
          rows := rows[committed..];
        }
        if err.None? {
          return;
        }
        if err.value.nonRetryable {
          flushNonRetryable := flushNonRetryable + 1;
          break;
        }
        if Cancelled(cancelledBy, |w.log|) {
          break;
        }
        if attempt < cfg.maxRetries {
          WaitsSnoc(cfg, attempt, old(waits));
          waits := waits + [backoff];
          backoff := Min(Wrap64(backoff * 2), cfg.retryMaxBackoff);
        }
        attempt := attempt + 1;
      }
      assert w.log[|old(w.log)|..] == sent;
      flushFailed := flushFailed + 1;
      dropped := dropped + |rows|;
    }

    /** One attempt: every chunk of rows, up to the first error. */
    method Insert(rows: seq<Row>) returns (committed: int, err: Option<Failure>)
      modifies w
      ensures old(w.log) <= w.log
      ensures FromServer(w.script, w.log, |old(w.log)|)
      ensures Inserted(w.writer, rows, w.log[|old(w.log)|..], committed, err)
    {
      hide Flatten;
      hide Answered;
      hide Midway;
      hide Inserted;
      committed := 0;
      var chunks := Chunks(w.writer, rows);
      ghost var sent := [];
      MidwayStart(w.writer, rows);
      FromServerNone(w.script, w.log);
      hide FromServer;
      hide Chunks;
      for i := 0 to |chunks|
        invariant w.log == old(w.log) + sent
        invariant FromServer(w.script, w.log, |old(w.log)|)
        invariant Midway(w.writer, rows, i, sent, committed)
      {
        ghost var before := w.log;
        var failure := w.InsertBatch(chunks[i]);
        FromServerOn(w.script, before, w.log, |old(w.log)|);
        ghost var more := w.log[|before|..];
        MidwayStep(w.writer, rows, i, sent, committed, more, failure);
        sent := sent + more;
        assert w.log == old(w.log) + sent;
        if failure.Some? {
          assert w.log[|old(w.log)|..] == sent;
          return committed + failure.value.committed, failure;
        }
        committed := committed + |chunks[i]|;
      }
      MidwayEnd(w.writer, rows, sent, committed);
      assert w.log[|old(w.log)|..] == sent;
      err := None;
    }
  }

  // ---------------------------------------------------------------- end to end

  /**
    A flush to ClickHouse, whatever acknowledgements are lost: a recovered flush
    has stored every deduplicated row exactly once; one that gave up has stored
    the acknowledged chunks, whose rows it counted as flushed, and at most the
    next chunk.
  */
  lemma ClickHouseFlush(b: Backend, batch: seq<Row>, sent: seq<Entry>, flushed: int, s: Server)
    requires b.ClickHouse? && Delivered(Store(b), Deduped(batch), sent, flushed)
    requires s.window !! ChunkTokens(Split(b, Deduped(batch)))
    ensures Recovered(sent) ==> Serve(s, sent).rows == s.rows + Deduped(batch) && flushed == |Deduped(batch)|
    ensures exists held | held == Acks(sent) || held == Acks(sent) + 1 ::
              held <= |Split(b, Deduped(batch))| &&
              Serve(s, sent).rows == s.rows + Flatten(Split(b, Deduped(batch))[..held])
    ensures flushed == |Flatten(Split(b, Deduped(batch))[..Acks(sent)])|
  {
    hide Split;
    hide Deduped;
    hide Serve;
    hide Resumes;
    hide Acks;
    var chunks := Split(b, Deduped(batch));
    ExactlyOnce(b, batch, sent, s);
    SplitKeepsRows(b, Deduped(batch));
    assert chunks[..|chunks|] == chunks;
  }

  /** A recovered flush to Trino stores the clamped rows, plus a copy of a chunk for each lost acknowledgement. */
  lemma TrinoFlush(b: Backend, batch: seq<Row>, sent: seq<Entry>, flushed: int)
    requires b.Trino? && Splittable(b, Deduped(batch))
    requires Delivered(Store(b), Deduped(batch), sent, flushed)
    ensures Recovered(sent) ==>
              multiset(Stored(sent)) == multiset(Prepared(b, Deduped(batch))) + multiset(Unacknowledged(sent))
    ensures Recovered(sent) ==>
              (multiset(Stored(sent)) == multiset(Prepared(b, Deduped(batch))) <==> Unacknowledged(sent) == [])
  {
    hide Deduped;
    hide Stored;
    hide Unacknowledged;
    var chunks := Split(b, Deduped(batch));
    AtLeastOnce(chunks, sent);
    SplitKeepsRows(b, Deduped(batch));
    hide Split;
    assert chunks[..|chunks|] == chunks;
    assert |multiset(Unacknowledged(sent))| == |Unacknowledged(sent)|;
  }

  /** No statement a Trino flush sends, on any attempt, is longer than the configured maximum. */
  lemma TrinoFlushStatementsFit(b: Backend, batch: seq<Row>, sent: seq<Entry>, flushed: int,
                                i: nat, literal: Statements.TimeLiteral)
    requires b.Trino? && Splittable(b, Deduped(batch)) && i < |sent|
    requires Delivered(Store(b), Deduped(batch), sent, flushed)
    requires b.maxStmtBytes - StmtOverhead(b.insertPrefix) >= MIN_STATEMENT_BUDGET
    ensures |Statements.Statement(b.insertPrefix, sent[i].rows, literal)| <= b.maxStmtBytes
  {
    hide Split;
    hide Statements.Statement;
    hide Deduped;
    ResumesAt(Split(b, Deduped(batch)), sent, i);
    Statements.StatementsFit(b, Deduped(batch), Acks(sent[..i]), literal);
  }
}
