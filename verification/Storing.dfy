/**
  From the buffer to the ClickHouse table: what the server holds at any point of
  a run of the buffer, over all its flushes.
*/
module Storing {
  import opened ByteStrings
  import opened Rows
  import opened Chunking
  import opened Splitting
  import opened Dedup
  import opened Delivery
  import opened Inserting
  import opened Flushing
  import opened BufferRuns
  import Tokens

  /** Every flush that has returned kept Flush's contract for its batch, in order. */
  predicate Settled(w: Writer, handed: seq<seq<Row>>, results: seq<FlushResult>) {
    |results| <= |handed| && forall i | 0 <= i < |results| :: Allowed(w, handed[i], results[i])
  }

  /** The rows of these batches, each batch deduplicated. */
  function AllDeduped(batches: seq<seq<Row>>): seq<Row> {
    if batches == [] then [] else AllDeduped(batches[..|batches| - 1]) + Deduped(batches[|batches| - 1])
  }

  function AllFlushed(results: seq<FlushResult>): nat {
    if results == [] then 0 else AllFlushed(results[..|results| - 1]) + results[|results| - 1].flushed
  }

  /** The results belong to the batches handed over first, and the observer's totals are theirs. */
  predicate Tracked(cfg: Config, s: State) {
    && Settled(cfg.writer, s.handed, s.results)
    && |s.handed| == |s.results| + (if s.flushing.Some? then 1 else 0)
    && s.flushed == AllFlushed(s.results)
    && s.flushed + s.flushDropped == |AllDeduped(s.handed[..|s.results|])|
  }

  lemma StepTracks(cfg: Config, s: State, step: Step)
    requires Inv(cfg, s) && Tracked(cfg, s) && Enabled(cfg, s, step)
    ensures Tracked(cfg, Next(cfg, s, step))
  {
    if step.FlushReturns? {
      ReturnTracks(cfg, s, step.o);
    } else {
      HandedGrows(cfg, s, step);
      StillTracked(cfg, s, Next(cfg, s, step));
    }
  }

  /** Any other step at most hands over one more batch. */
  lemma HandedGrows(cfg: Config, s: State, step: Step)
    requires Enabled(cfg, s, step) && !step.FlushReturns?
    ensures var t := Next(cfg, s, step);
            && t.results == s.results && t.flushed == s.flushed && t.flushDropped == s.flushDropped
            && s.handed <= t.handed
            && |t.handed| - (if t.flushing.Some? then 1 else 0) == |s.handed| - (if s.flushing.Some? then 1 else 0)
  {
    hide Allowed;
  }

  lemma StillTracked(cfg: Config, s: State, t: State)
    requires Tracked(cfg, s)
    requires t.results == s.results && t.flushed == s.flushed && t.flushDropped == s.flushDropped
    requires s.handed <= t.handed
    requires |t.handed| - (if t.flushing.Some? then 1 else 0) == |s.handed| - (if s.flushing.Some? then 1 else 0)
    ensures Tracked(cfg, t)
  {
    hide Allowed;
    hide AllDeduped;
    hide AllFlushed;
    assert t.handed[..|s.results|] == s.handed[..|s.results|];
  }

  lemma TotalsSnoc(batches: seq<seq<Row>>, batch: seq<Row>, results: seq<FlushResult>, o: FlushResult)
    ensures AllDeduped(batches + [batch]) == AllDeduped(batches) + Deduped(batch)
    ensures AllFlushed(results + [o]) == AllFlushed(results) + o.flushed
  {
    hide Deduped;
    assert (batches + [batch])[..|batches|] == batches && (results + [o])[..|results|] == results;
  }

  lemma ReturnTracks(cfg: Config, s: State, o: FlushResult)
    requires Inv(cfg, s) && Tracked(cfg, s) && Enabled(cfg, s, FlushReturns(o))
    ensures Tracked(cfg, Next(cfg, s, FlushReturns(o)))
  {
    hide Deduped;
    hide Delivered;
    hide AllDeduped;
    hide AllFlushed;
    var n := |s.results|;
    assert Allowed(cfg.writer, s.handed[n], o);
    hide Allowed;
    TotalsSnoc(s.handed[..n], s.handed[n], s.results, o);
    assert s.handed[..n + 1] == s.handed[..n] + [s.handed[n]];
    DedupedShrinks(s.handed[n]);
  }

  lemma {:induction false} RunTracks(cfg: Config, s: State, steps: seq<Step>)
    requires Valid(cfg) && Inv(cfg, s) && Tracked(cfg, s) && Runs(cfg, s, steps)
    ensures Tracked(cfg, After(cfg, s, steps))
    decreases |steps|
  {
    if steps != [] {
      hide Inv;
      hide Tracked;
      hide Next;
      StepKeeps(cfg, s, steps[0]);
      StepTracks(cfg, s, steps[0]);
      RunTracks(cfg, Next(cfg, s, steps[0]), steps[1..]);
    }
  }

  /** Everything sent to the server by the flushes that have returned. */
  function LogOf(results: seq<FlushResult>): seq<Entry> {
    if results == [] then [] else LogOf(results[..|results| - 1]) + results[|results| - 1].sent
  }

  /** The chunks of all those flushes. */
  function AllChunks(b: Backend, batches: seq<seq<Row>>): seq<seq<Row>> {
    if batches == [] then [] else AllChunks(b, batches[..|batches| - 1]) + Split(b, Deduped(batches[|batches| - 1]))
  }

  /** The rows one flush left on the server: its acknowledged chunks, and the one in doubt. */
  function Taken(b: Backend, batch: seq<Row>, o: FlushResult): seq<Row> {
    var chunks := Split(b, Deduped(batch));
    Flatten(chunks[..if Held(o.sent) <= |chunks| then Held(o.sent) else |chunks|])
  }

  function AllTaken(b: Backend, batches: seq<seq<Row>>, results: seq<FlushResult>): seq<Row>
    requires |results| == |batches|
  {
    if results == [] then []
    else
      var n := |results| - 1;
      AllTaken(b, batches[..n], results[..n]) + Taken(b, batches[n], results[n])
  }

  lemma ChunkTokensConcat(a: seq<seq<Row>>, b: seq<seq<Row>>)
    ensures ChunkTokens(a + b) == ChunkTokens(a) + ChunkTokens(b)
    ensures DistinctTokens(a + b) ==>
              DistinctTokens(a) && DistinctTokens(b) && ChunkTokens(a) !! ChunkTokens(b)
  {
    hide Tokens.Token;
    if DistinctTokens(a + b) {
      assert forall i | 0 <= i < |a| :: (a + b)[i] == a[i];
      assert forall j | 0 <= j < |b| :: (a + b)[|a| + j] == b[j];
      forall t | t in ChunkTokens(a) ensures t !in ChunkTokens(b) {
        var c :| c in a && Tokens.Token(c) == t;
        var i :| 0 <= i < |a| && a[i] == c;
        forall j | 0 <= j < |b| ensures Tokens.Token(b[j]) != t {
          assert Tokens.Token((a + b)[i]) != Tokens.Token((a + b)[|a| + j]);
        }
      }
    }
  }

  /** One flush, on whatever the server holds. */
  lemma FlushStores(b: Backend, batch: seq<Row>, o: FlushResult, s: Server)
    requires b.ClickHouse? && Allowed(Store(b), batch, o)
    requires DistinctTokens(Split(b, Deduped(batch))) && s.window !! ChunkTokens(Split(b, Deduped(batch)))
    ensures Serve(s, o.sent).rows == s.rows + Taken(b, batch, o)
    ensures Serve(s, o.sent).window <= s.window + ChunkTokens(Split(b, Deduped(batch)))
  {
    hide Deduped;
    hide Split;
    TakeTokens(Split(b, Deduped(batch)), Held(o.sent));
    HeldRows(s, Split(b, Deduped(batch)), o.sent);
    hide Serve;
    hide Held;
    hide DistinctTokens;
    hide ChunkTokens;
    hide Resumes;
    hide Flatten;
    hide Acks;
  }

  lemma TakeTokens(chunks: seq<seq<Row>>, k: nat)
    ensures k <= |chunks| ==> ChunkTokens(chunks[..k]) <= ChunkTokens(chunks)
  {
    hide Tokens.Token;
  }

  /** All flushes, one after the other. */
  lemma {:induction false} FlushesStore(b: Backend, batches: seq<seq<Row>>, results: seq<FlushResult>, s: Server)
    requires b.ClickHouse? && |results| == |batches| && Settled(Store(b), batches, results)
    requires DistinctTokens(AllChunks(b, batches)) && s.window !! ChunkTokens(AllChunks(b, batches))
    ensures Serve(s, LogOf(results)).rows == s.rows + AllTaken(b, batches, results)
    ensures Serve(s, LogOf(results)).window <= s.window + ChunkTokens(AllChunks(b, batches))
    decreases |results|
  {
    if results == [] {
      assert s.rows + [] == s.rows;
    } else {
      hide Deduped;
      hide Split;
      hide Taken;
      hide Serve;
      hide Allowed;
      hide DistinctTokens;
      hide ChunkTokens;
      var n := |results| - 1;
      var earlier, chunks := AllChunks(b, batches[..n]), Split(b, Deduped(batches[n]));
      assert AllChunks(b, batches) == earlier + chunks;
      assert LogOf(results) == LogOf(results[..n]) + results[n].sent;
      assert AllTaken(b, batches, results) == AllTaken(b, batches[..n], results[..n]) + Taken(b, batches[n], results[n]);
      hide AllChunks;
      hide LogOf;
      hide AllTaken;
      ChunkTokensConcat(earlier, chunks);
      FlushesStore(b, batches[..n], results[..n], s);
      OneFlushMore(b, batches[n], results[n], s, earlier, LogOf(results[..n]), AllTaken(b, batches[..n], results[..n]));
    }
  }

  lemma OneFlushMore(b: Backend, batch: seq<Row>, o: FlushResult, s: Server,
                     earlier: seq<seq<Row>>, log: seq<Entry>, taken: seq<Row>)
    requires b.ClickHouse? && Allowed(Store(b), batch, o)
    requires DistinctTokens(earlier + Split(b, Deduped(batch)))
    requires s.window !! ChunkTokens(earlier + Split(b, Deduped(batch)))
    requires Serve(s, log).rows == s.rows + taken && Serve(s, log).window <= s.window + ChunkTokens(earlier)
    ensures Serve(s, log + o.sent).rows == s.rows + (taken + Taken(b, batch, o))
    ensures Serve(s, log + o.sent).window <= s.window + ChunkTokens(earlier + Split(b, Deduped(batch)))
  {
    hide Deduped;
    hide Split;
    hide Taken;
    hide Allowed;
    hide Serve;
    hide DistinctTokens;
    hide ChunkTokens;
    ChunkTokensConcat(earlier, Split(b, Deduped(batch)));
    ServeConcat(s, log, o.sent);
    FlushStores(b, batch, o, Serve(s, log));
  }

  /** What one flush leaves is a prefix of its deduplicated batch: all of it, or what it counted plus at most a chunk. */
  lemma TakenCounts(b: Backend, batch: seq<Row>, o: FlushResult)
    requires b.ClickHouse? && Allowed(Store(b), batch, o)
    ensures Taken(b, batch, o) <= Deduped(batch)
    ensures Recovered(o.sent) ==> Taken(b, batch, o) == Deduped(batch) && o.flushed == |Deduped(batch)|
    ensures !InDoubt(o.sent) ==> |Taken(b, batch, o)| == o.flushed
    ensures InDoubt(o.sent) ==> exists c | c in Split(b, Deduped(batch)) :: |Taken(b, batch, o)| == o.flushed + |c|
  {
    var chunks := Split(b, Deduped(batch));
    var k := Acks(o.sent);
    ClickHouseSplitKeeps(b, Deduped(batch));
    DoubtIsNext(chunks, o.sent);
    hide Split;
    hide Deduped;
    FlattenSplit(chunks, Held(o.sent));
    if InDoubt(o.sent) {
      FlattenNext(chunks, k);
      assert chunks[k] in chunks;
    } else if Recovered(o.sent) {
      assert chunks[..|chunks|] == chunks;
    }
  }

  /** Only an unacknowledged chunk can be in doubt. */
  lemma DoubtIsNext(chunks: seq<seq<Row>>, sent: seq<Entry>)
    requires Resumes(chunks, sent)
    ensures Held(sent) <= |chunks|
    ensures InDoubt(sent) ==> Acks(sent) < |chunks| && !Recovered(sent)
  {
    if sent != [] {
      ResumesAt(chunks, sent, |sent| - 1);
    }
  }

  /** The batches whose flush has returned. */
  function Finished(t: State): seq<seq<Row>> {
    if |t.results| <= |t.handed| then t.handed[..|t.results|] else t.handed
  }

  /** No token of these batches repeats or is in the window already. */
  predicate FreshTokens(b: Backend, batches: seq<seq<Row>>, server: Server) {
    DistinctTokens(AllChunks(b, batches)) && server.window !! ChunkTokens(AllChunks(b, batches))
  }

  lemma FinishedTracked(cfg: Config, t: State)
    requires Tracked(cfg, t)
    ensures |Finished(t)| == |t.results| && Settled(cfg.writer, Finished(t), t.results)
    ensures t.flushed == AllFlushed(t.results)
    ensures t.flushed + t.flushDropped == |AllDeduped(Finished(t))|
  {
    hide Allowed;
    hide AllDeduped;
    hide AllFlushed;
  }

  /**
    At any point of any run against ClickHouse, with tokens that do not repeat,
    the table holds, after its earlier rows, what each finished flush took, in
    the order the batches were handed over.
  */
  lemma BufferStores(cfg: Config, steps: seq<Step>, server: Server)
    requires Valid(cfg) && Runs(cfg, Init(), steps)
    requires cfg.writer.Store? && cfg.writer.b.ClickHouse?
    requires FreshTokens(cfg.writer.b, Finished(After(cfg, Init(), steps)), server)
    ensures var t := After(cfg, Init(), steps);
            && |Finished(t)| == |t.results|
            && Settled(cfg.writer, Finished(t), t.results)
            && Serve(server, LogOf(t.results)).rows == server.rows + AllTaken(cfg.writer.b, Finished(t), t.results)
  {
    hide Deduped;
    RunTracks(cfg, Init(), steps);
    var t := After(cfg, Init(), steps);
    hide After;
    hide Runs;
    FinishedTracked(cfg, t);
    hide Finished;
    hide Settled;
    hide Tracked;
    FlushesStore(cfg.writer.b, Finished(t), t.results, server);
  }

  lemma TakenBounds(b: Backend, batch: seq<Row>, o: FlushResult)
    requires b.ClickHouse? && Allowed(Store(b), batch, o)
    ensures o.flushed <= |Taken(b, batch, o)| <= |Deduped(batch)|
    ensures !InDoubt(o.sent) ==> |Taken(b, batch, o)| == o.flushed
  {
    hide Deduped;
    hide Taken;
    hide InDoubt;
    TakenCounts(b, batch, o);
    hide Allowed;
  }

  predicate NoDoubt(results: seq<FlushResult>) {
    forall i | 0 <= i < |results| :: !InDoubt(results[i].sent)
  }

  lemma {:induction false} AllTakenCounts(b: Backend, batches: seq<seq<Row>>, results: seq<FlushResult>)
    requires b.ClickHouse? && |results| == |batches| && Settled(Store(b), batches, results)
    ensures AllFlushed(results) <= |AllTaken(b, batches, results)| <= |AllDeduped(batches)|
    ensures NoDoubt(results) ==> |AllTaken(b, batches, results)| == AllFlushed(results)
    decreases |results|
  {
    hide Deduped;
    hide Taken;
    hide InDoubt;
    hide Allowed;
    if results != [] {
      var n := |results| - 1;
      assert Allowed(Store(b), batches[n], results[n]);
      TakenBounds(b, batches[n], results[n]);
      AllTakenCounts(b, batches[..n], results[..n]);
    }
  }

  /**
    The counters against the table: it gained at least the rows counted as
    flushed, and of those counted as dropped at most the ones in doubt; with
    nothing in doubt, exactly the flushed ones.
  */
  lemma BufferCounts(cfg: Config, steps: seq<Step>, server: Server)
    requires Valid(cfg) && Runs(cfg, Init(), steps)
    requires cfg.writer.Store? && cfg.writer.b.ClickHouse?
    requires FreshTokens(cfg.writer.b, Finished(After(cfg, Init(), steps)), server)
    ensures var t := After(cfg, Init(), steps);
            var gained := |Serve(server, LogOf(t.results)).rows| - |server.rows|;
            && t.flushed <= gained <= t.flushed + t.flushDropped
            && (NoDoubt(t.results) ==> gained == t.flushed)
  {
    RunTracks(cfg, Init(), steps);
    BufferStores(cfg, steps, server);
    var t := After(cfg, Init(), steps);
    hide After;
    hide Runs;
    FinishedTracked(cfg, t);
    hide Tracked;
    hide Finished;
    hide Settled;
    hide FreshTokens;
    hide Serve;
    hide NoDoubt;
    hide LogOf;
    hide AllTaken;
    hide AllDeduped;
    hide AllFlushed;
    AllTakenCounts(cfg.writer.b, Finished(t), t.results);
  }

  // ---------------------------------------------------------------- when tokens do not repeat

  lemma {:induction false} AllChunksRows(b: Backend, batches: seq<seq<Row>>)
    requires b.ClickHouse?
    ensures Flatten(AllChunks(b, batches)) == AllDeduped(batches)
    ensures forall c | c in AllChunks(b, batches) :: c != []
  {
    if batches != [] {
      hide Deduped;
      var n := |batches| - 1;
      var earlier, chunks := AllChunks(b, batches[..n]), Split(b, Deduped(batches[n]));
      AllChunksRows(b, batches[..n]);
      FlattenConcat(earlier, chunks);
      ClickHouseSplitKeeps(b, Deduped(batches[n]));
      SplitKeepsRows(b, Deduped(batches[n]));
      hide Split;
    }
  }

  /** No query id in two batches: enough for all tokens of the run to differ. */
  lemma DistinctBatches(b: Backend, batches: seq<seq<Row>>)
    requires b.ClickHouse? && Distinct(AllDeduped(batches))
    ensures DistinctTokens(AllChunks(b, batches))
  {
    AllChunksRows(b, batches);
    DistinctIdsDistinctTokens(AllChunks(b, batches));
  }
}
