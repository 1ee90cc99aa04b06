/**
  The buffer of internal/ingest/buffer.go as a state machine: producers calling
  Add, a closer, and the one flusher goroutine (run and drain), interleaved in
  any order. The inside of a flush is module Flushing; here it starts, lets
  others move, and ends in any way Flush's contract allows.
*/
module BufferRuns {
  import opened Rows
  import opened Chunking
  import opened Splitting
  import opened Dedup
  import opened Delivery
  import opened Inserting
  import opened Flushing

  datatype Config = Config(batchSize: int, capacity: int, writer: Writer)

  /** What a finished flush sent, and how many rows it counted as flushed. */
  datatype FlushResult = FlushResult(sent: seq<Entry>, flushed: nat)

  /** The part of Buffer.Flush's contract that concerns its rows. */
  predicate Allowed(w: Writer, batch: seq<Row>, o: FlushResult) {
    && o.flushed <= |Deduped(batch)|
    && (Recovered(o.sent) ==> o.flushed == |Deduped(batch)|)
    && Delivered(w, Deduped(batch), o.sent, o.flushed)
  }

  /** Where the flusher is: run's select, drain's loop, behind it, or returned (done is closed). */
  datatype Phase = Selecting | Draining | Closing | Done

  datatype State = State(
    ch: seq<Row>,            // the channel's buffer
    stop: bool,              // stop is closed
    phase: Phase,
    batch: seq<Row>,         // run's batch slice
    flushing: Option<seq<Row>>,  // the batch inside flush, if the flusher is in there
    // observers
    enqueued: seq<Row>,      // every row sent on the channel, in order
    handed: seq<seq<Row>>,   // every batch handed to flush, in order
    results: seq<FlushResult>,  // how the flushes that have returned ended, in order
    addDropped: nat,         // Dropped by Add
    flushed: nat,            // Flushed by flush
    flushDropped: nat,       // Dropped by flush
    collapsed: nat,          // rows dedupe merged away
    drained: Option<nat>)    // how many rows had been enqueued when drain saw the channel empty

  datatype Step =
    | AddSends(r: Row)       // Add, case b.ch <- r
    | AddDrops               // Add, case <-b.stop or default
    | CloseStop              // Close
    | Receive                // case r := <-b.ch, in run or drain
    | Tick                   // case <-ticker.C
    | SeeStop                // case <-b.stop in run
    | DrainEmpty             // default in drain, and run's last flush
    | FlushReturns(o: FlushResult)
    | Return                 // run returns

  function Init(): State {
    State([], false, Selecting, [], None, [], [], [], 0, 0, 0, 0, None)
  }

  /** Go's select picks any ready case; default only when none is. */
  predicate Enabled(cfg: Config, s: State, step: Step) {
    match step
    case AddSends(_) => |s.ch| < cfg.capacity
    case AddDrops => s.stop || |s.ch| >= cfg.capacity
    case CloseStop => true
    case Receive => (s.phase == Selecting || s.phase == Draining) && s.flushing.None? && s.ch != []
    case Tick => s.phase == Selecting && s.flushing.None?
    case SeeStop => s.phase == Selecting && s.flushing.None? && s.stop
    case DrainEmpty => s.phase == Draining && s.flushing.None? && s.ch == []
    case FlushReturns(o) => s.flushing.Some? && Allowed(cfg.writer, s.flushing.value, o)
    case Return => s.phase == Closing && s.flushing.None?
  }

  /** run's local flush: nothing for an empty batch, otherwise hand it over and reuse the slice. */
  function HandOver(s: State): State {
    if s.batch == [] then s
    else s.(flushing := Some(s.batch), handed := s.handed + [s.batch], batch := [])
  }

  function Next(cfg: Config, s: State, step: Step): State
    requires Enabled(cfg, s, step)
  {
    match step
    case AddSends(r) => s.(ch := s.ch + [r], enqueued := s.enqueued + [r])
    case AddDrops => s.(addDropped := s.addDropped + 1)
    case CloseStop => s.(stop := true)
    case Receive =>
      var t := s.(ch := s.ch[1..], batch := s.batch + [s.ch[0]]);
      if |t.batch| >= cfg.batchSize then HandOver(t) else t
    case Tick => HandOver(s)
    case SeeStop => s.(phase := Draining)
    case DrainEmpty => HandOver(s.(phase := Closing, drained := Some(|s.enqueued|)))
    case FlushReturns(o) =>
      var b := s.flushing.value;
      DedupedShrinks(b);
      s.(flushing := None, results := s.results + [o], flushed := s.flushed + o.flushed,
         flushDropped := s.flushDropped + (|Deduped(b)| - o.flushed),
         collapsed := s.collapsed + (|b| - |Deduped(b)|))
    case Return => s.(phase := Done)
  }

  lemma DedupedShrinks(b: seq<Row>)
    ensures |Deduped(b)| <= |b|
  {
    DedupedIds(b);
  }

  /** A run: each step enabled where it is taken. */
  predicate Runs(cfg: Config, s: State, steps: seq<Step>)
    decreases |steps|
  {
    steps == [] || (Enabled(cfg, s, steps[0]) && Runs(cfg, Next(cfg, s, steps[0]), steps[1..]))
  }

  function After(cfg: Config, s: State, steps: seq<Step>): State
    requires Runs(cfg, s, steps)
    decreases |steps|
  {
    if steps == [] then s else After(cfg, Next(cfg, s, steps[0]), steps[1..])
  }

  // ---------------------------------------------------------------- what every run keeps

  /** First in, first out: nothing lost, nothing twice, nothing overtaken. */
  predicate Fifo(s: State) {
    s.enqueued == Flatten(s.handed) + s.batch + s.ch
  }

  function InFlush(s: State): nat {
    if s.flushing.Some? then |s.flushing.value| else 0
  }

  /** Every enqueued row is accounted for. */
  predicate Conserved(s: State) {
    |s.enqueued| == s.flushed + s.flushDropped + s.collapsed + InFlush(s) + |s.batch| + |s.ch|
  }

  /** Batches are never empty nor over size, the channel never over capacity. */
  predicate Bounded(cfg: Config, s: State) {
    && |s.ch| <= cfg.capacity
    && |s.batch| < cfg.batchSize
    && (forall i | 0 <= i < |s.handed| :: 0 < |s.handed[i]| <= cfg.batchSize)
    && (s.flushing.Some? ==> s.handed != [] && s.flushing.value == s.handed[|s.handed| - 1])
  }

  /** The shutdown: once drain saw the channel empty, the flusher has everything enqueued until then and nothing since. */
  predicate ShutDown(s: State) {
    && (s.phase != Selecting ==> s.stop)
    && (s.phase == Done ==> s.flushing.None?)
    && (s.drained.Some? <==> s.phase == Closing || s.phase == Done)
    && (s.drained.Some? ==>
          && s.drained.value <= |s.enqueued|
          && s.batch == []
          && Flatten(s.handed) == s.enqueued[..s.drained.value]
          && s.ch == s.enqueued[s.drained.value..])
  }

  predicate Inv(cfg: Config, s: State) {
    Fifo(s) && Conserved(s) && Bounded(cfg, s) && ShutDown(s)
  }

  predicate Valid(cfg: Config) {
    cfg.batchSize >= 1 && cfg.capacity >= 1
  }

  lemma HandOverKeeps(cfg: Config, s: State)
    requires s.flushing.None? && Fifo(s) && Conserved(s)
    requires |s.ch| <= cfg.capacity && |s.batch| <= cfg.batchSize && cfg.batchSize >= 1
    requires forall i | 0 <= i < |s.handed| :: 0 < |s.handed[i]| <= cfg.batchSize
    ensures Fifo(HandOver(s)) && Conserved(HandOver(s)) && Bounded(cfg, HandOver(s))
    ensures HandOver(s).batch == [] && Flatten(HandOver(s).handed) == Flatten(s.handed) + s.batch
  {
    FlattenSnoc(s.handed, s.batch);
    assert s.batch == [] ==> Flatten(s.handed) + s.batch == Flatten(s.handed);
  }

  lemma AddKeeps(cfg: Config, s: State, r: Row)
    requires Inv(cfg, s) && Enabled(cfg, s, AddSends(r))
    ensures Inv(cfg, Next(cfg, s, AddSends(r)))
  {
    hide Flatten;
    assert Flatten(s.handed) + s.batch + (s.ch + [r]) == s.enqueued + [r];
    assert s.drained.Some? ==> (s.enqueued + [r])[..s.drained.value] == s.enqueued[..s.drained.value];
  }

  lemma ReceiveKeeps(cfg: Config, s: State)
    requires Valid(cfg) && Inv(cfg, s) && Enabled(cfg, s, Receive)
    ensures Inv(cfg, Next(cfg, s, Receive))
    ensures Next(cfg, s, Receive).flushing.Some? <==> |s.batch| + 1 == cfg.batchSize
    ensures Next(cfg, s, Receive).flushing.Some? ==> |Next(cfg, s, Receive).flushing.value| == cfg.batchSize
  {
    hide Flatten;
    var t := s.(ch := s.ch[1..], batch := s.batch + [s.ch[0]]);
    assert Fifo(t) by {
      assert s.ch == [s.ch[0]] + s.ch[1..];
    }
    HandOverKeeps(cfg, t);
    hide Fifo;
  }

  lemma DrainEmptyKeeps(cfg: Config, s: State)
    requires Valid(cfg) && Inv(cfg, s) && Enabled(cfg, s, DrainEmpty)
    ensures Inv(cfg, Next(cfg, s, DrainEmpty))
  {
    hide Flatten;
    HandOverKeeps(cfg, s.(phase := Closing, drained := Some(|s.enqueued|)));
    assert s.enqueued[..|s.enqueued|] == s.enqueued == Flatten(s.handed) + s.batch;
  }

  /** Whatever step comes next, it keeps the invariant. */
  lemma StepKeeps(cfg: Config, s: State, step: Step)
    requires Valid(cfg) && Inv(cfg, s) && Enabled(cfg, s, step)
    ensures Inv(cfg, Next(cfg, s, step))
  {
    match step
    case AddSends(r) => AddKeeps(cfg, s, r);
    case Receive => ReceiveKeeps(cfg, s);
    case Tick => HandOverKeeps(cfg, s);
    case DrainEmpty => DrainEmptyKeeps(cfg, s);
    case FlushReturns(_) =>
      hide Deduped;
      hide Delivered;
      DedupedShrinks(s.flushing.value);
    case AddDrops =>
    case CloseStop =>
    case SeeStop =>
    case Return =>
  }

  /** Every state of every run, under any interleaving, keeps all of this. */
  lemma {:induction false} RunKeeps(cfg: Config, s: State, steps: seq<Step>)
    requires Valid(cfg) && Inv(cfg, s) && Runs(cfg, s, steps)
    ensures Inv(cfg, After(cfg, s, steps))
    decreases |steps|
  {
    if steps != [] {
      StepKeeps(cfg, s, steps[0]);
      RunKeeps(cfg, Next(cfg, s, steps[0]), steps[1..]);
    }
  }

  lemma BufferSafe(cfg: Config, steps: seq<Step>)
    requires Valid(cfg) && Runs(cfg, Init(), steps)
    ensures Inv(cfg, After(cfg, Init(), steps))
  {
    RunKeeps(cfg, Init(), steps);
  }

  // ---------------------------------------------------------------- what single steps do

  /** Add: while the buffer is open, a row is dropped exactly when the channel is full; no row enters a full channel. */
  lemma AddDecides(cfg: Config, s: State, r: Row)
    requires Valid(cfg) && Inv(cfg, s)
    ensures Enabled(cfg, s, AddSends(r)) <==> |s.ch| != cfg.capacity
    ensures !s.stop ==> (Enabled(cfg, s, AddDrops) <==> |s.ch| == cfg.capacity)
    ensures Enabled(cfg, s, AddSends(r)) || Enabled(cfg, s, AddDrops)
    ensures Enabled(cfg, s, AddSends(r)) ==>
              Next(cfg, s, AddSends(r)).ch == s.ch + [r] && Next(cfg, s, AddSends(r)).addDropped == s.addDropped
    ensures Enabled(cfg, s, AddDrops) ==>
              Next(cfg, s, AddDrops).ch == s.ch && Next(cfg, s, AddDrops).addDropped == s.addDropped + 1
  {
    hide Flatten;
  }

  /** The ticker can always fire on a flusher at its select, and then flushes whatever is batched. */
  lemma TickFlushes(cfg: Config, s: State)
    requires s.phase == Selecting && s.flushing.None?
    ensures Enabled(cfg, s, Tick)
    ensures s.batch != [] ==>
              && Next(cfg, s, Tick).flushing == Some(s.batch)
              && Next(cfg, s, Tick).handed == s.handed + [s.batch]
              && Next(cfg, s, Tick).batch == []
              && Next(cfg, s, Tick).ch == s.ch
              && Next(cfg, s, Tick).phase == Selecting
    ensures s.batch == [] ==> Next(cfg, s, Tick) == s
  {}

  /** A receive takes the oldest queued row, into the batch or, with it, into flush. */
  lemma ReceiveTakes(cfg: Config, s: State)
    requires Valid(cfg) && Inv(cfg, s) && Enabled(cfg, s, Receive)
    ensures var t, more := Next(cfg, s, Receive), s.batch + [s.ch[0]];
            && t.ch == s.ch[1..] && t.phase == s.phase
            && if |more| == cfg.batchSize
               then t.batch == [] && t.flushing == Some(more) && t.handed == s.handed + [more]
               else t.batch == more && t.flushing == None && t.handed == s.handed
  {
    hide Flatten;
  }

  /** Close closes stop, which lets a flusher at its select start draining, and nothing else does. */
  lemma StopStarts(cfg: Config, s: State)
    requires s.phase == Selecting && s.flushing.None?
    ensures Enabled(cfg, s, CloseStop) && Next(cfg, s, CloseStop) == s.(stop := true)
    ensures Enabled(cfg, s, SeeStop) <==> s.stop
    ensures s.stop ==> Next(cfg, s, SeeStop) == s.(phase := Draining)
  {}

  // ---------------------------------------------------------------- shutdown

  function SentBy(steps: seq<Step>): nat {
    if steps == [] then 0 else (if steps[0].AddSends? then 1 else 0) + SentBy(steps[1..])
  }

  function AddCalls(steps: seq<Step>): nat {
    if steps == [] then 0 else (if steps[0].AddSends? || steps[0].AddDrops? then 1 else 0) + AddCalls(steps[1..])
  }

  /** What a run adds to the enqueue history is what its Adds sent; every Add is counted once, as enqueued or dropped. */
  lemma {:induction false} RunAdds(cfg: Config, s: State, steps: seq<Step>)
    requires Valid(cfg) && Inv(cfg, s) && Runs(cfg, s, steps)
    ensures |After(cfg, s, steps).enqueued| == |s.enqueued| + SentBy(steps)
    ensures |After(cfg, s, steps).enqueued| + After(cfg, s, steps).addDropped
            == |s.enqueued| + s.addDropped + AddCalls(steps)
    ensures s.drained.Some? ==> After(cfg, s, steps).drained == s.drained
    ensures s.drained.None? && After(cfg, s, steps).drained.Some? ==>
              After(cfg, s, steps).drained.value >= |s.enqueued|
    decreases |steps|
  {
    if steps != [] {
      hide Inv;
      StepKeeps(cfg, s, steps[0]);
      StepAdds(cfg, s, steps[0]);
      RunAdds(cfg, Next(cfg, s, steps[0]), steps[1..]);
    }
  }

  lemma StepAdds(cfg: Config, s: State, step: Step)
    requires Inv(cfg, s) && Enabled(cfg, s, step)
    ensures |Next(cfg, s, step).enqueued| == |s.enqueued| + (if step.AddSends? then 1 else 0)
    ensures Next(cfg, s, step).addDropped == s.addDropped + (if step.AddDrops? then 1 else 0)
    ensures s.drained.Some? ==> Next(cfg, s, step).drained == s.drained
    ensures s.drained.None? && Next(cfg, s, step).drained.Some? ==>
              Next(cfg, s, step).drained.value == |Next(cfg, s, step).enqueued|
  {
    hide Deduped;
  }

  /**
    When run has returned, the rows handed to flush, each once and in order, are
    exactly those enqueued before drain saw the channel empty; the others are
    still in the channel.
  */
  lemma AfterDone(cfg: Config, steps: seq<Step>)
    requires Valid(cfg) && Runs(cfg, Init(), steps) && After(cfg, Init(), steps).phase == Done
    ensures var s := After(cfg, Init(), steps);
            && s.drained.Some? && s.drained.value <= |s.enqueued|
            && s.batch == [] && s.flushing.None?
            && Flatten(s.handed) == s.enqueued[..s.drained.value]
            && s.ch == s.enqueued[s.drained.value..]
            && s.flushed + s.flushDropped + s.collapsed == s.drained.value
  {
    BufferSafe(cfg, steps);
  }

  /** Without an Add after stop is closed, nothing is left behind. */
  lemma CleanShutdown(cfg: Config, s: State, steps: seq<Step>)
    requires Valid(cfg) && Inv(cfg, s) && Runs(cfg, s, steps)
    requires s.drained.None? && SentBy(steps) == 0
    requires After(cfg, s, steps).phase == Done
    ensures After(cfg, s, steps).ch == [] && After(cfg, s, steps).batch == []
    ensures Flatten(After(cfg, s, steps).handed) == s.enqueued == After(cfg, s, steps).enqueued
  {
    RunKeeps(cfg, s, steps);
    RunAdds(cfg, s, steps);
    EnqueuedGrows(cfg, s, steps);
    var t := After(cfg, s, steps);
    hide After;
    assert t.drained.value == |t.enqueued|;
    assert t.enqueued[..|t.enqueued|] == t.enqueued;
  }

  lemma {:induction false} EnqueuedGrows(cfg: Config, s: State, steps: seq<Step>)
    requires Runs(cfg, s, steps)
    ensures s.enqueued <= After(cfg, s, steps).enqueued
    decreases |steps|
  {
    if steps != [] {
      EnqueuedGrows(cfg, Next(cfg, s, steps[0]), steps[1..]);
    }
  }

  // ---------------------------------------------------------------- progress of the shutdown

  predicate FlusherStep(step: Step) {
    step.Receive? || step.Tick? || step.SeeStop? || step.DrainEmpty? || step.FlushReturns? || step.Return?
  }

  /** What the flusher still has to do once it drains; the channel's length is what drain's loop counts down. */
  function Work(s: State): nat {
    2 * |s.ch| + (if s.flushing.Some? then 1 else 0)
    + (match s.phase case Selecting => 6 case Draining => 4 case Closing => 1 case Done => 0)
  }

  /** A flush can always return: its first statement may be refused for good. */
  lemma FlushCanReturn(w: Writer, batch: seq<Row>) returns (o: FlushResult)
    requires batch != []
    ensures Allowed(w, batch, o)
  {
    var all := Deduped(batch);
    DedupedIds(batch);
    hide Deduped;
    var e := Entry(Chunks(w, all)[0], Failed(false, true, 0));
    o := FlushResult([e], 0);
    if w.Store? {
      RefusedByStore(w, all, e);
    } else {
      RefusedByOther(w, all, e);
    }
  }

  lemma RefusedByStore(w: Writer, all: seq<Row>, e: Entry)
    requires w.Store? && all != [] && e.rows == Chunks(w, all)[0] && e.outcome.Failed?
    ensures Delivered(w, all, [e], 0)
  {
    ChunksOfStore(w, all);
    OneAnswer(e);
    ResumesSnoc(Chunks(w, all), [], e);
    assert [] + [e] == [e];
    hide Split;
    hide Resumes;
    hide Acks;
  }

  lemma RefusedByOther(w: Writer, all: seq<Row>, e: Entry)
    requires w.Other? && e == Entry(Chunks(w, all)[0], Failed(false, true, 0))
    ensures Delivered(w, all, [e], 0)
  {
    FollowOne(w, all, [], Place(all, 0), Chunks(w, all), e);
    assert all[0..] == all && [] + [e] == [e];
    hide Follows;
    hide PlaceAfter;
  }

  /** Handing over comes with a flush, and the flusher moves on. */
  lemma MoveShrinks(cfg: Config, s: State, step: Step)
    requires Enabled(cfg, s, step) && FlusherStep(step) && (s.phase == Draining || s.phase == Closing)
    ensures Work(Next(cfg, s, step)) < Work(s)
  {
    hide Deduped;
    hide Allowed;
  }

  /** A shutting-down flusher that has not returned can move, and every move of its own brings the end nearer. */
  lemma DrainProgress(cfg: Config, s: State)
    requires Valid(cfg) && Inv(cfg, s) && (s.phase == Draining || s.phase == Closing)
    ensures exists step | FlusherStep(step) :: Enabled(cfg, s, step)
    ensures forall step | FlusherStep(step) && Enabled(cfg, s, step) :: Work(Next(cfg, s, step)) < Work(s)
  {
    forall step | FlusherStep(step) && Enabled(cfg, s, step) ensures Work(Next(cfg, s, step)) < Work(s) {
      MoveShrinks(cfg, s, step);
    }
    CanMove(cfg, s);
  }

  lemma CanMove(cfg: Config, s: State)
    requires Inv(cfg, s) && (s.phase == Draining || s.phase == Closing)
    ensures exists step | FlusherStep(step) :: Enabled(cfg, s, step)
  {
    hide Allowed;
    hide Flatten;
    if s.flushing.Some? {
      var o := FlushCanReturn(cfg.writer, s.flushing.value);
      assert FlusherStep(FlushReturns(o)) && Enabled(cfg, s, FlushReturns(o));
    } else if s.phase == Closing {
      assert FlusherStep(Return) && Enabled(cfg, s, Return);
    } else if s.ch == [] {
      assert FlusherStep(DrainEmpty) && Enabled(cfg, s, DrainEmpty);
    } else {
      assert FlusherStep(Receive) && Enabled(cfg, s, Receive);
    }
  }

  /** Left to itself, the flusher returns within Work(s) moves, a flush counting as two. */
  lemma {:induction false} DrainTerminates(cfg: Config, s: State, steps: seq<Step>)
    requires Valid(cfg) && Inv(cfg, s) && s.phase != Selecting
    requires Runs(cfg, s, steps) && forall i | 0 <= i < |steps| :: FlusherStep(steps[i])
    ensures |steps| <= Work(s)
    decreases |steps|
  {
    if steps != [] {
      hide Next;
      hide Work;
      if s.phase == Done {
        DoneRests(cfg, s, steps[0]);
      } else {
        MoveShrinks(cfg, s, steps[0]);
        StepKeeps(cfg, s, steps[0]);
        PhaseAfter(cfg, s, steps[0]);
        DrainTerminates(cfg, Next(cfg, s, steps[0]), steps[1..]);
      }
    }
  }

  // ---------------------------------------------------------------- what the flusher can always reach

  lemma RunsCons(cfg: Config, s: State, step: Step, rest: seq<Step>)
    requires Enabled(cfg, s, step) && Runs(cfg, Next(cfg, s, step), rest)
    ensures Runs(cfg, s, [step] + rest)
    ensures After(cfg, s, [step] + rest) == After(cfg, Next(cfg, s, step), rest)
  {
    hide Next;
    assert ([step] + rest)[1..] == rest;
  }

  /** Once stop is closed the flusher always has a step to make that brings the end nearer. */
  lemma StopStep(cfg: Config, s: State) returns (step: Step)
    requires Valid(cfg) && Inv(cfg, s) && s.stop && s.phase != Done
    ensures FlusherStep(step) && Enabled(cfg, s, step)
    ensures Work(Next(cfg, s, step)) < Work(s) && Next(cfg, s, step).stop
  {
    hide Deduped;
    hide Delivered;
    hide Flatten;
    if s.flushing.Some? {
      var o := FlushCanReturn(cfg.writer, s.flushing.value);
      step := FlushReturns(o);
    } else {
      hide Allowed;
      step := match s.phase
        case Selecting => SeeStop
        case Draining => if s.ch == [] then DrainEmpty else Receive
        case Closing => Return
        case Done => Return;
    }
  }

  /** From any state in which stop is closed, the flusher alone can run to its end. */
  lemma {:induction false} StopReachesDone(cfg: Config, s: State) returns (steps: seq<Step>)
    requires Valid(cfg) && Inv(cfg, s) && s.stop
    ensures Runs(cfg, s, steps) && After(cfg, s, steps).phase == Done
    ensures forall i | 0 <= i < |steps| :: FlusherStep(steps[i])
    decreases Work(s)
  {
    steps := [];
    if s.phase != Done {
      var step := StopStep(cfg, s);
      StepKeeps(cfg, s, step);
      hide Next;
      hide Inv;
      hide Work;
      hide Enabled;
      var rest := StopReachesDone(cfg, Next(cfg, s, step));
      RunsCons(cfg, s, step, rest);
      steps := [step] + rest;
    }
  }

  /** What is still to be handed over while the buffer is open. */
  function Backlog(s: State): nat {
    3 * |s.ch| + (if s.batch == [] then 0 else 2) + (if s.flushing.Some? then 1 else 0)
  }

  predicate OpenStep(step: Step) {
    step.Receive? || step.Tick? || step.FlushReturns?
  }

  lemma BacklogStep(cfg: Config, s: State) returns (step: Step)
    requires Valid(cfg) && Inv(cfg, s) && s.phase == Selecting && Backlog(s) > 0
    ensures OpenStep(step) && Enabled(cfg, s, step) && Backlog(Next(cfg, s, step)) < Backlog(s)
    ensures Next(cfg, s, step).phase == Selecting && Next(cfg, s, step).enqueued == s.enqueued
  {
    hide Deduped;
    hide Delivered;
    hide Flatten;
    if s.flushing.Some? {
      var o := FlushCanReturn(cfg.writer, s.flushing.value);
      step := FlushReturns(o);
    } else {
      hide Allowed;
      step := if s.ch == [] then Tick else Receive;
    }
  }

  /** While the buffer is open, receives, ticks and flushes alone can bring every accepted row into a flush. */
  lemma {:induction false} CatchesUp(cfg: Config, s: State) returns (steps: seq<Step>)
    requires Valid(cfg) && Inv(cfg, s) && s.phase == Selecting
    ensures Runs(cfg, s, steps) && forall i | 0 <= i < |steps| :: OpenStep(steps[i])
    ensures var t := After(cfg, s, steps);
            t.phase == Selecting && t.flushing.None? && t.enqueued == s.enqueued == Flatten(t.handed)
    decreases Backlog(s)
  {
    steps := [];
    if Backlog(s) == 0 {
      assert s.batch == [] && s.ch == [] && Flatten(s.handed) + [] + [] == Flatten(s.handed);
    } else {
      var step := BacklogStep(cfg, s);
      StepKeeps(cfg, s, step);
      hide Next;
      hide Inv;
      hide Backlog;
      hide Enabled;
      hide Flatten;
      var rest := CatchesUp(cfg, Next(cfg, s, step));
      RunsCons(cfg, s, step, rest);
      steps := [step] + rest;
    }
  }

  lemma DoneRests(cfg: Config, s: State, step: Step)
    requires Inv(cfg, s) && s.phase == Done && FlusherStep(step)
    ensures !Enabled(cfg, s, step)
  {}

  lemma PhaseAfter(cfg: Config, s: State, step: Step)
    requires Enabled(cfg, s, step) && s.phase != Selecting
    ensures Next(cfg, s, step).phase != Selecting
  {
    hide Deduped;
    hide Allowed;
  }
}
