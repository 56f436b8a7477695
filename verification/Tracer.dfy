/** Lazy tracing and checkpoints. */
module Tracer {
  import opened Prelude
  import opened Bits
  import opened Emulator

  function Reversed<T>(s: seq<T>): (r: seq<T>)
    ensures |r| == |s|
  {
    if s == [] then [] else Reversed(s[1..]) + [s[0]]
  }

  lemma {:induction false} ReversedLast<T>(s: seq<T>)
    requires s != []
    ensures Reversed(s) == [s[|s| - 1]] + Reversed(s[..|s| - 1])
  {
    if |s| > 1 {
      ReversedLast(s[1..]);
      assert s[1..][..|s| - 2] == s[..|s| - 1][1..];
    }
  }

  lemma {:induction false} ReversedTwice<T>(s: seq<T>)
    ensures Reversed(Reversed(s)) == s
  {
    if s != [] {
      var r := Reversed(s[1..]) + [s[0]];
      ReversedLast(r);
      assert r[..|r| - 1] == Reversed(s[1..]);
      ReversedTwice(s[1..]);
    }
  }

  /** A saved processor state with the memory and the number of cycles to replay from it. */
  datatype Saved<!P, !C> = Saved(e: Emu<P>, current: seq<C>, remaining: nat)

  /** current holds the cycles of the last tick not handed out yet, the next one last. */
  datatype Live<!P, !C> = Live(
    e: Emu<P>, current: seq<C>, steps: nat, finished: bool, crashed: bool,
    saved: Option<Saved<P, C>>, finalMemory: Option<MemoryData>)

  function TakeMemory(d: MemoryData): (MemoryData, MemoryData) {
    (MemoryData(d.memory, d.numDoublewords, None), d.(memory := map[]))
  }

  /** A crash of the host ends the run. */
  function LazyStep<P(!new), C>(mc: Machine<P, C>, t: Live<P, C>): (Live<P, C>, Option<C>)
    requires Bounded(mc)
  {
    if t.current != [] then
      var last := |t.current| - 1;
      (t.(steps := t.steps + 1, current := t.current[..last]), Some(t.current[last]))
    else
      var s := StepEmulator(mc, t.e);
      if s.Crashed? then (t.(finished := true, crashed := true), None)
      else if s.cycles == [] then
        var (taken, left) := TakeMemory(s.e.data);
        (t.(e := s.e.(data := left), finished := true, finalMemory := Some(taken)), None)
      else
        var stack := Reversed(s.cycles);
        var last := |stack| - 1;
        (t.(e := s.e, steps := t.steps + 1, current := stack[..last]), Some(stack[last]))
  }

  /** Skips up to n cycles, stopping when there are no more. */
  function Dropping<P(!new), C>(mc: Machine<P, C>, t: Live<P, C>, n: nat): Live<P, C>
    requires Bounded(mc)
    decreases n
  {
    if n == 0 || t.finished then t
    else
      var (u, c) := LazyStep(mc, t);
      if c.None? then u else Dropping(mc, u, n - 1)
  }

  /** A replay never runs past the cycles it was saved for. */
  function ReplayStep<P(!new), C>(mc: Machine<P, C>, s: Saved<P, C>): (Saved<P, C>, Option<C>)
    requires Bounded(mc) && s.remaining > 0
  {
    if s.current != [] then
      var last := |s.current| - 1;
      (s.(remaining := s.remaining - 1, current := s.current[..last]), Some(s.current[last]))
    else
      var r := StepEmulator(mc, s.e);
      if r.Crashed? || r.cycles == [] then (s, None)
      else
        var stack := Reversed(r.cycles);
        var last := |stack| - 1;
        (Saved(r.e, stack[..last], s.remaining - 1), Some(stack[last]))
  }

  /** Everything a checkpoint replays. */
  function Replay<P(!new), C>(mc: Machine<P, C>, s: Saved<P, C>): seq<C>
    requires Bounded(mc)
    decreases s.remaining
  {
    if s.remaining == 0 then []
    else
      var (u, c) := ReplayStep(mc, s);
      if c.None? then [] else [c.value] + Replay(mc, u)
  }

  function Snapshot<P, C>(t: Live<P, C>): Saved<P, C> {
    Saved(t.e.(data := MemoryData(map[], 0, None)), t.current, 0)
  }

  function StartSavingCheckpoints<P, C>(t: Live<P, C>): Live<P, C> {
    t.(saved := Some(Snapshot(t)), e := t.e.(data := t.e.data.StartSavingCheckpoints()))
  }

  /** The state from the start of the chunk with the values its run touched first, and a new chunk. */
  function Checkpointed<P, C>(t: Live<P, C>): (Live<P, C>, Saved<P, C>)
    requires t.e.data.checkpoint.Some? && t.saved.Some?
  {
    var (recorded, data) := t.e.data.SaveCheckpoint();
    (t.(saved := Some(Snapshot(t)), e := t.e.(data := data), steps := 0),
     t.saved.value.(e := t.saved.value.e.(data := recorded), remaining := t.steps))
  }

  /** The cycles still to come. */
  ghost predicate Running<P(!new), C>(mc: Machine<P, C>, t: Live<P, C>, ticks: nat)
    requires Bounded(mc)
  {
    !t.crashed && (t.finished ==> t.current == []) && (!t.finished ==> Halts(mc, t.e, ticks))
  }

  ghost function Rest<P(!new), C>(mc: Machine<P, C>, t: Live<P, C>, ticks: nat): seq<C>
    requires Bounded(mc) && Running(mc, t, ticks)
  {
    if t.finished then [] else Reversed(t.current) + Trace(mc, t.e, ticks)
  }

  /** A step hands out the next cycle, or finds there is none and finishes. */
  lemma StepHandsOut<P(!new), C>(mc: Machine<P, C>, t: Live<P, C>, ticks: nat)
    requires Bounded(mc) && Running(mc, t, ticks) && !t.finished
    ensures
      var (u, c) := LazyStep(mc, t);
      && Running(mc, u, ticks)
      && u.saved == t.saved
      && var rest := Rest(mc, t, ticks);
      && (rest == [] ==> c.None? && u.finished && u.steps == t.steps)
      && (rest != [] ==> c == Some(rest[0]) && Rest(mc, u, ticks) == rest[1..] && !u.finished && u.steps == t.steps + 1)
  {
    hide Bounded, Trace, Halts, StepEmulator, Reversed;
    if t.current != [] {
      ReversedLast(t.current);
    } else {
      TickHandsOut(mc, t.e, ticks);
      var s := StepEmulator(mc, t.e);
      if s.cycles != [] {
        var stack := Reversed(s.cycles);
        ReversedTwice(s.cycles);
        ReversedLast(stack);
      }
    }
  }

  /** The run from here on: the cycles of the next tick and the run after it. */
  lemma TickHandsOut<P(!new), C>(mc: Machine<P, C>, e: Emu<P>, ticks: nat)
    requires Bounded(mc) && Halts(mc, e, ticks)
    ensures
      var s := StepEmulator(mc, e);
      && s.Stepped?
      && (s.cycles == [] ==> Trace(mc, e, ticks) == [])
      && (s.cycles != [] ==> Halts(mc, s.e, ticks) && Trace(mc, e, ticks) == s.cycles + Trace(mc, s.e, ticks))
  {
    hide Bounded;
    var s := StepEmulator(mc, e);
    if s.cycles != [] {
      MoreTicks(mc, s.e, ticks - 1);
    }
  }

  /** The memory when the program has terminated. */
  ghost function LastData<P(!new), C>(mc: Machine<P, C>, e: Emu<P>, ticks: nat): MemoryData
    requires Bounded(mc) && Halts(mc, e, ticks)
    decreases ticks
  {
    var s := StepEmulator(mc, e);
    if s.cycles == [] then s.e.data else LastData(mc, s.e, ticks - 1)
  }

  lemma {:induction false} LastDataMore<P(!new), C>(mc: Machine<P, C>, e: Emu<P>, ticks: nat)
    requires Bounded(mc) && Halts(mc, e, ticks)
    ensures Halts(mc, e, ticks + 1) && LastData(mc, e, ticks + 1) == LastData(mc, e, ticks)
    decreases ticks
  {
    hide Bounded;
    MoreTicks(mc, e, ticks);
    var s := StepEmulator(mc, e);
    if s.cycles != [] {
      LastDataMore(mc, s.e, ticks - 1);
    }
  }

  lemma LastDataNext<P(!new), C>(mc: Machine<P, C>, e: Emu<P>, ticks: nat)
    requires Bounded(mc) && Halts(mc, e, ticks)
    ensures
      var s := StepEmulator(mc, e);
      && s.Stepped?
      && (s.cycles == [] ==> LastData(mc, e, ticks) == s.e.data)
      && (s.cycles != [] ==> Halts(mc, s.e, ticks) && LastData(mc, e, ticks) == LastData(mc, s.e, ticks))
  {
    hide Bounded;
    var s := StepEmulator(mc, e);
    if s.cycles != [] {
      LastDataMore(mc, s.e, ticks - 1);
    }
  }

  /** A tracer that has handed out everything holds the memory the program left, without a record. */
  lemma {:induction false} FinalMemory<P(!new), C>(mc: Machine<P, C>, t: Live<P, C>, n: nat, ticks: nat)
    requires Bounded(mc) && Running(mc, t, ticks) && !t.finished
    ensures
      var u, d := Dropping(mc, t, n), LastData(mc, t.e, ticks);
      u.finished ==> u.finalMemory == Some(MemoryData(d.memory, d.numDoublewords, None))
    decreases n
  {
    hide Bounded, Halts, LastData, StepEmulator, Reversed;
    if n > 0 {
      StepHandsOut(mc, t, ticks);
      LastDataNext(mc, t.e, ticks);
      var (u, c) := LazyStep(mc, t);
      if c.Some? {
        FinalMemory(mc, u, n - 1, ticks);
      }
    }
  }

  /** Dropping hands out as many cycles as it can, and finishes exactly when there were too few. */
  lemma {:induction false} DroppingHandsOut<P(!new), C>(mc: Machine<P, C>, t: Live<P, C>, n: nat, ticks: nat)
    requires Bounded(mc) && Running(mc, t, ticks) && !t.finished
    ensures
      var u := Dropping(mc, t, n);
      var rest := Rest(mc, t, ticks);
      var k := Min(n, |rest|);
      && Running(mc, u, ticks) && u.saved == t.saved
      && Rest(mc, u, ticks) == rest[k..] && u.steps == t.steps + k && u.finished == (|rest| < n)
    decreases n
  {
    hide Bounded, Running, LazyStep, Rest;
    if n > 0 {
      StepHandsOut(mc, t, ticks);
      var (u, c) := LazyStep(mc, t);
      if c.Some? {
        DroppingHandsOut(mc, u, n - 1, ticks);
      } else {
        FinishedRest(mc, u, ticks);
      }
    }
  }

  lemma FinishedRest<P(!new), C>(mc: Machine<P, C>, t: Live<P, C>, ticks: nat)
    requires Bounded(mc) && Running(mc, t, ticks) && t.finished
    ensures Rest(mc, t, ticks) == []
  {
  }

  /** A step that hands out a cycle keeps the record faithful; a last step keeps what was recorded. */
  lemma StepRecords<P(!new), C>(mc: Machine<P, C>, t: Live<P, C>, start: Doublewords)
    requires Bounded(mc) && Faithful(start, t.e.data)
    ensures
      var (u, c) := LazyStep(mc, t);
      && Records(start, u.e.data) && t.e.data.Seen() <= u.e.data.Seen()
      && u.e.data.numDoublewords == t.e.data.numDoublewords
      && (c.Some? ==> Faithful(start, u.e.data))
  {
    hide Bounded;
    TickFaithful(mc, t.e.p, [], start, t.e.data);
  }

  lemma {:induction false} DroppingRecords<P(!new), C>(mc: Machine<P, C>, t: Live<P, C>, n: nat, start: Doublewords)
    requires Bounded(mc) && Faithful(start, t.e.data)
    ensures
      var u := Dropping(mc, t, n);
      && Records(start, u.e.data) && t.e.data.Seen() <= u.e.data.Seen()
      && u.e.data.numDoublewords == t.e.data.numDoublewords
    decreases n
  {
    hide Bounded, LazyStep, Faithful, Records;
    FaithfulRecords(start, t.e.data);
    if n > 0 && !t.finished {
      StepRecords(mc, t, start);
      var (u, c) := LazyStep(mc, t);
      if c.Some? {
        DroppingRecords(mc, u, n - 1, start);
      }
    }
  }

  lemma FaithfulRecords(start: Doublewords, data: MemoryData)
    requires Faithful(start, data)
    ensures Records(start, data)
  {
  }

  /** A replay that is where the live run is, on the doublewords of the chunk. */
  ghost predicate Follows<P(!new), C>(on: set<nat>, t: Live<P, C>, s: Saved<P, C>) {
    && s.e.p == t.e.p && s.e.prevPc == t.e.prevPc && s.current == t.current
    && Agree(on, t.e.data, s.e.data)
  }

  lemma StepReplays<P(!new), C>(mc: Machine<P, C>, t: Live<P, C>, s: Saved<P, C>, start: Doublewords, on: set<nat>)
    requires Bounded(mc) && Faithful(start, t.e.data) && Follows(on, t, s) && s.remaining > 0
    requires var (u, c) := LazyStep(mc, t); c.Some? && u.e.data.Seen() <= on
    ensures
      var (u, c) := LazyStep(mc, t);
      var (v, d) := ReplayStep(mc, s);
      d == c && Follows(on, u, v) && v.remaining == s.remaining - 1
  {
    hide Bounded, Faithful, Agree;
    if t.current == [] && t.e.prevPc != mc.pc(t.e.p) {
      TickReplays(mc, t.e.p, [], start, t.e.data, s.e.data, on);
    }
  }

  /** A replay hands out the cycles of the chunk. */
  lemma {:induction false} ChunkReplays<P(!new), C>(mc: Machine<P, C>, t: Live<P, C>, s: Saved<P, C>, n: nat,
      start: Doublewords, on: set<nat>, ticks: nat)
    requires Bounded(mc) && Running(mc, t, ticks) && !t.finished && Faithful(start, t.e.data) && Follows(on, t, s)
    requires Dropping(mc, t, n).e.data.Seen() <= on && s.remaining == Min(n, |Rest(mc, t, ticks)|)
    ensures Replay(mc, s) == Rest(mc, t, ticks)[..s.remaining]
    decreases n
  {
    hide Bounded, Running, LazyStep, ReplayStep, Faithful, Follows, Rest;
    if s.remaining > 0 {
      StepHandsOut(mc, t, ticks);
      var (u, c) := LazyStep(mc, t);
      StepRecords(mc, t, start);
      DroppingRecords(mc, u, n - 1, start);
      StepReplays(mc, t, s, start, on);
      ChunkReplays(mc, u, ReplayStep(mc, s).0, n - 1, start, on, ticks);
    }
  }

  /** The state in which a new chunk begins. */
  ghost predicate ChunkStart<P(!new), C>(mc: Machine<P, C>, t: Live<P, C>, ticks: nat)
    requires Bounded(mc)
  {
    && Running(mc, t, ticks) && !t.finished
    && t.saved == Some(Snapshot(t)) && t.e.data.checkpoint == Some(map[]) && t.steps == 0
  }

  /** One turn of the loop: a checkpoint of the next n cycles, or of what is left. */
  lemma OneChunk<P(!new), C>(mc: Machine<P, C>, t: Live<P, C>, n: nat, ticks: nat)
    requires Bounded(mc) && ChunkStart(mc, t, ticks)
    ensures
      var u := Dropping(mc, t, n);
      var rest := Rest(mc, t, ticks);
      && u.e.data.checkpoint.Some? && u.saved.Some?
      && var (v, c) := Checkpointed(u);
      && Replay(mc, c) == rest[..Min(n, |rest|)]
      && v.finished == (|rest| < n)
      && (!v.finished ==> ChunkStart(mc, v, ticks) && Rest(mc, v, ticks) == rest[n..])
  {
    hide Bounded;
    var u := Dropping(mc, t, n);
    var start := t.e.data.memory;
    DroppingHandsOut(mc, t, n, ticks);
    DroppingRecords(mc, t, n, start);
    var (v, c) := Checkpointed(u);
    ChunkReplays(mc, t, c, n, start, u.e.data.Seen(), ticks);
    if !v.finished {
      TraceUnrecorded(mc, u.e, v.e.data, ticks);
    }
  }

  /** The checkpoints of the loop, chunk by chunk. */
  ghost function Checkpoints<P(!new), C>(mc: Machine<P, C>, t: Live<P, C>, n: nat, ticks: nat): seq<Saved<P, C>>
    requires Bounded(mc) && n > 0 && ChunkStart(mc, t, ticks)
    decreases |Rest(mc, t, ticks)|
  {
    OneChunk(mc, t, n, ticks);
    var (v, c) := Checkpointed(Dropping(mc, t, n));
    if v.finished then [c] else [c] + Checkpoints(mc, v, n, ticks)
  }

  /** The i-th run of n elements; the last may be short. */
  function Chunk<T>(s: seq<T>, n: nat, i: nat): seq<T> {
    ChunkFrom(s, n, i * n)
  }

  function ChunkFrom<T>(s: seq<T>, n: nat, start: nat): seq<T> {
    var from := Min(start, |s|);
    s[from..Min(from + n, |s|)]
  }

  lemma ChunkShift<T>(s: seq<T>, n: nat, i: nat)
    requires n <= |s|
    ensures Chunk(s, n, i + 1) == Chunk(s[n..], n, i)
  {
    hide ChunkFrom;
    assert (i + 1) * n == i * n + n;
    ShiftFrom(s, n, i * n);
  }

  lemma ShiftFrom<T>(s: seq<T>, n: nat, start: nat)
    requires n <= |s|
    ensures ChunkFrom(s, n, start + n) == ChunkFrom(s[n..], n, start)
  {
  }

  lemma ChunkCount(length: nat, n: nat)
    requires n > 0
    ensures length < n ==> length / n == 0
    ensures length >= n ==> length / n == (length - n) / n + 1
    ensures length / n + 1 == (length + n - 1) / n <==> length % n != 0
  {
    var q, r := length / n, length % n;
    assert length == q * n + r;
    DivUnique(length, n, q, r);
    if r == 0 {
      DivUnique(length + n - 1, n, q, n - 1);
    } else {
      assert length + n - 1 == (q + 1) * n + (r - 1);
      DivUnique(length + n - 1, n, q + 1, r - 1);
    }
    if length >= n {
      assert length - n == (q - 1) * n + r;
      DivUnique(length - n, n, q - 1, r);
    }
  }

  ghost function Replays<P(!new), C>(mc: Machine<P, C>, cs: seq<Saved<P, C>>): seq<C>
    requires Bounded(mc)
  {
    if cs == [] then [] else Replay(mc, cs[0]) + Replays(mc, cs[1..])
  }

  /**
   * The checkpoints of a run of T cycles at interval n: there are T / n + 1 of them, checkpoint i
   * replays the i-th n cycles also when it begins within a tick, and together they replay the run.
   */
  lemma {:induction false} CheckpointsReplayRun<P(!new), C>(mc: Machine<P, C>, t: Live<P, C>, n: nat, ticks: nat)
    requires Bounded(mc) && n > 0 && ChunkStart(mc, t, ticks)
    ensures
      var cs, run := Checkpoints(mc, t, n, ticks), Rest(mc, t, ticks);
      && |cs| == |run| / n + 1
      && (forall i | 0 <= i < |cs| :: Replay(mc, cs[i]) == Chunk(run, n, i))
      && Replays(mc, cs) == run
    decreases |Rest(mc, t, ticks)|
  {
    hide Bounded, Running, Chunk, Replay, Rest, Dropping, Checkpointed;
    var cs, run := Checkpoints(mc, t, n, ticks), Rest(mc, t, ticks);
    OneChunk(mc, t, n, ticks);
    ChunkCount(|run|, n);
    FirstChunk(run, n);
    var (v, c) := Checkpointed(Dropping(mc, t, n));
    if v.finished {
      assert cs == [c];
      assert Replays(mc, cs) == Replay(mc, c) + Replays(mc, []);
    } else {
      var more := Checkpoints(mc, v, n, ticks);
      CheckpointsReplayRun(mc, v, n, ticks);
      assert cs == [c] + more && cs[1..] == more;
      forall i | 0 <= i < |cs|
        ensures Replay(mc, cs[i]) == Chunk(run, n, i)
      {
        if i > 0 {
          ChunkShift(run, n, i - 1);
          assert cs[i] == more[i - 1];
        }
      }
    }
  }

  lemma FirstChunk<T>(s: seq<T>, n: nat)
    ensures Chunk(s, n, 0) == s[..Min(n, |s|)]
    ensures |s| < n ==> Chunk(s, n, 0) == s
  {
  }

  /** The count is the rounded-up quotient exactly when the interval does not divide the length. */
  lemma CountIsCeilingIffRagged<P(!new), C>(mc: Machine<P, C>, t: Live<P, C>, n: nat, ticks: nat)
    requires Bounded(mc) && n > 0 && ChunkStart(mc, t, ticks)
    ensures
      var length := |Rest(mc, t, ticks)|;
      |Checkpoints(mc, t, n, ticks)| == (length + n - 1) / n <==> length % n != 0
  {
    CheckpointsReplayRun(mc, t, n, ticks);
    ChunkCount(|Rest(mc, t, ticks)|, n);
  }

  /** The lazy iterator over a checkpoint, which it owns. */
  class CheckpointReplay<P(!new), C> {
    var emulatorState: Emu<P>
    var currentTraces: seq<C>
    var traceStepsRemaining: nat

    ghost function Now(): Saved<P, C>
      reads this
    {
      Saved(emulatorState, currentTraces, traceStepsRemaining)
    }

    constructor (s: Saved<P, C>)
      ensures Now() == s
    {
      emulatorState, currentTraces, traceStepsRemaining := s.e, s.current, s.remaining;
    }

    predicate HasTerminated()
      reads this
    {
      traceStepsRemaining == 0
    }

    method LazyStepCycle(mc: Machine<P, C>) returns (c: Option<C>)
      requires Bounded(mc) && !HasTerminated()
      modifies this
      ensures (Now(), c) == ReplayStep(mc, old(Now()))
    {
      if currentTraces != [] {
        traceStepsRemaining := traceStepsRemaining - 1;
        c := Some(currentTraces[|currentTraces| - 1]);
        currentTraces := currentTraces[..|currentTraces| - 1];
        return;
      }
      var s := StepEmulator(mc, emulatorState);
      if s.Crashed? || s.cycles == [] {
        return None;
      }
      emulatorState := s.e;
      traceStepsRemaining := traceStepsRemaining - 1;
      currentTraces := Reversed(s.cycles);
      c := Some(currentTraces[|currentTraces| - 1]);
      currentTraces := currentTraces[..|currentTraces| - 1];
    }

    /** Collects the lazy iterator over this checkpoint. */
    method Collect(mc: Machine<P, C>) returns (cycles: seq<C>)
      requires Bounded(mc)
      modifies this
      ensures cycles == Replay(mc, old(Now()))
    {
      cycles := [];
      var more := true;
      while more && !HasTerminated()
        invariant cycles + (if more then Replay(mc, Now()) else []) == Replay(mc, old(Now()))
        decreases more, traceStepsRemaining
      {
        var c := LazyStepCycle(mc);
        match c
        case None => more := false;
        case Some(x) => cycles := cycles + [x];
      }
    }
  }

  class CheckpointingTracer<P(!new), C> {
    var emulatorState: Emu<P>
    var currentTraces: seq<C>
    var traceStepsSinceLastCheckpoint: nat
    var finished: bool
    var crashed: bool
    var savedProcessorState: Option<Saved<P, C>>
    var finalMemoryState: Option<MemoryData>

    ghost function Now(): Live<P, C>
      reads this
    {
      Live(emulatorState, currentTraces, traceStepsSinceLastCheckpoint, finished, crashed, savedProcessorState,
          finalMemoryState)
    }

    constructor (e: Emu<P>)
      ensures Now() == Live(e, [], 0, false, false, None, None)
    {
      emulatorState, currentTraces, traceStepsSinceLastCheckpoint := e, [], 0;
      finished, crashed, savedProcessorState, finalMemoryState := false, false, None, None;
    }

    method StartSaving()
      modifies this
      ensures Now() == StartSavingCheckpoints(old(Now()))
    {
      savedProcessorState := Some(Saved(emulatorState.(data := MemoryData(map[], 0, None)), currentTraces, 0));
      emulatorState := emulatorState.(data := emulatorState.data.StartSavingCheckpoints());
    }

    method LazyStepCycle(mc: Machine<P, C>) returns (c: Option<C>)
      requires Bounded(mc)
      modifies this
      ensures (Now(), c) == LazyStep(mc, old(Now()))
    {
      if currentTraces != [] {
        traceStepsSinceLastCheckpoint := traceStepsSinceLastCheckpoint + 1;
        c := Some(currentTraces[|currentTraces| - 1]);
        currentTraces := currentTraces[..|currentTraces| - 1];
        return;
      }
      var s := StepEmulator(mc, emulatorState);
      if s.Crashed? {
        finished, crashed := true, true;
        return None;
      }
      emulatorState := s.e;
      if s.cycles == [] {
        finished := true;
        var (taken, left) := TakeMemory(emulatorState.data);
        emulatorState := emulatorState.(data := left);
        finalMemoryState := Some(taken);
        return None;
      }
      traceStepsSinceLastCheckpoint := traceStepsSinceLastCheckpoint + 1;
      currentTraces := Reversed(s.cycles);
      c := Some(currentTraces[|currentTraces| - 1]);
      currentTraces := currentTraces[..|currentTraces| - 1];
    }

    /** Drops n cycles of the lazy iterator. */
    method Drop(mc: Machine<P, C>, n: nat)
      requires Bounded(mc)
      modifies this
      ensures Now() == Dropping(mc, old(Now()), n)
    {
      var left: nat, more := n, true;
      while more && left > 0
        invariant left <= n
        invariant (if more then Dropping(mc, Now(), left) else Now()) == Dropping(mc, old(Now()), n)
        decreases more, left
      {
        if finished {
          more := false;
        } else {
          var c := LazyStepCycle(mc);
          more, left := c.Some?, left - 1;
        }
      }
    }

    method SaveCheckpoint() returns (c: Saved<P, C>)
      requires emulatorState.data.checkpoint.Some? && savedProcessorState.Some?
      modifies this
      ensures (Now(), c) == Checkpointed(old(Now()))
    {
      var taken := savedProcessorState.value;
      savedProcessorState := Some(Saved(emulatorState.(data := MemoryData(map[], 0, None)), currentTraces, 0));
      var (recorded, data) := emulatorState.data.SaveCheckpoint();
      emulatorState := emulatorState.(data := data);
      c := taken.(e := taken.e.(data := recorded), remaining := traceStepsSinceLastCheckpoint);
      traceStepsSinceLastCheckpoint := 0;
    }

    /** One turn of the checkpoint loop. */
    method NextCheckpoint(mc: Machine<P, C>, n: nat, ghost ticks: nat) returns (c: Saved<P, C>)
      requires Bounded(mc) && ChunkStart(mc, Now(), ticks)
      modifies this
      ensures
        var u := Dropping(mc, old(Now()), n);
        u.e.data.checkpoint.Some? && u.saved.Some? && (Now(), c) == Checkpointed(u)
    {
      hide Bounded, ChunkStart, Dropping, Checkpointed;
      ChunkSaves(mc, Now(), n, ticks);
      Drop(mc, n);
      c := SaveCheckpoint();
    }
  }

  lemma ChunkSaves<P(!new), C>(mc: Machine<P, C>, t: Live<P, C>, n: nat, ticks: nat)
    requires Bounded(mc) && ChunkStart(mc, t, ticks)
    ensures var u := Dropping(mc, t, n); u.e.data.checkpoint.Some? && u.saved.Some?
  {
    OneChunk(mc, t, n, ticks);
  }

  lemma FreshTracer<P(!new), C>(mc: Machine<P, C>, e: Emu<P>, ticks: nat)
    requires Bounded(mc) && Halts(mc, e, ticks)
    ensures
      var t := Live(e, [], 0, false, false, None, None);
      Running(mc, t, ticks) && Rest(mc, t, ticks) == Trace(mc, e, ticks)
  {
  }

  /** The whole trace, through the lazy iterator. */
  method CollectTrace<P(!new), C>(mc: Machine<P, C>, e: Emu<P>, ghost ticks: nat) returns (cycles: seq<C>)
    requires Bounded(mc) && Halts(mc, e, ticks)
    ensures cycles == Trace(mc, e, ticks)
  {
    hide Bounded, Halts, Trace, LazyStep;
    var t := new CheckpointingTracer(e);
    FreshTracer(mc, e, ticks);
    cycles := [];
    while !t.finished
      invariant Running(mc, t.Now(), ticks)
      invariant cycles + Rest(mc, t.Now(), ticks) == Trace(mc, e, ticks)
      decreases !t.finished, |Rest(mc, t.Now(), ticks)|
    {
      StepHandsOut(mc, t.Now(), ticks);
      var c := t.LazyStepCycle(mc);
      if c.Some? {
        cycles := cycles + [c.value];
      }
    }
  }

  ghost function Started<P, C>(e: Emu<P>): Live<P, C> {
    StartSavingCheckpoints(Live(e, [], 0, false, false, None, None))
  }

  lemma StartedAs<P, C>(e: Emu<P>)
    ensures Started<P, C>(e) == StartSavingCheckpoints(Live(e, [], 0, false, false, None, None))
  {
  }

  /** A run that is traced for checkpoints starts a chunk and has the cycles of the whole trace to come. */
  lemma StartedIsChunkStart<P(!new), C>(mc: Machine<P, C>, e: Emu<P>, ticks: nat)
    requires Bounded(mc) && Halts(mc, e, ticks) && e.data.checkpoint.None?
    ensures ChunkStart(mc, Started(e), ticks) && Rest(mc, Started(e), ticks) == Trace(mc, e, ticks)
  {
    TraceUnrecorded(mc, e, e.data.StartSavingCheckpoints(), ticks);
  }

  lemma CheckpointsUnroll<P(!new), C>(mc: Machine<P, C>, t: Live<P, C>, n: nat, ticks: nat)
    requires Bounded(mc) && n > 0 && ChunkStart(mc, t, ticks)
    ensures
      var u := Dropping(mc, t, n);
      && u.e.data.checkpoint.Some? && u.saved.Some?
      && var (v, c) := Checkpointed(u);
      && (v.finished ==> Checkpoints(mc, t, n, ticks) == [c])
      && (!v.finished ==>
            && ChunkStart(mc, v, ticks)
            && Checkpoints(mc, t, n, ticks) == [c] + Checkpoints(mc, v, n, ticks))
  {
    hide Bounded, Dropping, Checkpointed, Rest, Running;
    OneChunk(mc, t, n, ticks);
  }

  method TraceCheckpoints<P(!new), C>(mc: Machine<P, C>, e: Emu<P>, n: nat,
      ghost ticks: nat) returns (cs: seq<Saved<P, C>>)
    requires Bounded(mc) && Halts(mc, e, ticks) && e.data.checkpoint.None? && n > 0
    ensures ChunkStart(mc, Started(e), ticks) && cs == Checkpoints(mc, Started(e), n, ticks)
  {
    hide Bounded, Halts, Trace, Running, Dropping, Checkpointed, Rest, Checkpoints, ChunkStart, Started;
    hide StartSavingCheckpoints, Snapshot;
    StartedIsChunkStart(mc, e, ticks);
    StartedAs<P, C>(e);
    var t := new CheckpointingTracer(e);
    t.StartSaving();
    cs := [];
    while true
      invariant ChunkStart(mc, t.Now(), ticks)
      invariant cs + Checkpoints(mc, t.Now(), n, ticks) == Checkpoints(mc, Started(e), n, ticks)
      decreases |Checkpoints(mc, t.Now(), n, ticks)|
    {
      CheckpointsUnroll(mc, t.Now(), n, ticks);
      var c := t.NextCheckpoint(mc, n, ticks);
      cs := cs + [c];
      if t.finished {
        break;
      }
    }
  }

  /**
   * Tracing a halting program for checkpoints: their number, what each replays, and that together
   * they replay the whole trace.
   */
  lemma CheckpointsReplayTrace<P(!new), C>(mc: Machine<P, C>, e: Emu<P>, n: nat, ticks: nat)
    requires Bounded(mc) && Halts(mc, e, ticks) && e.data.checkpoint.None? && n > 0
    ensures ChunkStart(mc, Started(e), ticks)
    ensures
      var cs, trace := Checkpoints(mc, Started(e), n, ticks), Trace(mc, e, ticks);
      && |cs| == |trace| / n + 1
      && (forall i | 0 <= i < |cs| :: Replay(mc, cs[i]) == Chunk(trace, n, i))
      && Replays(mc, cs) == trace
  {
    hide Bounded, Halts, Chunk, Replay;
    StartedIsChunkStart(mc, e, ticks);
    CheckpointsReplayRun(mc, Started(e), n, ticks);
  }

  /** A processor that stays at address 1 from its first tick on, one cycle a tick. */
  const LOOPER: Machine<nat, nat> := Machine((p, got) => Finish(1, [p]), p => p, 0)

  const AT_ZERO: Emu<nat> := Emu(0, MemoryData(map[], 0, None), 9)

  lemma LooperTrace()
    ensures Bounded(LOOPER) && Halts(LOOPER, AT_ZERO, 3) && Trace(LOOPER, AT_ZERO, 3) == [0, 1]
  {
    var data := AT_ZERO.data;
    assert StepEmulator(LOOPER, AT_ZERO) == Stepped(Emu(1, data, 0), [0]);
    assert StepEmulator(LOOPER, Emu(1, data, 0)) == Stepped(Emu(1, data, 1), [1]);
    assert StepEmulator(LOOPER, Emu(1, data, 1)) == Stepped(Emu(1, data, 1), []);
    assert Halts(LOOPER, Emu(1, data, 1), 1) && Trace(LOOPER, Emu(1, data, 1), 1) == [];
    assert Halts(LOOPER, Emu(1, data, 0), 2) && Trace(LOOPER, Emu(1, data, 0), 2) == [1];
  }

  /** A program whose first tick stores 5; the second emits what it loads and stays where it is. */
  const STORER: Machine<nat, int> := Machine(
    (p, got) =>
      if got == [] then Access(0, v => if p == 0 then 5 else v)
      else Finish(1, [if p == 0 then 0 else got[0]]),
    p => p, 1)

  const ONE_WORD: MemoryData := MemoryData(map[], 1, None)

  /** A load in a later tick gives what was stored. */
  lemma StorerTrace()
    ensures Bounded(STORER)
    ensures var e := Emu(0, ONE_WORD, 9); Halts(STORER, e, 3) && Trace(STORER, e, 3) == [0, 5]
  {
    var stored := MemoryData(map[0 := 5], 1, None);
    assert RunTick(STORER, 0, [], ONE_WORD) == Ticked(1, [0], stored);
    assert RunTick(STORER, 1, [], stored) == Ticked(1, [5], stored);
    hide RunTick;
    assert StepEmulator(STORER, Emu(0, ONE_WORD, 9)) == Stepped(Emu(1, stored, 0), [0]);
    assert StepEmulator(STORER, Emu(1, stored, 0)) == Stepped(Emu(1, stored, 1), [5]);
    assert StepEmulator(STORER, Emu(1, stored, 1)) == Stepped(Emu(1, stored, 1), []);
    assert Halts(STORER, Emu(1, stored, 1), 1) && Trace(STORER, Emu(1, stored, 1), 1) == [];
    assert Halts(STORER, Emu(1, stored, 0), 2) && Trace(STORER, Emu(1, stored, 0), 2) == [5];
  }

  /** A run of two cycles at interval one: three checkpoints, where the rounded-up quotient is two. */
  lemma OneCheckpointMore()
    ensures Bounded(LOOPER) && Halts(LOOPER, AT_ZERO, 3) && Trace(LOOPER, AT_ZERO, 3) == [0, 1]
    ensures ChunkStart(LOOPER, Started(AT_ZERO), 3) && |Checkpoints(LOOPER, Started(AT_ZERO), 1, 3)| == 3
    ensures (2 + 1 - 1) / 1 == 2
  {
    hide Bounded, Halts, Trace, ChunkStart, Started, Checkpoints, Chunk, Replay, Replays;
    LooperTrace();
    CheckpointsReplayTrace(LOOPER, AT_ZERO, 1, 3);
  }

  /** A new iterator over a checkpoint, collected. */
  method CollectCheckpoint<P(!new), C>(mc: Machine<P, C>, s: Saved<P, C>) returns (cycles: seq<C>)
    requires Bounded(mc)
    ensures cycles == Replay(mc, s)
  {
    hide Bounded, Replay;
    var replay := new CheckpointReplay(s);
    cycles := replay.Collect(mc);
  }

  /** Consecutive chunks of a trace, from its start. */
  ghost predicate AreChunks<C>(chunks: seq<seq<C>>, trace: seq<C>, n: nat) {
    forall i | 0 <= i < |chunks| :: chunks[i] == Chunk(trace, n, i)
  }

  lemma AddChunk<C>(chunks: seq<seq<C>>, trace: seq<C>, n: nat)
    requires AreChunks(chunks, trace, n)
    ensures AreChunks(chunks + [Chunk(trace, n, |chunks|)], trace, n)
  {
    hide Chunk;
  }

  lemma CheckpointReplaysChunk<P(!new), C>(mc: Machine<P, C>, e: Emu<P>, n: nat, ticks: nat, i: nat)
    requires Bounded(mc) && Halts(mc, e, ticks) && e.data.checkpoint.None? && n > 0
    requires ChunkStart(mc, Started(e), ticks) && i < |Checkpoints(mc, Started(e), n, ticks)|
    ensures Replay(mc, Checkpoints(mc, Started(e), n, ticks)[i]) == Chunk(Trace(mc, e, ticks), n, i)
  {
    hide Bounded, Halts, Trace, Chunk, Replay, ChunkStart, Checkpoints, Replays, Started;
    CheckpointsReplayTrace(mc, e, n, ticks);
  }

  /** Traces for checkpoints and collects every one: chunk by chunk, the whole trace. */
  method TraceAndReplay<P(!new), C>(mc: Machine<P, C>, e: Emu<P>, n: nat, ghost ticks: nat)
    returns (chunks: seq<seq<C>>)
    requires Bounded(mc) && Halts(mc, e, ticks) && e.data.checkpoint.None? && n > 0
    ensures |chunks| == |Trace(mc, e, ticks)| / n + 1 && AreChunks(chunks, Trace(mc, e, ticks), n)
  {
    hide Bounded, Halts, Trace, Chunk, Replay, ChunkStart, Checkpoints, Replays, AreChunks, Started;
    var cs := TraceCheckpoints(mc, e, n, ticks);
    ghost var trace := Trace(mc, e, ticks);
    chunks := [];
    assert AreChunks<C>([], trace, n) by {
      NoChunks(trace, n);
    }
    for i := 0 to |cs|
      invariant |chunks| == i && AreChunks(chunks, trace, n)
    {
      var cycles := CollectCheckpoint(mc, cs[i]);
      CheckpointReplaysChunk(mc, e, n, ticks, i);
      AddChunk(chunks, trace, n);
      chunks := chunks + [cycles];
    }
    CheckpointCount(mc, e, n, ticks);
  }

  lemma NoChunks<C>(trace: seq<C>, n: nat)
    ensures AreChunks([], trace, n)
  {
  }

  lemma CheckpointCount<P(!new), C>(mc: Machine<P, C>, e: Emu<P>, n: nat, ticks: nat)
    requires Bounded(mc) && Halts(mc, e, ticks) && e.data.checkpoint.None? && n > 0
    ensures ChunkStart(mc, Started(e), ticks)
    ensures |Checkpoints(mc, Started(e), n, ticks)| == |Trace(mc, e, ticks)| / n + 1
  {
    hide Bounded, Halts, Trace, Chunk, Replay, ChunkStart, Checkpoints, Replays, Started;
    CheckpointsReplayTrace(mc, e, n, ticks);
  }
}
