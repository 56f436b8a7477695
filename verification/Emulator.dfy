/** A deterministic processor over a memory of doublewords that can record what it touches. */
module Emulator {
  import opened Prelude

  /** What a tick does next: finish with a new processor state and its cycles, or access a doubleword. */
  datatype Action<!P, !C> = Finish(p: P, cycles: seq<C>) | Access(index: nat, write: int -> int)

  /**
   * plan gives the next action of a tick from the processor state at its start and the doublewords
   * read so far; a tick makes at most so many accesses.
   */
  datatype Machine<!P, !C> = Machine(plan: (P, seq<int>) -> Action<P, C>, pc: P -> nat, most: nat)

  ghost predicate Bounded<P(!new), C>(mc: Machine<P, C>) {
    forall p, got :: |got| >= mc.most ==> mc.plan(p, got).Finish?
  }

  type Doublewords = map<nat, int>

  /** Absent doublewords are zero. */
  function Word(m: Doublewords, i: nat): int {
    if i in m then m[i] else 0
  }

  datatype MemoryData = MemoryData(memory: Doublewords, numDoublewords: nat, checkpoint: Option<Doublewords>) {

    /** Touching a doubleword makes it present and, while saving checkpoints, records its first value. */
    function Touch(i: nat): MemoryData {
      var v := Word(memory, i);
      MemoryData(memory[i := v], numDoublewords,
        match checkpoint
        case None => None
        case Some(seen) => Some(if i in seen then seen else seen[i := v]))
    }

    function Store(i: nat, v: int): MemoryData {
      this.(memory := memory[i := v])
    }

    function StartSavingCheckpoints(): MemoryData {
      if checkpoint.None? then this.(checkpoint := Some(map[])) else this
    }

    /** The recorded values as a memory of their own, and the memory with an empty record. */
    function SaveCheckpoint(): (MemoryData, MemoryData)
      requires checkpoint.Some?
    {
      (MemoryData(checkpoint.value, numDoublewords, None), this.(checkpoint := Some(map[])))
    }

    function Seen(): set<nat> {
      if checkpoint.Some? then checkpoint.value.Keys else {}
    }
  }

  datatype Ticked<!P, !C> = Panic | Ticked(p: P, cycles: seq<C>, data: MemoryData)

  /** One tick. An access past the capacity panics. */
  function RunTick<P(!new), C>(mc: Machine<P, C>, p: P, got: seq<int>, data: MemoryData): Ticked<P, C>
    requires Bounded(mc)
    decreases mc.most - |got|
  {
    match mc.plan(p, got)
    case Finish(q, cycles) => Ticked(q, cycles, data)
    case Access(i, write) =>
      if i >= data.numDoublewords then Panic
      else
        var v := Word(data.memory, i);
        RunTick(mc, p, got + [v], data.Touch(i).Store(i, write(v)))
  }

  datatype Emu<!P> = Emu(p: P, data: MemoryData, prevPc: nat)

  datatype Stepped<!P, !C> = Crashed | Stepped(e: Emu<P>, cycles: seq<C>)

  /** A program that jumps to itself has terminated; otherwise the emulator ticks. */
  function StepEmulator<P(!new), C>(mc: Machine<P, C>, e: Emu<P>): Stepped<P, C>
    requires Bounded(mc)
  {
    if e.prevPc == mc.pc(e.p) then Stepped(e, [])
    else
      var r := RunTick(mc, e.p, [], e.data);
      if r.Panic? then Crashed else Stepped(Emu(r.p, r.data, mc.pc(e.p)), r.cycles)
  }

  /** The program ends, without a panic, within so many ticks. */
  ghost predicate Halts<P(!new), C>(mc: Machine<P, C>, e: Emu<P>, ticks: nat)
    requires Bounded(mc)
    decreases ticks
  {
    var s := StepEmulator(mc, e);
    ticks > 0 && s.Stepped? && (s.cycles != [] ==> Halts(mc, s.e, ticks - 1))
  }

  /** The cycles of a whole run. */
  ghost function Trace<P(!new), C>(mc: Machine<P, C>, e: Emu<P>, ticks: nat): seq<C>
    requires Bounded(mc) && Halts(mc, e, ticks)
    decreases ticks
  {
    var s := StepEmulator(mc, e);
    if s.cycles == [] then [] else s.cycles + Trace(mc, s.e, ticks - 1)
  }

  lemma {:induction false} MoreTicks<P(!new), C>(mc: Machine<P, C>, e: Emu<P>, ticks: nat)
    requires Bounded(mc) && Halts(mc, e, ticks)
    ensures Halts(mc, e, ticks + 1) && Trace(mc, e, ticks + 1) == Trace(mc, e, ticks)
    decreases ticks
  {
    hide Bounded;
    var s := StepEmulator(mc, e);
    if s.cycles != [] {
      MoreTicks(mc, s.e, ticks - 1);
    }
  }

  /** What one access left behind in a doubleword. */
  datatype Written = Written(index: nat, value: int)

  /** The last value written to a doubleword, or its value from the start. */
  function LastWritten(start: Doublewords, log: seq<Written>, i: nat): int {
    if log == [] then Word(start, i)
    else
      var last := log[|log| - 1];
      if last.index == i then last.value else LastWritten(start, log[..|log| - 1], i)
  }

  /** Access k is the one planned, within the capacity; it reads what was written last and writes what it should. */
  ghost predicate AccessAt<P, C>(mc: Machine<P, C>, p: P, start: MemoryData, loads: seq<int>, log: seq<Written>,
      k: nat)
    requires k < |loads| == |log|
  {
    match mc.plan(p, loads[..k])
    case Finish(_, _) => false
    case Access(i, write) =>
      && i == log[k].index
      && i < start.numDoublewords
      && loads[k] == LastWritten(start.memory, log[..k], i)
      && log[k].value == write(loads[k])
  }

  /** A log of accesses with what each of them read. */
  ghost predicate Accesses<P, C>(mc: Machine<P, C>, p: P, start: MemoryData, loads: seq<int>, log: seq<Written>) {
    |loads| == |log| && forall k | 0 <= k < |log| :: AccessAt(mc, p, start, loads, log, k)
  }

  /** What a tick comes to after these accesses. */
  ghost predicate Ends<P, C>(mc: Machine<P, C>, p: P, start: MemoryData, loads: seq<int>, log: seq<Written>,
      r: Ticked<P, C>) {
    match mc.plan(p, loads)
    case Finish(q, cycles) =>
      && r.Ticked?
      && r.p == q
      && r.cycles == cycles
      && r.data.numDoublewords == start.numDoublewords
      && forall j: nat :: Word(r.data.memory, j) == LastWritten(start.memory, log, j)
    case Access(i, _) => i >= start.numDoublewords && r.Panic?
  }

  lemma AccessMore<P, C>(mc: Machine<P, C>, p: P, start: MemoryData, loads: seq<int>, log: seq<Written>, v: int,
      w: Written)
    requires Accesses(mc, p, start, loads, log) && AccessAt(mc, p, start, loads + [v], log + [w], |log|)
    ensures Accesses(mc, p, start, loads + [v], log + [w])
  {
    hide LastWritten;
    forall k | 0 <= k < |log|
      ensures AccessAt(mc, p, start, loads + [v], log + [w], k)
    {
      assert AccessAt(mc, p, start, loads, log, k);
      assert (loads + [v])[..k] == loads[..k] && (log + [w])[..k] == log[..k];
    }
  }

  /** The rest of a tick, after some accesses. */
  lemma {:induction false} TickLogFrom<P(!new), C>(mc: Machine<P, C>, p: P, start: MemoryData, got: seq<int>,
      done: seq<Written>, data: MemoryData) returns (loads: seq<int>, log: seq<Written>)
    requires Bounded(mc) && Accesses(mc, p, start, got, done) && data.numDoublewords == start.numDoublewords
    requires forall j: nat :: Word(data.memory, j) == LastWritten(start.memory, done, j)
    ensures Accesses(mc, p, start, loads, log) && Ends(mc, p, start, loads, log, RunTick(mc, p, got, data))
    decreases mc.most - |got|
  {
    hide Accesses;
    match mc.plan(p, got)
    case Finish(_, _) =>
      loads, log := got, done;
    case Access(i, write) =>
      if i >= data.numDoublewords {
        loads, log := got, done;
      } else {
        var v := Word(data.memory, i);
        var w := Written(i, write(v));
        assert |got| == |done| by {
          SameCount(mc, p, start, got, done);
        }
        assert (got + [v])[..|got|] == got && (done + [w])[..|done|] == done;
        AccessMore(mc, p, start, got, done, v, w);
        loads, log := TickLogFrom(mc, p, start, got + [v], done + [w], data.Touch(i).Store(i, write(v)));
      }
  }

  lemma SameCount<P, C>(mc: Machine<P, C>, p: P, start: MemoryData, loads: seq<int>, log: seq<Written>)
    requires Accesses(mc, p, start, loads, log)
    ensures |loads| == |log|
  {
  }

  /**
   * What a tick does, told by a log of its accesses: each reads the value written last, or the one from the start,
   * and at the end every doubleword holds the value written last. It panics at the first access past the capacity.
   */
  lemma TickLog<P(!new), C>(mc: Machine<P, C>, p: P, start: MemoryData) returns (loads: seq<int>, log: seq<Written>)
    requires Bounded(mc)
    ensures Accesses(mc, p, start, loads, log) && Ends(mc, p, start, loads, log, RunTick(mc, p, [], start))
  {
    hide Bounded, RunTick;
    loads, log := TickLogFrom(mc, p, start, [], [], start);
  }

  /** While recording, every record holds the value from the start and everything else is untouched. */
  ghost predicate Faithful(start: Doublewords, data: MemoryData) {
    && data.checkpoint.Some?
    && forall i: nat ::
      if i in data.checkpoint.value then data.checkpoint.value[i] == Word(start, i)
      else Word(data.memory, i) == Word(start, i)
  }

  lemma AccessFaithful(start: Doublewords, data: MemoryData, i: nat, v: int)
    requires Faithful(start, data)
    ensures var d := data.Touch(i).Store(i, v); Faithful(start, d) && data.Seen() <= d.Seen() && i in d.Seen()
  {
  }

  lemma {:induction false} TickFaithful<P(!new), C>(mc: Machine<P, C>, p: P, got: seq<int>, start: Doublewords,
      data: MemoryData)
    requires Bounded(mc) && Faithful(start, data)
    ensures
      var r := RunTick(mc, p, got, data);
      r.Ticked? ==>
        Faithful(start, r.data) && data.Seen() <= r.data.Seen() && r.data.numDoublewords == data.numDoublewords
    decreases mc.most - |got|
  {
    hide Faithful;
    match mc.plan(p, got)
    case Finish(_, _) =>
    case Access(i, write) =>
      if i < data.numDoublewords {
        var v := Word(data.memory, i);
        AccessFaithful(start, data, i, write(v));
        TickFaithful(mc, p, got + [v], start, data.Touch(i).Store(i, write(v)));
      }
  }

  /** Two memories with the same capacity and the same values on a set of doublewords. */
  ghost predicate Agree(on: set<nat>, d1: MemoryData, d2: MemoryData) {
    d1.numDoublewords == d2.numDoublewords && forall i | i in on :: Word(d1.memory, i) == Word(d2.memory, i)
  }

  /** A tick only depends on the doublewords it touches, so it runs the same on a memory that has those. */
  lemma {:induction false} TickReplays<P(!new), C>(mc: Machine<P, C>, p: P, got: seq<int>, start: Doublewords,
      data: MemoryData, other: MemoryData, on: set<nat>)
    requires Bounded(mc) && Faithful(start, data) && Agree(on, data, other)
    requires var r := RunTick(mc, p, got, data); r.Ticked? && r.data.Seen() <= on
    ensures
      var r, s := RunTick(mc, p, got, data), RunTick(mc, p, got, other);
      s.Ticked? && s.p == r.p && s.cycles == r.cycles && Agree(on, r.data, s.data)
    decreases mc.most - |got|
  {
    hide Faithful;
    match mc.plan(p, got)
    case Finish(_, _) =>
    case Access(i, write) =>
      var v := Word(data.memory, i);
      var d := data.Touch(i).Store(i, write(v));
      AccessFaithful(start, data, i, write(v));
      TickFaithful(mc, p, got + [v], start, d);
      assert i in on;
      TickReplays(mc, p, got + [v], start, d, other.Touch(i).Store(i, write(v)), on);
  }

  /** Recording does not affect a run. */
  ghost predicate SameWords(d1: MemoryData, d2: MemoryData) {
    d1.memory == d2.memory && d1.numDoublewords == d2.numDoublewords
  }

  lemma {:induction false} TickUnrecorded<P(!new), C>(mc: Machine<P, C>, p: P, got: seq<int>, d1: MemoryData,
      d2: MemoryData)
    requires Bounded(mc) && SameWords(d1, d2)
    ensures
      var r, s := RunTick(mc, p, got, d1), RunTick(mc, p, got, d2);
      r.Ticked? == s.Ticked? && (r.Ticked? ==> r.p == s.p && r.cycles == s.cycles && SameWords(r.data, s.data))
    decreases mc.most - |got|
  {
    match mc.plan(p, got)
    case Finish(_, _) =>
    case Access(i, write) =>
      if i < d1.numDoublewords {
        var v := Word(d1.memory, i);
        TickUnrecorded(mc, p, got + [v], d1.Touch(i).Store(i, write(v)), d2.Touch(i).Store(i, write(v)));
      }
  }

  lemma {:induction false} TraceUnrecorded<P(!new), C>(mc: Machine<P, C>, e: Emu<P>, data: MemoryData, ticks: nat)
    requires Bounded(mc) && SameWords(e.data, data) && Halts(mc, e, ticks)
    ensures Halts(mc, e.(data := data), ticks) && Trace(mc, e.(data := data), ticks) == Trace(mc, e, ticks)
    decreases ticks
  {
    hide Bounded;
    var f := e.(data := data);
    TickUnrecorded(mc, e.p, [], e.data, data);
    var s, u := StepEmulator(mc, e), StepEmulator(mc, f);
    if s.cycles != [] {
      assert u.e == s.e.(data := u.e.data);
      TraceUnrecorded(mc, s.e, u.e.data, ticks - 1);
    }
  }

  /** Every record holds the value from the start. */
  ghost predicate Records(start: Doublewords, data: MemoryData) {
    data.checkpoint.Some? && forall i: nat | i in data.checkpoint.value :: data.checkpoint.value[i] == Word(start, i)
  }
}
