/** The I/O region of guest memory and the device that serves it. */
module MemoryRegions {
  import opened Prelude
  import opened Bits

  const RAM_START_ADDRESS: nat := 0x8000_0000
  const STACK_CANARY_SIZE: nat := 128
  const U64: nat := 0x1_0000_0000_0000_0000

  datatype MemoryConfig = MemoryConfig(
    maxInputSize: nat, maxTrustedAdviceSize: nat, maxUntrustedAdviceSize: nat, maxOutputSize: nat,
    stackSize: nat, heapSize: nat, programSize: Option<nat>)

  datatype MemoryLayout = MemoryLayout(
    programSize: nat,
    maxTrustedAdviceSize: nat, trustedAdviceStart: nat, trustedAdviceEnd: nat,
    maxUntrustedAdviceSize: nat, untrustedAdviceStart: nat, untrustedAdviceEnd: nat,
    maxInputSize: nat, maxOutputSize: nat,
    inputStart: nat, inputEnd: nat, outputStart: nat, outputEnd: nat,
    stackSize: nat, stackEnd: nat, heapSize: nat, heapEnd: nat,
    panic: nat, termination: nat, ioEnd: nat)

  /** Rounded up to a multiple of eight; None on overflow. */
  function AlignUp(val: nat): Option<nat> {
    Checked(if val % 8 == 0 then val else val + (8 - val % 8))
  }

  function Checked(v: nat): Option<nat> {
    if v < U64 then Some(v) else None
  }

  function NextPowerOfTwo(n: nat): (p: nat)
    ensures n <= p
  {
    Pow2(CeilLog2(n))
  }

  predicate IsPowerOfTwo(n: nat) {
    n > 0 && NextPowerOfTwo(n) == n
  }

  /** The layout of a configuration, or None where the original panics. */
  function NewLayout(config: MemoryConfig): Option<MemoryLayout> {
    var t, u := AlignUp(config.maxTrustedAdviceSize), AlignUp(config.maxUntrustedAdviceSize);
    var i, o := AlignUp(config.maxInputSize), AlignUp(config.maxOutputSize);
    var s, h := AlignUp(config.stackSize), AlignUp(config.heapSize);
    if config.programSize.None? || t.None? || u.None? || i.None? || o.None? || s.None? || h.None? then None
    else if !(IsPowerOfTwo(t.value) || t.value == 0) || !(IsPowerOfTwo(u.value) || u.value == 0) then None
    else Place(config.programSize.value, t.value, u.value, i.value, o.value, s.value, h.value)
  }

  function Place(program: nat, trusted: nat, untrusted: nat, input: nat, output: nat, stack: nat,
      heap: nat): Option<MemoryLayout> {
    var ioRegion := input + trusted + untrusted + output + 16;
    if ioRegion >= U64 then None
    else
      var ioBytes := NextPowerOfTwo(ioRegion / 8) * 8;
      if ioBytes > RAM_START_ADDRESS then None
      else
        var lowest := RAM_START_ADDRESS - ioBytes;
        var trustedStart := if trusted >= untrusted then lowest else lowest + untrusted;
        var untrustedStart := if trusted >= untrusted then lowest + trusted else lowest;
        var inputStart := Max(untrustedStart + untrusted, trustedStart + trusted);
        var outputStart := inputStart + input;
        var panic := outputStart + output;
        var stackEnd := RAM_START_ADDRESS + program;
        var heapEnd := stackEnd + STACK_CANARY_SIZE + stack + heap;
        if heapEnd >= U64 then None
        else
          Some(MemoryLayout(
            program, trusted, trustedStart, trustedStart + trusted, untrusted, untrustedStart,
                untrustedStart + untrusted,
            input, output, inputStart, outputStart, outputStart, panic, stack, stackEnd, heap, heapEnd,
            panic, panic + 8, panic + 16))
  }

  function LowestAddress(l: MemoryLayout): nat {
    if l.trustedAdviceStart <= l.untrustedAdviceStart then l.trustedAdviceStart else l.untrustedAdviceStart
  }

  /** The regions follow each other without gap or overlap, the two advice regions first. */
  predicate Consecutive(l: MemoryLayout) {
    && l.trustedAdviceEnd == l.trustedAdviceStart + l.maxTrustedAdviceSize
    && l.untrustedAdviceEnd == l.untrustedAdviceStart + l.maxUntrustedAdviceSize
    && (|| (l.trustedAdviceEnd == l.untrustedAdviceStart && l.untrustedAdviceEnd == l.inputStart)
        || (l.untrustedAdviceEnd == l.trustedAdviceStart && l.trustedAdviceEnd == l.inputStart))
    && l.inputEnd == l.inputStart + l.maxInputSize
    && l.outputStart == l.inputEnd && l.outputEnd == l.outputStart + l.maxOutputSize
    && l.panic == l.outputEnd && l.termination == l.panic + 8 && l.ioEnd == l.termination + 8
    && l.ioEnd <= RAM_START_ADDRESS
  }

  predicate Aligned(l: MemoryLayout) {
    && l.trustedAdviceStart % 8 == 0 && l.untrustedAdviceStart % 8 == 0
    && l.inputStart % 8 == 0 && l.outputStart % 8 == 0 && l.panic % 8 == 0 && l.termination % 8 == 0 && l.ioEnd % 8 == 0
  }

  lemma PowersDivide(i: nat, j: nat)
    requires Pow2(i) <= Pow2(j)
    ensures Pow2(j) % Pow2(i) == 0
  {
    if i <= j {
      Pow2Add(i, j - i);
      DivUnique(Pow2(j), Pow2(i), Pow2(j - i), 0);
    } else {
      Pow2Monotone(j + 1, i);
    }
  }

  /** A power of two size divides any larger one, and zero. */
  lemma SizeDivides(small: nat, large: nat)
    requires IsPowerOfTwo(small) && (IsPowerOfTwo(large) || large == 0) && (large == 0 || small <= large)
    ensures large % small == 0
  {
    if large > 0 {
      PowersDivide(CeilLog2(small), CeilLog2(large));
    } else {
      DivUnique(0, small, 0, 0);
    }
  }

  /**
   * Every accepted configuration: the regions are 8-aligned, consecutive and end at or below the start
   * of RAM, the distance from the lowest address to it is a power of two, and each advice region that is
   * not empty starts at a multiple of its own size above the lowest address.
   */
  lemma LayoutOfAccepted(config: MemoryConfig)
    requires NewLayout(config).Some?
    ensures
      var l := NewLayout(config).value;
      var low := LowestAddress(l);
      && Aligned(l) && Consecutive(l)
      && low <= RAM_START_ADDRESS && IsPowerOfTwo(RAM_START_ADDRESS - low)
      && (l.maxTrustedAdviceSize > 0 ==> (l.trustedAdviceStart - low) % l.maxTrustedAdviceSize == 0)
      && (l.maxUntrustedAdviceSize > 0 ==> (l.untrustedAdviceStart - low) % l.maxUntrustedAdviceSize == 0)
  {
    LayoutShape(config);
    hide NewLayout, IsPowerOfTwo;
    var l := NewLayout(config).value;
    EightTimesPower(IoRegion(l) / 8);
    if l.maxTrustedAdviceSize >= l.maxUntrustedAdviceSize {
      if l.maxUntrustedAdviceSize > 0 {
        SizeDivides(l.maxUntrustedAdviceSize, l.maxTrustedAdviceSize);
      }
      if l.maxTrustedAdviceSize > 0 {
        Bits.DivUnique(0, l.maxTrustedAdviceSize, 0, 0);
      }
    } else {
      if l.maxTrustedAdviceSize > 0 {
        SizeDivides(l.maxTrustedAdviceSize, l.maxUntrustedAdviceSize);
      }
      Bits.DivUnique(0, l.maxUntrustedAdviceSize, 0, 0);
    }
  }

  function IoRegion(l: MemoryLayout): nat {
    l.maxInputSize + l.maxTrustedAdviceSize + l.maxUntrustedAdviceSize + l.maxOutputSize + 16
  }

  /** The layout without its powers of two. */
  lemma LayoutShape(config: MemoryConfig)
    requires NewLayout(config).Some?
    ensures
      var l := NewLayout(config).value;
      var low := LowestAddress(l);
      && Aligned(l) && Consecutive(l)
      && low + 8 * NextPowerOfTwo(IoRegion(l) / 8) == RAM_START_ADDRESS
      && (IsPowerOfTwo(l.maxTrustedAdviceSize) || l.maxTrustedAdviceSize == 0)
      && (IsPowerOfTwo(l.maxUntrustedAdviceSize) || l.maxUntrustedAdviceSize == 0)
      && (if l.maxTrustedAdviceSize >= l.maxUntrustedAdviceSize
          then l.trustedAdviceStart == low && l.untrustedAdviceStart == low + l.maxTrustedAdviceSize
          else l.untrustedAdviceStart == low && l.trustedAdviceStart == low + l.maxUntrustedAdviceSize)
  {
    hide IsPowerOfTwo, NextPowerOfTwo, AlignUp;
    AlignedUp(config.maxTrustedAdviceSize);
    AlignedUp(config.maxUntrustedAdviceSize);
    AlignedUp(config.maxInputSize);
    AlignedUp(config.maxOutputSize);
    var l := NewLayout(config).value;
    Starts(LowestAddress(l), l.maxTrustedAdviceSize, l.maxUntrustedAdviceSize, l.maxInputSize, l.maxOutputSize,
      NextPowerOfTwo(IoRegion(l) / 8));
  }

  lemma AlignedUp(v: nat)
    ensures AlignUp(v).Some? ==> AlignUp(v).value % 8 == 0
  {
    if v % 8 != 0 {
      var q := v / 8;
      DivUnique(v + (8 - v % 8), 8, q + 1, 0);
    }
  }

  /** The least multiple of eight that is not below v, written out. */
  function Eights(v: nat): nat {
    (v + 7) / 8 * 8
  }

  lemma AlignUpIs(v: nat)
    ensures AlignUp(v) == if Eights(v) < U64 then Some(Eights(v)) else None
    ensures v <= Eights(v) < v + 8 && Eights(v) % 8 == 0
  {
    var q, r := v / 8, v % 8;
    assert v == 8 * q + r;
    if r == 0 {
      DivUnique(v + 7, 8, q, 7);
    } else {
      DivUnique(v + 7, 8, q + 1, r - 1);
    }
  }

  /** The sizes of a layout are those of its configuration, and stack and heap follow the program. */
  lemma LayoutOfConfig(config: MemoryConfig)
    requires NewLayout(config).Some?
    ensures
      var l := NewLayout(config).value;
      && config.programSize == Some(l.programSize)
      && l.maxTrustedAdviceSize == Eights(config.maxTrustedAdviceSize)
      && l.maxUntrustedAdviceSize == Eights(config.maxUntrustedAdviceSize)
      && l.maxInputSize == Eights(config.maxInputSize)
      && l.maxOutputSize == Eights(config.maxOutputSize)
      && l.stackSize == Eights(config.stackSize)
      && l.heapSize == Eights(config.heapSize)
      && l.stackEnd - RAM_START_ADDRESS == l.programSize
      && l.heapEnd - l.stackEnd == 128 + l.stackSize + l.heapSize
  {
    hide IsPowerOfTwo, NextPowerOfTwo, AlignUp, Eights;
    AlignUpIs(config.maxTrustedAdviceSize);
    AlignUpIs(config.maxUntrustedAdviceSize);
    AlignUpIs(config.maxInputSize);
    AlignUpIs(config.maxOutputSize);
    AlignUpIs(config.stackSize);
    AlignUpIs(config.heapSize);
  }

  ghost predicate PowerOrZero(n: nat) {
    n == 0 || exists k: nat :: n == Pow2(k)
  }

  lemma PowerOrZeroIs(n: nat)
    ensures IsPowerOfTwo(n) || n == 0 <==> PowerOrZero(n)
  {
    if IsPowerOfTwo(n) {
      assert n == Pow2(CeilLog2(n));
    }
    if k: nat :| n == Pow2(k) {
      PowerIsPower(k);
    }
  }

  /** A number of words rounded up to a power of two fits below RAM exactly if it does itself. */
  lemma RoundedFits(words: nat)
    ensures NextPowerOfTwo(words) * 8 <= RAM_START_ADDRESS <==> words * 8 <= RAM_START_ADDRESS
  {
    PowerOf28();
    var e := CeilLog2(words);
    hide CeilLog2;
    if words <= Pow2(28) {
      if e > 28 {
        Pow2Monotone(28, e - 1);
      }
      Pow2Monotone(if e <= 28 then e else 28, 28);
    }
  }

  lemma PowerOf28()
    ensures Pow2(28) * 8 == RAM_START_ADDRESS
  {
    assert Pow2(1) == 2 && Pow2(2) == 4 && Pow2(3) == 8 && Pow2(4) == 16;
    hide Pow2;
    Pow2Add(4, 4);
    Pow2Add(8, 4);
    Pow2Add(8, 8);
    Pow2Add(16, 12);
  }

  /** When a configuration gets a layout. */
  ghost predicate Fits(config: MemoryConfig) {
    var trusted, untrusted := Eights(config.maxTrustedAdviceSize), Eights(config.maxUntrustedAdviceSize);
    && config.programSize.Some?
    && PowerOrZero(trusted)
    && PowerOrZero(untrusted)
    && trusted + untrusted + Eights(config.maxInputSize) + Eights(config.maxOutputSize) + 16 <= RAM_START_ADDRESS
    && RAM_START_ADDRESS + config.programSize.value + 128 + Eights(config.stackSize) + Eights(config.heapSize) < U64
  }

  /** A configuration gets a layout exactly if it fits. */
  lemma AcceptedIff(config: MemoryConfig)
    ensures NewLayout(config).Some? <==> Fits(config)
  {
    hide IsPowerOfTwo, NextPowerOfTwo, AlignUp, Eights, PowerOrZero;
    AlignUpIs(config.maxTrustedAdviceSize);
    AlignUpIs(config.maxUntrustedAdviceSize);
    AlignUpIs(config.maxInputSize);
    AlignUpIs(config.maxOutputSize);
    AlignUpIs(config.stackSize);
    AlignUpIs(config.heapSize);
    var t, u := Eights(config.maxTrustedAdviceSize), Eights(config.maxUntrustedAdviceSize);
    var i, o := Eights(config.maxInputSize), Eights(config.maxOutputSize);
    PowerOrZeroIs(t);
    PowerOrZeroIs(u);
    var words := (i + t + u + o + 16) / 8;
    RoundedFits(words);
    WholeWords(t, u, i, o);
  }

  lemma WholeWords(t: nat, u: nat, i: nat, o: nat)
    requires t % 8 == 0 && u % 8 == 0 && i % 8 == 0 && o % 8 == 0
    ensures (i + t + u + o + 16) / 8 * 8 == i + t + u + o + 16
  {
    SumAligned(i, t);
    SumAligned(i + t, u);
    SumAligned(i + t + u, o);
    SumAligned(i + t + u + o, 16);
  }

  lemma Starts(low: nat, t: nat, u: nat, i: nat, o: nat, p: nat)
    requires low + 8 * p == RAM_START_ADDRESS && t % 8 == 0 && u % 8 == 0 && i % 8 == 0 && o % 8 == 0
    ensures low % 8 == 0 && (low + t) % 8 == 0 && (low + u) % 8 == 0 && (low + t + u) % 8 == 0
    ensures (low + t + u + i) % 8 == 0 && (low + t + u + i + o) % 8 == 0
    ensures (low + t + u + i + o + 8) % 8 == 0 && (low + t + u + i + o + 16) % 8 == 0
    ensures t + u + i + o + 16 <= 8 * ((i + t + u + o + 16) / 8)
  {
    DivUnique(low, 8, RAM_START_ADDRESS / 8 - p, 0);
    SumAligned(low, t);
    SumAligned(low, u);
    SumAligned(low + t, u);
    SumAligned(low + t + u, i);
    SumAligned(low + t + u + i, o);
    SumAligned(low + t + u + i + o, 8);
    SumAligned(low + t + u + i + o + 8, 8);
    SumAligned(i, t);
    SumAligned(i + t, u);
    SumAligned(i + t + u, o);
    SumAligned(i + t + u + o, 16);
  }

  lemma SumAligned(a: nat, b: nat)
    requires a % 8 == 0 && b % 8 == 0
    ensures (a + b) % 8 == 0
  {
    DivUnique(a + b, 8, a / 8 + b / 8, 0);
  }

  lemma EightTimesPower(n: nat)
    ensures IsPowerOfTwo(8 * NextPowerOfTwo(n))
  {
    var e := CeilLog2(n);
    assert Pow2(e + 3) == 2 * Pow2(e + 2) && Pow2(e + 2) == 2 * Pow2(e + 1) && Pow2(e + 1) == 2 * Pow2(e);
    PowerIsPower(e + 3);
  }

  lemma PowerIsPower(j: nat)
    ensures IsPowerOfTwo(Pow2(j))
  {
    if j > 0 {
      assert Pow2(j) == 2 * Pow2(j - 1);
    }
    CeilLog2Unique(Pow2(j), j);
  }
}

/** The peripheral that records outputs and the panic flag. */
module Device {
  import opened Prelude
  import opened MemoryRegions

  /** A store by the guest. */
  datatype Write = Write(addr: nat, value: Byte)

  predicate IsPanic(l: MemoryLayout, a: nat) { l.panic <= a < l.termination }

  predicate IsTermination(l: MemoryLayout, a: nat) { l.termination <= a < l.ioEnd }

  predicate Within(start: nat, end: nat, a: nat) { start <= a < end }

  /** Addresses a store is accepted at. */
  predicate Accepts(l: MemoryLayout, a: nat) {
    l.outputStart <= a < l.ioEnd
  }

  /** The last byte stored at an address, or zero. */
  function LastStored(h: seq<Write>, a: nat): Byte {
    if h == [] then 0
    else if h[|h| - 1].addr == a then h[|h| - 1].value
    else LastStored(h[..|h| - 1], a)
  }

  /** One past the highest output offset stored at. */
  function HighWater(l: MemoryLayout, h: seq<Write>): nat {
    if h == [] then 0
    else
      var before, w := HighWater(l, h[..|h| - 1]), h[|h| - 1];
      if Within(l.outputStart, l.outputEnd, w.addr) then Max(before, w.addr - l.outputStart + 1) else before
  }

  predicate HitPanic(l: MemoryLayout, h: seq<Write>) {
    exists i | 0 <= i < |h| :: h[i].addr == l.panic
  }

  lemma {:induction false} NothingAbove(l: MemoryLayout, h: seq<Write>, a: nat)
    requires l.outputStart + HighWater(l, h) <= a < l.outputEnd
    ensures LastStored(h, a) == 0
  {
    if h != [] {
      NothingAbove(l, h[..|h| - 1], a);
    }
  }

  /** The last byte stored at an output offset. */
  function Stored(l: MemoryLayout, h: seq<Write>, i: nat): Byte {
    LastStored(h, l.outputStart + i)
  }

  lemma ZeroAbove(l: MemoryLayout, h: seq<Write>)
    requires l.outputStart <= l.outputEnd
    ensures forall i | HighWater(l, h) <= i < l.outputEnd - l.outputStart :: Stored(l, h, i) == 0
  {
    forall i | HighWater(l, h) <= i < l.outputEnd - l.outputStart
      ensures Stored(l, h, i) == 0
    {
      NothingAbove(l, h, l.outputStart + i);
    }
  }

  function Pick(bytes: seq<Byte>, i: nat): Byte {
    if i < |bytes| then bytes[i] else 0
  }

  datatype Loaded = HostPanic | Loaded(value: Byte)

  class JoltDevice {
    const layout: MemoryLayout
    const inputs: seq<Byte>
    const trustedAdvice: seq<Byte>
    const untrustedAdvice: seq<Byte>
    var outputs: seq<Byte>
    var panic: bool
    /** The accepted stores so far. */
    ghost var history: seq<Write>

    /** The device is what its run of stores made it. */
    ghost predicate Valid()
      reads this
    {
      && Consecutive(layout)
      && |outputs| == HighWater(layout, history) <= layout.maxOutputSize
      && (forall i | 0 <= i < |outputs| :: outputs[i] == Stored(layout, history, i))
      && panic == HitPanic(layout, history)
    }

    constructor (layout: MemoryLayout, inputs: seq<Byte>, trusted: seq<Byte>, untrusted: seq<Byte>)
      requires Consecutive(layout)
      ensures Valid() && history == []
      ensures this.layout == layout && this.inputs == inputs && trustedAdvice == trusted && untrustedAdvice == untrusted
    {
      this.layout, this.inputs, trustedAdvice, untrustedAdvice := layout, inputs, trusted, untrusted;
      outputs, panic, history := [], false, [];
    }

    /** Accepted stores are recorded; the others panic the host and change nothing. */
    method Store(address: nat, value: Byte) returns (ok: bool)
      requires Valid()
      modifies this
      ensures Valid() && ok == (layout.outputStart <= address < layout.ioEnd)
      ensures history == if ok then old(history) + [Write(address, value)] else old(history)
      ensures !ok ==> outputs == old(outputs) && panic == old(panic)
    {
      ghost var h := history;
      HistoryMore(layout, h, Write(address, value));
      if address == layout.panic {
        panic := true;
        history := h + [Write(address, value)];
        return true;
      }
      if IsPanic(layout, address) || IsTermination(layout, address) {
        history := h + [Write(address, value)];
        return true;
      }
      if address < layout.outputStart || address - layout.outputStart >= layout.outputEnd - layout.outputStart {
        return false;
      }
      var internal := address - layout.outputStart;
      if |outputs| <= internal {
        outputs := outputs + ZeroBytes(internal + 1 - |outputs|);
        ZeroAbove(layout, h);
      }
      outputs := outputs[internal := value];
      history := h + [Write(address, value)];
      ok := true;
    }

    /** One byte of a region; the host panics past the end of the I/O area. */
    function Load(a: nat): Loaded
      reads this
    {
      if IsPanic(layout, a) then Loaded(if panic then 1 else 0)
      else if IsTermination(layout, a) then Loaded(0)
      else if Within(layout.inputStart, layout.inputEnd, a) then Loaded(Pick(inputs, a - layout.inputStart))
      else if Within(layout.trustedAdviceStart, layout.trustedAdviceEnd, a) then
        Loaded(Pick(trustedAdvice, a - layout.trustedAdviceStart))
      else if Within(layout.untrustedAdviceStart, layout.untrustedAdviceEnd, a) then
        Loaded(Pick(untrustedAdvice, a - layout.untrustedAdviceStart))
      else if Within(layout.outputStart, layout.termination, a) then Loaded(Pick(outputs, a - layout.outputStart))
      else if a > RAM_START_ADDRESS - 8 then HostPanic
      else Loaded(0)
    }

    /** An output address gives the last byte stored there or zero. */
    lemma OutputLoad(a: nat)
      requires Valid() && Within(layout.outputStart, layout.outputEnd, a)
      ensures Load(a) == Loaded(LastStored(history, a))
    {
      var i := a - layout.outputStart;
      if i >= |outputs| {
        NothingAbove(layout, history, a);
      }
    }

    /** Every byte of the panic word reads 1 exactly if some store hit its first address. */
    lemma PanicLoad(a: nat)
      requires Valid() && IsPanic(layout, a)
      ensures Load(a) == Loaded(if HitPanic(layout, history) then 1 else 0)
    {
    }

    /** The termination word and everything around the regions read zero; past the last word below RAM it panics. */
    lemma OtherLoad(a: nat)
      requires Valid()
      requires IsTermination(layout, a) || a < LowestAddress(layout) || a >= layout.ioEnd
      ensures Load(a) == if a < layout.ioEnd || a <= 0x8000_0000 - 8 then Loaded(0) else HostPanic
    {
    }

    /** Inputs and advice read the same after any stores. */
    lemma InputLoad(a: nat)
      requires Valid()
      ensures Within(layout.inputStart, layout.inputEnd, a) ==> Load(a) == Loaded(Pick(inputs, a - layout.inputStart))
      ensures Within(layout.trustedAdviceStart, layout.trustedAdviceEnd, a)
        ==> Load(a) == Loaded(Pick(trustedAdvice, a - layout.trustedAdviceStart))
      ensures Within(layout.untrustedAdviceStart, layout.untrustedAdviceEnd, a)
        ==> Load(a) == Loaded(Pick(untrustedAdvice, a - layout.untrustedAdviceStart))
    {
    }
  }

  function ZeroBytes(n: nat): (z: seq<Byte>)
    ensures |z| == n && forall i | 0 <= i < n :: z[i] == 0
  {
    if n == 0 then [] else ZeroBytes(n - 1) + [0]
  }

  /** One more store. */
  lemma HistoryMore(l: MemoryLayout, h: seq<Write>, w: Write)
    ensures forall i: nat :: Stored(l, h + [w], i) == if w.addr == l.outputStart + i then w.value else Stored(l, h, i)
    ensures HighWater(l, h + [w])
      == if Within(l.outputStart, l.outputEnd, w.addr)
         then Max(HighWater(l, h), w.addr - l.outputStart + 1)
         else HighWater(l, h)
    ensures HitPanic(l, h + [w]) <==> HitPanic(l, h) || w.addr == l.panic
  {
    assert (h + [w])[..|h|] == h;
    if HitPanic(l, h) {
      var i :| 0 <= i < |h| && h[i].addr == l.panic;
      assert (h + [w])[i].addr == l.panic;
    }
    if w.addr == l.panic {
      assert (h + [w])[|h|].addr == l.panic;
    }
  }
}
