/** The C allocation functions of the guest over its bump allocator. */
module GuestHeap {
  import opened Prelude
  import opened Bits
  import opened LittleEndian

  /** Addresses are 64 bits wide. */
  const WRAP: nat := 0x1_0000_0000_0000_0000
  const HEADER: nat := 16
  const ALIGN: nat := 16
  /** The largest block size a layout with this alignment may have. */
  const MAX_LAYOUT: nat := 0x7fff_ffff_ffff_fff0

  datatype Layout = Layout(size: nat, align: nat)

  /** (addr + align - 1) & !(align - 1), in wrapping arithmetic. */
  function AlignUp(addr: nat, align: nat): nat
    requires 1 <= align <= WRAP
  {
    And((addr + align - 1) % WRAP, WRAP - align)
  }

  /** Clearing the low k bits of x takes these bits away. */
  lemma {:induction false} AndClears(x: nat, k: nat, n: nat)
    requires k <= n && x < Pow2(n)
    ensures Pow2(k) <= Pow2(n) && And(x, Pow2(n) - Pow2(k)) == x - And(x, Pow2(k) - 1)
  {
    hide And;
    if k == 0 {
      NothingCleared(x, n);
    } else {
      AndClears(x / 2, k - 1, n - 1);
      ClearStep(x, Pow2(k - 1), Pow2(n - 1));
    }
  }

  lemma NothingCleared(x: nat, n: nat)
    requires x < Pow2(n)
    ensures And(x, Pow2(n) - 1) == x && And(x, 0) == 0
  {
    assert And(x, 0) == 0;
    hide And, Pow2;
    AndMask(x, n);
    DivUnique(x, Pow2(n), 0, x);
  }

  lemma ClearStep(x: nat, p: nat, q: nat)
    requires 0 < p <= q && And(x / 2, q - p) == x / 2 - And(x / 2, p - 1)
    ensures And(x, 2 * q - 2 * p) == x - And(x, 2 * p - 1)
  {
    hide And;
    EvenMask(x, q - p);
    OddMask(x, p);
  }

  lemma EvenMask(x: nat, m: nat)
    ensures And(x, 2 * m) == 2 * And(x / 2, m)
  {
    assert (2 * m) / 2 == m && (2 * m) % 2 == 0;
  }

  lemma OddMask(x: nat, p: nat)
    requires p > 0
    ensures And(x, 2 * p - 1) == 2 * And(x / 2, p - 1) + x % 2
  {
    if x > 0 {
      AndStep(x, p);
    }
  }

  lemma PowersOfTwo()
    ensures Pow2(4) == ALIGN && Pow2(64) == WRAP
  {
    SmallPower();
    hide Pow2;
    Pow2Add(4, 4);
    Pow2Add(8, 8);
    Pow2Add(16, 16);
    Pow2Add(32, 32);
  }

  lemma SmallPower()
    ensures Pow2(4) == 16
  {
    assert Pow2(1) == 2 && Pow2(2) == 4 && Pow2(3) == 8;
  }

  predicate Aligned(a: nat) {
    a % ALIGN == 0
  }

  /** The next multiple of sixteen. */
  lemma AlignUpIsNext(addr: nat)
    requires addr + ALIGN <= WRAP
    ensures var r := AlignUp(addr, ALIGN); addr <= r < addr + ALIGN && Aligned(r)
  {
    hide Pow2, And;
    PowersOfTwo();
    var x := addr + ALIGN - 1;
    DivUnique(x, WRAP, 0, x);
    AndClears(x, 4, 64);
    AndMask(x, 4);
  }

  /** Past the last multiple of sixteen the address wraps around to zero. */
  lemma AlignUpWraps(addr: nat)
    requires addr < WRAP < addr + ALIGN
    ensures AlignUp(addr, ALIGN) == 0
  {
    hide Pow2, And;
    PowersOfTwo();
    var x := addr + ALIGN - 1;
    DivUnique(x, WRAP, 1, x - WRAP);
    AndClears(x - WRAP, 4, 64);
    AndMask(x - WRAP, 4);
  }

  /** Where the allocator stands: a zero stands for the start of the heap. */
  function TopOf(heapPtr: nat, allocNext: nat): nat {
    if allocNext == 0 then heapPtr else allocNext
  }

  /** Where an allocation starts and where the next one will, in wrapping arithmetic. */
  function SysAllocAt(heapPtr: nat, allocNext: nat, size: nat): (nat, nat) {
    var start := AlignUp(TopOf(heapPtr, allocNext), ALIGN);
    (start, (start + size) % WRAP)
  }

  /** So many bytes fit between the allocator and the last address. */
  predicate HasRoom(top: nat, size: nat) {
    top + ALIGN <= WRAP && AlignUp(top, ALIGN) + size < WRAP
  }

  /** With room the allocator moves past the new block, without it returns null or falls back below its end. */
  lemma Bumps(heapPtr: nat, allocNext: nat, size: nat)
    requires 0 < heapPtr <= TopOf(heapPtr, allocNext) < WRAP && size < WRAP
    ensures
      var (start, next) := SysAllocAt(heapPtr, allocNext, size);
      var top := TopOf(heapPtr, allocNext);
      && start + ALIGN <= WRAP && start % ALIGN == 0 && (start == 0 || top <= start)
      && (HasRoom(top, size) ==> start != 0 && start < top + ALIGN && next == TopOf(heapPtr, next) == start + size)
      && (!HasRoom(top, size) && start != 0 ==> start + size >= WRAP && TopOf(heapPtr, next) <= start)
  {
    var top := TopOf(heapPtr, allocNext);
    var start := SysAllocAt(heapPtr, allocNext, size).0;
    if top + ALIGN <= WRAP {
      AlignUpIsNext(top);
      LastMultiple(start);
      hide AlignUp;
      if start + size >= WRAP {
        DivUnique(start + size, WRAP, 1, start + size - WRAP);
      } else {
        DivUnique(start + size, WRAP, 0, start + size);
      }
    } else {
      AlignUpWraps(top);
    }
  }

  lemma LastMultiple(a: nat)
    requires a < WRAP && a % ALIGN == 0
    ensures a + ALIGN <= WRAP
  {
  }

  /** The blocks the C program holds: payload address to payload size. */
  type Blocks = map<nat, nat>

  ghost predicate Apart(blocks: Blocks) {
    forall p, q | p in blocks && q in blocks && p < q :: p + blocks[p] + HEADER <= q
  }

  ghost predicate Placed(blocks: Blocks, low: nat, top: nat) {
    forall p | p in blocks :: low + HEADER <= p && p % ALIGN == 0 && 1 <= blocks[p] && p + blocks[p] <= top
  }

  ghost predicate Headed(blocks: Blocks, mem: map<nat, Byte>) {
    forall p | p in blocks :: p >= HEADER && FromLe(Slice(mem, p - HEADER, 8)) == blocks[p]
  }

  /** Header and payload of every block read the same. */
  ghost predicate SameBytes(blocks: Blocks, m1: map<nat, Byte>, m2: map<nat, Byte>) {
    forall p, a: nat | p in blocks && p <= a + HEADER && a < p + blocks[p] :: At(m1, a) == At(m2, a)
  }

  /** Writing outside the blocks leaves them alone. */
  lemma PutOutside(blocks: Blocks, mem: map<nat, Byte>, addr: nat, bytes: seq<Byte>)
    requires forall p | p in blocks :: p + blocks[p] <= addr || addr + |bytes| + HEADER <= p
    ensures SameBytes(blocks, mem, Put(mem, addr, bytes))
  {
    forall p, a: nat | p in blocks && p <= a + HEADER && a < p + blocks[p]
      ensures At(mem, a) == At(Put(mem, addr, bytes), a)
    {
      PutAt(mem, addr, bytes, a);
    }
  }

  lemma HeadersKept(blocks: Blocks, m1: map<nat, Byte>, m2: map<nat, Byte>)
    requires Headed(blocks, m1) && SameBytes(blocks, m1, m2)
    ensures Headed(blocks, m2)
  {
    forall p | p in blocks
      ensures FromLe(Slice(m2, p - HEADER, 8)) == blocks[p]
    {
      assert Slice(m1, p - HEADER, 8) == Slice(m2, p - HEADER, 8);
    }
  }

  /** The blocks are in order and every header holds its payload size. */
  ghost predicate Sound(blocks: Blocks, mem: map<nat, Byte>, low: nat, top: nat) {
    Apart(blocks) && Placed(blocks, low, top) && Headed(blocks, mem)
  }

  /** Every layout on record is the one its block was allocated with. */
  ghost predicate Recorded(blocks: Blocks, layouts: map<nat, Layout>) {
    forall p | p in blocks :: p >= HEADER && p - HEADER in layouts
        && layouts[p - HEADER] == Layout(HEADER + blocks[p], ALIGN)
  }

  /** A block above all others keeps the blocks in order. */
  lemma AddBlock(blocks: Blocks, mem: map<nat, Byte>, more: map<nat, Byte>, low: nat, top: nat, b: nat, payload: nat)
    requires Sound(blocks, mem, low, top) && SameBytes(blocks, mem, more)
    requires low <= top <= b && b % ALIGN == 0 && payload >= 1
    requires FromLe(Slice(more, b, 8)) == payload
    ensures b + HEADER !in blocks && Sound(blocks[b + HEADER := payload], more, low, b + HEADER + payload)
  {
    HeadersKept(blocks, mem, more);
    hide FromLe, Slice, SameBytes;
    assert (b + HEADER) % ALIGN == 0;
  }

  lemma AddLayout(blocks: Blocks, layouts: map<nat, Layout>, mem: map<nat, Byte>, low: nat, top: nat, b: nat,
      payload: nat)
    requires Sound(blocks, mem, low, top) && top <= b && Recorded(blocks, layouts)
    ensures Recorded(blocks[b + HEADER := payload], layouts[b := Layout(HEADER + payload, ALIGN)])
  {
    hide FromLe, Slice;
  }

  /** The header of a new block is written without touching the others. */
  lemma HeaderOnly(blocks: Blocks, mem: map<nat, Byte>, low: nat, top: nat, b: nat, payload: nat)
    requires Sound(blocks, mem, low, top) && top <= b && payload < WRAP
    ensures var m := Put(mem, b, ToLe(payload, 8)); SameBytes(blocks, mem, m) && FromLe(Slice(m, b, 8)) == payload
  {
    PutOutside(blocks, mem, b, ToLe(payload, 8));
    HeaderWritten(mem, b, payload);
  }

  /** Clearing a new block first changes nothing about that. */
  lemma ClearedHeader(blocks: Blocks, mem: map<nat, Byte>, low: nat, top: nat, b: nat, payload: nat)
    requires Sound(blocks, mem, low, top) && top <= b && payload < WRAP
    ensures
      var m := Put(Put(mem, b, Zeros(HEADER + payload)), b, ToLe(payload, 8));
      && SameBytes(blocks, mem, m) && FromLe(Slice(m, b, 8)) == payload
      && Slice(m, b + HEADER, payload) == Zeros(payload)
  {
    var cleared := Put(mem, b, Zeros(HEADER + payload));
    PutOutside(blocks, mem, b, Zeros(HEADER + payload));
    PutOutside(blocks, cleared, b, ToLe(payload, 8));
    SameBytesChain(blocks, mem, cleared, Put(cleared, b, ToLe(payload, 8)));
    HeaderWritten(cleared, b, payload);
    forall i | 0 <= i < payload
      ensures Slice(Put(cleared, b, ToLe(payload, 8)), b + HEADER, payload)[i] == Zeros(payload)[i]
    {
      PutAt(cleared, b, ToLe(payload, 8), b + HEADER + i);
      PutAt(mem, b, Zeros(HEADER + payload), b + HEADER + i);
    }
  }

  lemma HeaderWritten(mem: map<nat, Byte>, b: nat, payload: nat)
    requires payload < WRAP
    ensures FromLe(Slice(Put(mem, b, ToLe(payload, 8)), b, 8)) == payload
  {
    var m := Put(mem, b, ToLe(payload, 8));
    forall i | 0 <= i < 8
      ensures Slice(m, b, 8)[i] == ToLe(payload, 8)[i]
    {
      PutAt(mem, b, ToLe(payload, 8), b + i);
    }
    assert Slice(m, b, 8) == ToLe(payload, 8);
    assert Size(8) == WRAP by {
      assert Size(1) == 256 && Size(2) == 256 * 256 && Size(4) == 256 * Size(3) && Size(3) == 256 * Size(2);
      assert Size(8) == 256 * Size(7) && Size(7) == 256 * Size(6) && Size(6) == 256 * Size(5)
          && Size(5) == 256 * Size(4);
    }
    FromToLe(payload, 8);
  }

  /**
   * The allocator checks nothing, so this is exactly when it is right: for every heap in order and every request
   * that gets a layout, the heap with the new block is in order if and only if the request has room.
   */
  lemma AllocationSound(blocks: Blocks, mem: map<nat, Byte>, more: map<nat, Byte>, low: nat, next: nat, payload: nat)
    requires 0 < low <= TopOf(low, next) < WRAP && Sound(blocks, mem, low, TopOf(low, next))
    requires 1 <= payload <= MAX_LAYOUT - HEADER
    requires
      var b := SysAllocAt(low, next, HEADER + payload).0;
      b != 0 ==> SameBytes(blocks, mem, more) && FromLe(Slice(more, b, 8)) == payload
    ensures
      var (b, next') := SysAllocAt(low, next, HEADER + payload);
      var top' := TopOf(low, next');
      && (HasRoom(TopOf(low, next), HEADER + payload) <==>
            b != 0 && low <= top' < WRAP && Sound(blocks[b + HEADER := payload], more, low, top'))
  {
    Bumps(low, next, HEADER + payload);
    var (b, next') := SysAllocAt(low, next, HEADER + payload);
    if HasRoom(TopOf(low, next), HEADER + payload) {
      hide SysAllocAt;
      AddBlock(blocks, mem, more, low, TopOf(low, next), b, payload);
    } else {
      hide SysAllocAt, Headed, SameBytes, FromLe, Slice, Apart;
      assert b + HEADER in blocks[b + HEADER := payload];
    }
  }

  /** Where the allocator goes for a list of layouts. */
  function NextAfter(heapPtr: nat, allocNext: nat, sizes: seq<nat>): nat
    decreases |sizes|
  {
    if sizes == [] then allocNext
    else NextAfter(heapPtr, SysAllocAt(heapPtr, allocNext, sizes[0]).1, sizes[1..])
  }

  predicate Requests(sizes: seq<nat>) {
    forall i | 0 <= i < |sizes| :: HEADER < sizes[i] <= MAX_LAYOUT
  }

  /**
   * What a missing check costs: after an allocation without room, at most two more requests bring the allocator
   * to a place where the block of the next one begins inside the block just handed out.
   */
  lemma WithoutRoomBlocksMeet(low: nat, next: nat, size: nat) returns (more: seq<nat>)
    requires 0 < low <= TopOf(low, next) < WRAP && HEADER < size <= MAX_LAYOUT
    requires !HasRoom(TopOf(low, next), size) && SysAllocAt(low, next, size).0 != 0
    ensures |more| <= 2 && Requests(more)
    ensures
      var (start, next') := SysAllocAt(low, next, size);
      forall last :: start <= SysAllocAt(low, NextAfter(low, next', more), last).0 < start + size
  {
    Bumps(low, next, size);
    var (start, next') := SysAllocAt(low, next, size);
    DivUnique(start + size, WRAP, 1, start + size - WRAP);
    AlignUpIsNext(TopOf(low, next'));
    AlignedOrder(TopOf(low, next'), AlignUp(TopOf(low, next'), ALIGN), start);
    hide AlignUp;
    more := Fill(low, next', start);
  }

  lemma AlignedOrder(top: nat, t: nat, start: nat)
    requires top <= start && top <= t < top + ALIGN && Aligned(t) && Aligned(start)
    ensures t <= start
  {
  }

  /** One or two requests move the allocator up to an address above it. */
  lemma Fill(low: nat, next: nat, start: nat) returns (more: seq<nat>)
    requires TopOf(low, next) + ALIGN <= WRAP && start + ALIGN <= WRAP && Aligned(start)
    requires
      var t := AlignUp(TopOf(low, next), ALIGN);
      0 < t <= start && (start + ALIGN == WRAP ==> start - t > MAX_LAYOUT + HEADER)
    ensures |more| <= 2 && Requests(more)
    ensures start <= AlignUp(TopOf(low, NextAfter(low, next, more)), ALIGN) <= start + ALIGN
  {
    hide AlignUp, SysAllocAt, Aligned;
    var t := AlignUp(TopOf(low, next), ALIGN);
    var d := start - t;
    AlignUpIsNext(TopOf(low, next));
    AlignedGap(start, t);
    if d == 0 {
      more := [];
    } else if d <= MAX_LAYOUT {
      more := [AtLeastOne(d)];
      OneMore(low, next, start, d);
    } else {
      more := [MAX_LAYOUT, AtLeastOne(d - MAX_LAYOUT)];
      TwoMore(low, next, start, d);
    }
  }

  lemma TwoMore(low: nat, next: nat, start: nat, d: nat)
    requires TopOf(low, next) + ALIGN <= WRAP && start == AlignUp(TopOf(low, next), ALIGN) + d
    requires start + ALIGN <= WRAP && Aligned(start) && Aligned(d)
    requires MAX_LAYOUT + ALIGN <= d < WRAP - ALIGN && (start + ALIGN == WRAP ==> d > MAX_LAYOUT + HEADER)
    ensures start <= AlignUp(TopOf(low, NextAfter(low, next, [MAX_LAYOUT, AtLeastOne(d - MAX_LAYOUT)])), ALIGN)
      <= start + ALIGN
  {
    hide AlignUp, SysAllocAt, NextAfter, Aligned;
    var t, rest := AlignUp(TopOf(low, next), ALIGN), d - MAX_LAYOUT;
    NextAfterTwo(low, next, MAX_LAYOUT, AtLeastOne(rest));
    StepTo(low, next, MAX_LAYOUT);
    SecondMore(low, start, t, d);
  }

  lemma SecondMore(low: nat, start: nat, t: nat, d: nat)
    requires start == t + d && Aligned(start) && Aligned(d) && start + ALIGN <= WRAP
    requires MAX_LAYOUT + ALIGN <= d < WRAP - ALIGN && (start + ALIGN == WRAP ==> d > MAX_LAYOUT + HEADER)
    ensures start <= AlignUp(TopOf(low, NextAfter(low, t + MAX_LAYOUT, [AtLeastOne(d - MAX_LAYOUT)])), ALIGN)
      <= start + ALIGN
  {
    hide AlignUp, SysAllocAt, NextAfter, Aligned;
    RestAligned(start, t, d);
    AlignUpStays(t + MAX_LAYOUT);
    OneMore(low, t + MAX_LAYOUT, start, d - MAX_LAYOUT);
  }

  lemma RestAligned(start: nat, t: nat, d: nat)
    requires start == t + d && Aligned(start) && Aligned(d) && d >= MAX_LAYOUT
    ensures Aligned(d - MAX_LAYOUT) && Aligned(t + MAX_LAYOUT)
  {
  }

  lemma NextAfterTwo(low: nat, next: nat, first: nat, second: nat)
    ensures NextAfter(low, next, [first, second]) == NextAfter(low, SysAllocAt(low, next, first).1, [second])
  {
    hide SysAllocAt;
    assert [first, second][1..] == [second];
  }

  /** The smallest request that moves the allocator at least this far. */
  function AtLeastOne(d: nat): nat {
    if d == HEADER then HEADER + 1 else d
  }

  /** Two large requests wrap around; the third block lies below the heap and the fourth is the first one again. */
  lemma FourRequests()
    ensures
      var heapPtr: nat := 0x8000_0000;
      var (b1, n1) := SysAllocAt(heapPtr, 0, MAX_LAYOUT);
      var (b2, n2) := SysAllocAt(heapPtr, n1, MAX_LAYOUT);
      var (b3, n3) := SysAllocAt(heapPtr, n2, HEADER + 1);
      var (b4, n4) := SysAllocAt(heapPtr, n3, HEADER + 1);
      b1 == heapPtr && b2 == b1 + MAX_LAYOUT && b3 < heapPtr && b4 == b1
  {
    var h := 0x8000_0000;
    AlignUpStays(h);
    AlignUpStays(h + MAX_LAYOUT);
    AlignUpStays(h - 32);
    AlignUpIsNext(h - 15);
    hide AlignUp;
  }

  lemma AlignedGap(a: nat, b: nat)
    requires b <= a && Aligned(a) && Aligned(b)
    ensures Aligned(a - b) && (a > b ==> a - b >= ALIGN)
    ensures a - b > MAX_LAYOUT ==> a - b >= MAX_LAYOUT + ALIGN && Aligned(a - b - MAX_LAYOUT)
    ensures Aligned(b + MAX_LAYOUT)
  {
  }

  lemma AlignUpStays(a: nat)
    requires a + ALIGN <= WRAP && Aligned(a)
    ensures AlignUp(a, ALIGN) == a
  {
    AlignUpIsNext(a);
    OneMultiple(a, AlignUp(a, ALIGN));
    hide AlignUp;
  }

  lemma OneMultiple(a: nat, r: nat)
    requires Aligned(a) && Aligned(r) && a <= r < a + ALIGN
    ensures r == a
  {
  }

  lemma StepTo(low: nat, next: nat, size: nat)
    requires TopOf(low, next) + ALIGN <= WRAP && size > 0 && AlignUp(TopOf(low, next), ALIGN) + size < WRAP
    ensures SysAllocAt(low, next, size).1 == AlignUp(TopOf(low, next), ALIGN) + size
  {
    hide AlignUp;
  }

  lemma OneMore(low: nat, next: nat, start: nat, d: nat)
    requires TopOf(low, next) + ALIGN <= WRAP && start == AlignUp(TopOf(low, next), ALIGN) + d
    requires start + ALIGN <= WRAP && Aligned(start) && ALIGN <= d && Aligned(d)
    requires start + ALIGN < WRAP || d > HEADER
    ensures
      var top := TopOf(low, NextAfter(low, next, [AtLeastOne(d)]));
      start <= AlignUp(top, ALIGN) <= start + ALIGN
  {
    StepTo(low, next, AtLeastOne(d));
    var top := AlignUp(TopOf(low, next), ALIGN) + AtLeastOne(d);
    AlignUpIsNext(top);
    hide AlignUp;
    assert NextAfter(low, next, [AtLeastOne(d)]) == top;
  }

  /** Removing blocks keeps the rest in order. */
  lemma RemoveBlock(blocks: Blocks, mem: map<nat, Byte>, low: nat, top: nat, p: nat)
    requires Sound(blocks, mem, low, top)
    ensures Sound(blocks - {p}, mem, low, top)
  {
    hide FromLe, Slice;
  }

  class Heap {
    const heapPtr: nat
    var allocNext: nat
    var mem: map<nat, Byte>
    ghost var blocks: Blocks
    ghost var layouts: map<nat, Layout>

    ghost function Top(): nat
      reads this
    {
      TopOf(heapPtr, allocNext)
    }

    ghost predicate Valid()
      reads this
    {
      0 < heapPtr <= Top() < WRAP && Sound(blocks, mem, heapPtr, Top()) && Recorded(blocks, layouts)
    }

    /** The header of a block holds its size, and the allocator knows its layout. */
    ghost predicate Held(p: nat)
      reads this
    {
      && p >= HEADER && p in blocks && FromLe(Slice(mem, p - HEADER, 8)) == blocks[p]
      && p - HEADER in layouts && layouts[p - HEADER] == Layout(HEADER + blocks[p], ALIGN)
    }

    constructor (heapPtr: nat)
      requires 0 < heapPtr < WRAP
      ensures Valid() && blocks == map[] && this.heapPtr == heapPtr
    {
      this.heapPtr := heapPtr;
      allocNext, mem, blocks, layouts := 0, map[], map[], map[];
    }

    method SysAlloc(size: nat, align: nat) returns (p: nat)
      requires align == ALIGN
      modifies this`allocNext, this`layouts
      ensures (p, allocNext) == SysAllocAt(heapPtr, old(allocNext), size)
      ensures layouts == old(layouts)[p := Layout(size, align)]
    {
      var next := allocNext;
      if next == 0 {
        next := heapPtr;
      }
      next := AlignUp(next, align);
      p := next;
      allocNext := (next + size) % WRAP;
      layouts := layouts[p := Layout(size, align)];
    }

    /** The allocator's contract: the layout must be the one the block was allocated with. */
    ghost method Dealloc(p: nat, layout: Layout)
      requires p in layouts && layouts[p] == layout
      modifies this`layouts
      ensures layouts == old(layouts) - {p}
    {
      layouts := layouts - {p};
    }

    /** The allocator moved on for a block of so many payload bytes; old blocks keep bytes and layouts. */
    twostate predicate Attempted(p: nat, payload: nat)
      reads this
    {
      var (start, next) := SysAllocAt(heapPtr, old(allocNext), HEADER + payload);
      && allocNext == next && p == (if start == 0 then 0 else (start + HEADER) % WRAP) && p !in old(blocks)
      && (p == 0 || old(Top()) < p) && blocks == (if p == 0 then old(blocks) else old(blocks)[p := payload])
      && SameBytes(old(blocks), old(mem), mem) && Recorded(old(blocks), layouts)
    }

    /** The payload lies behind its header at the next multiple of sixteen, and the allocator at its end. */
    twostate predicate Next(p: nat, payload: nat)
      reads this
    {
      && p % 16 == 0
      && old(Top()) + 16 <= p < old(Top()) + 32
      && Top() == p + payload
    }

    /** The state after a block of so many payload bytes was added at p. */
    twostate predicate Added(p: nat, payload: nat)
      reads this
    {
      && Valid() && p != 0 && p !in old(blocks) && blocks == old(blocks)[p := payload]
      && SameBytes(old(blocks), old(mem), mem)
    }

    /**
     * Allocates [header][payload] and writes the header; 0 when the layout is refused. The block is added to a heap
     * in order exactly when the address space has room; without room it is null or reaches past the allocator.
     */
    method Malloc(size: nat) returns (p: nat)
      requires Valid() && size < WRAP
      modifies this
      ensures Payload(size) > MAX_LAYOUT - HEADER ==> p == 0 && unchanged(this)
      ensures Payload(size) <= MAX_LAYOUT - HEADER ==>
        && Attempted(p, Payload(size))
        && (Added(p, Payload(size)) <==> old(HasRoom(Top(), HEADER + Payload(size))))
        && (p == 0 || Added(p, Payload(size)) || Top() < p + Payload(size))
        && (old(HasRoom(Top(), HEADER + Payload(size))) ==> Next(p, if size == 0 then 1 else size))
    {
      hide Sound, Recorded, SameBytes, Put, ToLe, FromLe, Slice, AlignUp, HasRoom, SysAllocAt;
      var payload := Payload(size);
      if payload > MAX_LAYOUT - HEADER {
        return 0;
      }
      ghost var next := allocNext;
      NoNullBlock(blocks, mem, heapPtr, Top());
      Bumps(heapPtr, next, HEADER + payload);
      var b := SysAlloc(HEADER + payload, ALIGN);
      NotTheirs(blocks, old(layouts), mem, heapPtr, TopOf(heapPtr, next), b, payload);
      if b == 0 {
        SameBytesSelf(blocks, mem);
        return 0;
      }
      HeaderOnly(blocks, mem, heapPtr, TopOf(heapPtr, next), b, payload);
      AllocationSound(blocks, mem, Put(mem, b, ToLe(payload, 8)), heapPtr, next, payload);
      AddLayout(blocks, old(layouts), mem, heapPtr, TopOf(heapPtr, next), b, payload);
      mem := Put(mem, b, ToLe(payload, 8));
      p := (b + HEADER) % WRAP;
      if p != 0 {
        SmallSum(b);
        blocks := blocks[p := payload];
      }
    }

    /** Rebuilds the layout from the header and hands the block back. */
    method Free(p: nat)
      requires (p == 0 && Valid()) || Held(p)
      modifies this`blocks, this`layouts
      ensures blocks == old(blocks) - {p}
      ensures old(Valid()) ==> Valid()
    {
      hide Sound, Recorded, FromLe, Slice;
      if p == 0 {
        NoNullBlock(blocks, mem, heapPtr, Top());
        NothingRemoved(blocks, p);
        return;
      }
      var payload := FromLe(Slice(mem, p - HEADER, 8));
      Dealloc(p - HEADER, Layout(HEADER + payload, ALIGN));
      if old(Valid()) {
        RemoveBlock(blocks, mem, heapPtr, Top(), p);
        RemoveLayout(blocks, old(layouts), p);
      }
      blocks := blocks - {p};
    }

    /** Zeroed memory for an array; 0 when the size overflows, is zero or is refused. */
    method Calloc(count: nat, elemSize: nat) returns (p: nat)
      requires Valid()
      modifies this
      ensures
        var total := Product(count, elemSize);
        && (total <= 0 || total > MAX_LAYOUT - HEADER ==> p == 0 && unchanged(this))
        && (0 < total <= MAX_LAYOUT - HEADER ==>
              && Attempted(p, total)
              && (Added(p, total) <==> old(HasRoom(Top(), HEADER + total)))
              && (old(HasRoom(Top(), HEADER + total)) ==> Next(p, total))
              && (Added(p, total) ==> Slice(mem, p, total) == Zeros(total)))
    {
      hide Sound, Recorded, SameBytes, Put, ToLe, FromLe, Slice, AlignUp, Product, Zeros, HasRoom, SysAllocAt;
      var total := Product(count, elemSize);
      if total >= WRAP || total <= 0 || total > MAX_LAYOUT - HEADER {
        return 0;
      }
      ghost var next := allocNext;
      NoNullBlock(blocks, mem, heapPtr, Top());
      Bumps(heapPtr, next, HEADER + total);
      var b := SysAlloc(HEADER + total, ALIGN);
      NotTheirs(blocks, old(layouts), mem, heapPtr, TopOf(heapPtr, next), b, total);
      if b == 0 {
        SameBytesSelf(blocks, mem);
        return 0;
      }
      var cleared := Put(mem, b, Zeros(HEADER + total));
      ClearedHeader(blocks, mem, heapPtr, TopOf(heapPtr, next), b, total);
      AllocationSound(blocks, mem, Put(cleared, b, ToLe(total, 8)), heapPtr, next, total);
      AddLayout(blocks, old(layouts), mem, heapPtr, TopOf(heapPtr, next), b, total);
      mem := Put(cleared, b, ToLe(total, 8));
      p := (b + HEADER) % WRAP;
      if p != 0 {
        SmallSum(b);
        blocks := blocks[p := total];
      }
    }

    /** The state after the block at p was replaced by one at q of another size with the same first bytes. */
    twostate predicate Moved(p: nat, q: nat, newSize: nat)
      reads this
    {
      && Valid() && q != 0 && q !in old(blocks) && blocks == (old(blocks) - {p})[q := Payload(newSize)]
      && SameBytes(old(blocks) - {p}, old(mem), mem)
      && (p in old(blocks) ==>
            Slice(mem, q, Min(old(blocks)[p], newSize)) == Slice(old(mem), p, Min(old(blocks)[p], newSize)))
    }

    /** A block of another size with the same first bytes; the old one is freed. */
    method Realloc(p: nat, newSize: nat) returns (q: nat)
      requires Valid() && (p == 0 || p in blocks) && newSize < WRAP
      modifies this
      ensures p != 0 && newSize == 0 ==> q == 0 && Valid() && blocks == old(blocks) - {p} && mem == old(mem)
      ensures Payload(newSize) > MAX_LAYOUT - HEADER ==> q == 0 && unchanged(this)
      ensures (p == 0 || newSize > 0) && Payload(newSize) <= MAX_LAYOUT - HEADER ==>
        && (Moved(p, q, newSize) <==> old(HasRoom(Top(), HEADER + Payload(newSize))))
        && (old(HasRoom(Top(), HEADER + Payload(newSize))) ==> Next(q, if newSize == 0 then 1 else newSize))
    {
      NoNullBlock(blocks, mem, heapPtr, Top());
      HeldInValid(blocks, mem, layouts, heapPtr, Top(), p);
      hide Sound, Recorded, SameBytes, Put, ToLe, FromLe, Slice, AlignUp, HasRoom, SysAllocAt;
      if p == 0 {
        NothingRemoved(blocks, p);
        q := Malloc(newSize);
        return;
      }
      if newSize == 0 {
        Free(p);
        return 0;
      }
      var oldSize := FromLe(Slice(mem, p - HEADER, 8));
      ghost var blocks0, mem0, room := blocks, mem, HasRoom(Top(), HEADER + Payload(newSize));
      q := Malloc(newSize);
      if q == 0 {
        return 0;
      }
      ghost var mem1 := mem;
      AddThenRemove(blocks0, p, q, Payload(newSize));
      SliceKept(blocks0, mem0, mem1, p, Min(oldSize, newSize));
      HeldStill(blocks0, mem0, mem1, layouts, p);
      BelowTop(blocks0, mem0, heapPtr, old(Top()), p);
      MoveBlock(p, q, Min(oldSize, newSize));
      if room {
        OthersKept(blocks0, p, q, Payload(newSize), mem0, mem1, mem);
      } else {
        NotPlaced(blocks, mem, heapPtr, Top(), q);
      }
    }

    /** Copies the first n bytes of one block into another and frees it. */
    method MoveBlock(p: nat, q: nat, n: nat)
      requires Held(p) && q in blocks && p != q && p != 0 && n <= blocks[p] && n <= blocks[q]
      requires Valid() || p <= q
      modifies this
      ensures blocks == old(blocks) - {p} && allocNext == old(allocNext)
      ensures old(Valid()) ==> Valid() && Slice(mem, q, n) == Slice(old(mem), p, n)
      ensures old(Valid()) ==> SameBytes(old(blocks) - {q}, old(mem), mem)
    {
      hide Sound, Recorded, SameBytes, Put, ToLe, FromLe, Slice;
      Overwrite(q, Slice(mem, p, n));
      if old(Valid()) {
        HeldInValid(blocks, mem, layouts, heapPtr, Top(), p);
      } else {
        SliceBelow(old(mem), q, Slice(old(mem), p, n), p - HEADER, 8);
      }
      Free(p);
    }

    /** Bytes written into a block's own payload, as the C program or a copy does. */
    method Overwrite(q: nat, bytes: seq<Byte>)
      requires q in blocks && |bytes| <= blocks[q]
      modifies this`mem
      ensures mem == Put(old(mem), q, bytes)
      ensures old(Valid()) ==> Valid() && Slice(mem, q, |bytes|) == bytes && SameBytes(blocks - {q}, old(mem), mem)
    {
      hide Sound, Recorded, SameBytes, Put, Slice;
      if Valid() {
        OwnPayload(blocks, mem, heapPtr, Top(), q, bytes);
      }
      mem := Put(mem, q, bytes);
    }
  }

  function Zeros(n: nat): (z: seq<Byte>)
    ensures |z| == n && forall i | 0 <= i < n :: z[i] == 0
  {
    if n == 0 then [] else Zeros(n - 1) + [0]
  }

  lemma AddThenRemove(blocks: Blocks, p: nat, q: nat, payload: nat)
    requires p != q
    ensures blocks[q := payload] - {p} == (blocks - {p})[q := payload]
  {
  }

  lemma NothingRemoved(blocks: Blocks, p: nat)
    requires p !in blocks
    ensures blocks - {p} == blocks
  {
  }

  lemma NoNullBlock(blocks: Blocks, mem: map<nat, Byte>, low: nat, top: nat)
    requires Sound(blocks, mem, low, top)
    ensures 0 !in blocks
  {
  }

  /** In a heap in order every block is held. */
  lemma HeldInValid(blocks: Blocks, mem: map<nat, Byte>, layouts: map<nat, Layout>, low: nat, top: nat, p: nat)
    requires Sound(blocks, mem, low, top) && Recorded(blocks, layouts)
    ensures p in blocks ==>
      && p >= HEADER && FromLe(Slice(mem, p - HEADER, 8)) == blocks[p]
      && p - HEADER in layouts && layouts[p - HEADER] == Layout(HEADER + blocks[p], ALIGN)
  {
  }

  /** And it stays held while its bytes and layouts are kept. */
  lemma HeldStill(blocks: Blocks, m0: map<nat, Byte>, m1: map<nat, Byte>, layouts: map<nat, Layout>, p: nat)
    requires p in blocks && p >= HEADER && FromLe(Slice(m0, p - HEADER, 8)) == blocks[p]
    requires SameBytes(blocks, m0, m1) && Recorded(blocks, layouts) && blocks[p] >= 1
    ensures FromLe(Slice(m1, p - HEADER, 8)) == blocks[p]
    ensures p - HEADER in layouts && layouts[p - HEADER] == Layout(HEADER + blocks[p], ALIGN)
  {
    assert Slice(m0, p - HEADER, 8) == Slice(m1, p - HEADER, 8);
  }

  lemma BelowTop(blocks: Blocks, mem: map<nat, Byte>, low: nat, top: nat, p: nat)
    requires Sound(blocks, mem, low, top) && p in blocks
    ensures p < top
  {
  }

  lemma NotPlaced(blocks: Blocks, mem: map<nat, Byte>, low: nat, top: nat, q: nat)
    requires q in blocks && q + blocks[q] > top
    ensures !Sound(blocks, mem, low, top)
  {
  }

  lemma SameBytesSelf(blocks: Blocks, mem: map<nat, Byte>)
    ensures SameBytes(blocks, mem, mem)
  {
  }

  /** A block that starts above all others, or not at all, is none of theirs. */
  lemma NotTheirs(blocks: Blocks, layouts: map<nat, Layout>, mem: map<nat, Byte>, low: nat, top: nat, b: nat,
      payload: nat)
    requires 0 < low <= top && Sound(blocks, mem, low, top) && Recorded(blocks, layouts)
    requires b + HEADER <= WRAP && (b == 0 || top <= b)
    ensures Recorded(blocks, layouts[b := Layout(HEADER + payload, ALIGN)])
    ensures b == 0 || (b + HEADER) % WRAP !in blocks
  {
    hide FromLe, Slice;
  }

  lemma SmallSum(b: nat)
    requires b + HEADER <= WRAP && (b + HEADER) % WRAP != 0
    ensures (b + HEADER) % WRAP == b + HEADER
  {
  }

  lemma RemoveLayout(blocks: Blocks, layouts: map<nat, Layout>, p: nat)
    requires Recorded(blocks, layouts) && p in blocks
    ensures Recorded(blocks - {p}, layouts - {p - HEADER})
  {
  }

  /** Writing a payload keeps every header and every other block. */
  lemma OwnPayload(blocks: Blocks, mem: map<nat, Byte>, low: nat, top: nat, q: nat, bytes: seq<Byte>)
    requires Sound(blocks, mem, low, top) && q in blocks && |bytes| <= blocks[q]
    ensures
      var m := Put(mem, q, bytes);
      Sound(blocks, m, low, top) && Slice(m, q, |bytes|) == bytes && SameBytes(blocks - {q}, mem, m)
  {
    hide FromLe, Slice, Put, SameBytes;
    var m := Put(mem, q, bytes);
    PutOutside(blocks - {q}, mem, q, bytes);
    SliceOfPut(mem, q, bytes);
    HeadersKept(blocks - {q}, mem, m);
    SliceBelow(mem, q, bytes, q - HEADER, 8);
    HeadedWith(blocks, m, q);
  }

  lemma {:induction false} SliceBelow(mem: map<nat, Byte>, addr: nat, bytes: seq<Byte>, from: nat, n: nat)
    requires from + n <= addr
    ensures Slice(Put(mem, addr, bytes), from, n) == Slice(mem, from, n)
  {
    if n > 0 {
      SliceBelow(mem, addr, bytes, from, n - 1);
      PutAt(mem, addr, bytes, from + n - 1);
    }
  }

  lemma HeadedWith(blocks: Blocks, m: map<nat, Byte>, q: nat)
    requires Headed(blocks - {q}, m) && q in blocks && q >= HEADER && FromLe(Slice(m, q - HEADER, 8)) == blocks[q]
    ensures Headed(blocks, m)
  {
    hide FromLe, Slice;
    forall p | p in blocks
      ensures p >= HEADER && FromLe(Slice(m, p - HEADER, 8)) == blocks[p]
    {
      if p != q {
        assert p in blocks - {q};
      }
    }
  }

  /** A new block and a copy into it leave the other blocks alone. */
  lemma OthersKept(blocks: Blocks, p: nat, q: nat, payload: nat, m0: map<nat, Byte>, m1: map<nat, Byte>, m2: map<nat,
      Byte>)
    requires SameBytes(blocks, m0, m1) && SameBytes(blocks[q := payload] - {q}, m1, m2) && q !in blocks
    ensures SameBytes(blocks - {p}, m0, m2)
  {
    assert blocks[q := payload] - {q} == blocks;
    SameBytesChain(blocks, m0, m1, m2);
  }

  lemma SameBytesChain(blocks: Blocks, m1: map<nat, Byte>, m2: map<nat, Byte>, m3: map<nat, Byte>)
    requires SameBytes(blocks, m1, m2) && SameBytes(blocks, m2, m3)
    ensures SameBytes(blocks, m1, m3)
  {
    forall p, a: nat | p in blocks && p <= a + HEADER && a < p + blocks[p]
      ensures At(m1, a) == At(m3, a)
    {
      assert At(m1, a) == At(m2, a);
    }
  }

  lemma SliceKept(blocks: Blocks, m1: map<nat, Byte>, m2: map<nat, Byte>, p: nat, n: nat)
    requires SameBytes(blocks, m1, m2) && p in blocks && n <= blocks[p]
    ensures Slice(m1, p, n) == Slice(m2, p, n)
  {
  }

  /** No block is empty. */
  function Payload(size: nat): (n: nat)
    ensures n >= 1 && n >= size
  {
    if size == 0 then 1 else size
  }
}