/** The guest program that proves a block, and the host that computes the root to prove. */
module Persistia {
  import opened Prelude
  import opened Bits
  import opened Merkle

  const MAX_MUTATIONS: nat := 64
  const LEAF_BUFFER: nat := 600

  datatype Outcome<+T> = Panic | Done(value: T)

  /** Whether a leaf text fits the guest's buffer. */
  predicate Fits(m: Mutation) {
    6 + 2 * |m.key| + 2 * |m.value| <= LEAF_BUFFER
  }

  /** Appends hex digits at a position of the buffer; a write past its end panics. */
  method PutHex(buf: array<Byte>, pos: nat, bytes: Bytes) returns (r: Outcome<nat>)
    requires pos <= buf.Length
    modifies buf
    ensures r.Done? <==> pos + 2 * |bytes| <= buf.Length
    ensures r.Done? ==> r.value == pos + 2 * |bytes| && buf[..r.value] == old(buf[..pos]) + Hex(bytes)
  {
    var p, i := pos, 0;
    while i < |bytes|
      invariant 0 <= i <= |bytes| && p == pos + 2 * i <= buf.Length
      invariant buf[..p] == old(buf[..pos]) + Hex(bytes[..i])
    {
      if p + 1 >= buf.Length {
        return Panic;
      }
      buf[p] := HexDigit(bytes[i] / 16);
      buf[p + 1] := HexDigit(bytes[i] % 16);
      HexMore(bytes, i);
      assert buf[..p + 2] == buf[..p] + [HexDigit(bytes[i] / 16), HexDigit(bytes[i] % 16)];
      p := p + 2;
      i := i + 1;
    }
    assert bytes[..i] == bytes;
    return Done(p);
  }

  lemma HexMore(bs: Bytes, i: nat)
    requires i < |bs|
    ensures Hex(bs[..i + 1]) == Hex(bs[..i]) + [HexDigit(bs[i] / 16), HexDigit(bs[i] % 16)]
  {
    assert bs[..i + 1][..i] == bs[..i];
  }

  /** The guest's leaf digest, built in a fixed buffer. */
  method Sha256Leaf(h: Hash, key: Bytes, value: Bytes) returns (r: Outcome<Digest>)
    ensures r.Done? <==> 6 + 2 * |key| + 2 * |value| <= 600
    ensures r.Done? ==> r.value == LeafHash(h, key, value)
  {
    var buf := new Byte[LEAF_BUFFER](_ => 0);
    buf[0], buf[1], buf[2], buf[3], buf[4] := 108, 101, 97, 102, 58;
    assert buf[..5] == LEAF_TAG;
    var p := PutHex(buf, 5, key);
    if p.Panic? || p.value >= LEAF_BUFFER {
      return Panic;
    }
    buf[p.value] := COLON;
    assert buf[..p.value + 1] == LEAF_TAG + Hex(key) + [COLON];
    var q := PutHex(buf, p.value + 1, value);
    if q.Panic? {
      return Panic;
    }
    r := Done(h(buf[..q.value]));
  }

  method Sha256Node(h: Hash, left: Digest, right: Digest) returns (d: Digest)
    ensures d == NodeHash(h, left, right)
  {
    var buf := new Byte[128](_ => 0);
    var p := PutHex(buf, 0, left);
    assert buf[..p.value] == Hex(left);
    var q := PutHex(buf, p.value, right);
    assert buf[..q.value] == buf[..];
    d := h(buf[..]);
  }

  /** The host's leaf digest, built in a growing list. */
  method Sha256LeafHost(h: Hash, key: Bytes, value: Bytes) returns (d: Digest)
    ensures d == LeafHash(h, key, value)
  {
    var buf := LEAF_TAG;
    buf := PushHex(buf, key);
    buf := buf + [COLON];
    buf := PushHex(buf, value);
    d := h(buf);
  }

  method PushHex(start: Bytes, bytes: Bytes) returns (buf: Bytes)
    ensures buf == start + Hex(bytes)
  {
    buf := start;
    var i := 0;
    while i < |bytes|
      invariant 0 <= i <= |bytes| && buf == start + Hex(bytes[..i])
    {
      HexMore(bytes, i);
      buf := buf + [HexDigit(bytes[i] / 16)];
      buf := buf + [HexDigit(bytes[i] % 16)];
      i := i + 1;
    }
    assert bytes[..i] == bytes;
  }

  /** The layer loop, overwriting the layer from the front as it is read. */
  method MerkleInPlace(h: Hash, layer: array<Digest>, size: nat, ghost k: nat)
    requires size == Pow2(k) <= layer.Length
    modifies layer
    ensures layer[0] == Root(h, old(layer[..size]), k)
  {
    hide Root, PairUp, Pow2;
    ghost var level := k;
    ghost var start := layer[..size];
    var width := size;
    while width > 1
      invariant width == Pow2(level) <= layer.Length
      invariant Root(h, layer[..width], level) == Root(h, start, k)
      decreases width
    {
      ghost var before := layer[..width];
      var half := width / 2;
      TwoHalf(level);
      PairLayer(h, layer, width);
      PairUpKeepsRoot(h, before, level - 1);
      level := level - 1;
      width := half;
    }
    OneLeaf(h, layer[..width], level);
  }

  lemma TwoHalf(k: nat)
    requires Pow2(k) > 1
    ensures k > 0 && Pow2(k) == 2 * Pow2(k - 1)
  {
  }

  lemma OneLeaf(h: Hash, layer: seq<Digest>, k: nat)
    requires |layer| == Pow2(k) <= 1
    ensures Root(h, layer, k) == layer[0]
  {
  }

  lemma PairUpIs(h: Hash, layer: seq<Digest>, up: seq<Digest>)
    requires |layer| == 2 * |up|
    requires forall j | 0 <= j < |up| :: up[j] == NodeHash(h, layer[2 * j], layer[2 * j + 1])
    ensures up == PairUp(h, layer)
  {
    hide NodeHash;
  }

  /** One turn: the first half of the layer becomes the layer above. */
  method PairLayer(h: Hash, layer: array<Digest>, width: nat)
    requires width % 2 == 0 && width <= layer.Length
    modifies layer
    ensures layer[..width / 2] == PairUp(h, old(layer[..width]))
  {
    hide NodeHash, PairUp;
    ghost var before := layer[..width];
    ghost var up: seq<Digest> := [];
    var half, i := width / 2, 0;
    while i < half
      invariant 0 <= i == |up| <= half && layer[..i] == up
      invariant forall j | 0 <= j < i :: up[j] == NodeHash(h, before[2 * j], before[2 * j + 1])
      invariant layer[2 * i..width] == before[2 * i..]
    {
      assert layer[2 * i] == before[2 * i] && layer[2 * i + 1] == before[2 * i + 1];
      var d := Sha256Node(h, layer[2 * i], layer[2 * i + 1]);
      ghost var rest := layer[2 * i..width];
      layer[i] := d;
      assert layer[2 * (i + 1)..width] == rest[2..];
      up := up + [d];
      i := i + 1;
    }
    PairUpIs(h, before, up);
  }

  /** Flattened mutations, each key and value with its length. */
  datatype Block = Block(keysFlat: Bytes, keyLens: Bytes, valuesFlat: Bytes, valueLens: Bytes)

  datatype Walk = Walk(writes: seq<Mutation>, keyOffset: nat, valueOffset: nat)

  /** One mutation. The key of a delete is skipped, not read. */
  function NextWalk(b: Block, i: nat, w: Walk): Outcome<Walk> {
    if i >= |b.keyLens| || i >= |b.valueLens| then Panic
    else
      var kl, vl := b.keyLens[i], b.valueLens[i];
      if vl == 0 then Done(Walk(w.writes, w.keyOffset + kl, w.valueOffset))
      else if w.keyOffset + kl > |b.keysFlat| || w.valueOffset + vl > |b.valuesFlat| then Panic
      else
        var m := Mutation(b.keysFlat[w.keyOffset..w.keyOffset + kl], b.valuesFlat[w.valueOffset..w.valueOffset + vl]);
        if |w.writes| >= MAX_MUTATIONS || !Fits(m) then Panic
        else Done(Walk(w.writes + [m], w.keyOffset + kl, w.valueOffset + vl))
  }

  /** The written pairs among the first i mutations. */
  function Collect(b: Block, i: nat): Outcome<Walk> {
    if i == 0 then Done(Walk([], 0, 0))
    else
      var p := Collect(b, i - 1);
      if p.Panic? then Panic else NextWalk(b, i - 1, p.value)
  }

  lemma {:induction false} CollectBounded(b: Block, i: nat)
    ensures Collect(b, i).Done? ==> |Collect(b, i).value.writes| <= MAX_MUTATIONS
    ensures Collect(b, i).Done? ==> Writes(Collect(b, i).value.writes) == Collect(b, i).value.writes
  {
    if i > 0 {
      CollectBounded(b, i - 1);
      if Collect(b, i).Done? && b.valueLens[i - 1] != 0 {
        var ws := Collect(b, i).value.writes;
        assert ws[..|ws| - 1] == Collect(b, i - 1).value.writes;
      }
    }
  }

  /** Failure in the middle is failure at the end. */
  lemma {:induction false} CollectPanics(b: Block, i: nat, n: nat)
    requires i <= n && Collect(b, i).Panic?
    ensures Collect(b, n).Panic?
    decreases n
  {
    if i < n {
      CollectPanics(b, i, n - 1);
    }
  }

  /** 2f + 1 signatures of 3f + 1 nodes. */
  function Quorum(activeNodes: nat): nat {
    var f := if activeNodes > 0 then (activeNodes - 1) / 3 else 0;
    2 * f + 1
  }

  /** With f the most faulty nodes that 3f + 1 leave, two quorums meet in more than f nodes only for n == 3f + 1. */
  lemma QuorumsMeetIff(n: nat)
    requires n > 0
    ensures
      var f := (n + 2) / 3 - 1;
      && 3 * f + 1 <= n < 3 * (f + 1) + 1
      && Quorum(n) == 2 * f + 1
      && (2 * Quorum(n) - n > f <==> n % 3 == 1)
  {
  }

  predicate Accepted(h: Hash, n: nat, b: Block, expectedRoot: Digest, validSigs: nat, activeNodes: nat) {
    && validSigs >= Quorum(activeNodes)
    && Collect(b, n).Done?
    && StateRoot(h, LeafHashes(h, Collect(b, n).value.writes)) == expectedRoot
  }

  /** The walk up to mutation i, with the digests of its writes at the front of the leaves. */
  ghost predicate Gathered(h: Hash, b: Block, i: nat, w: Walk, leaves: seq<Digest>, start: seq<Digest>) {
    && Collect(b, i) == Done(w)
    && |w.writes| <= MAX_MUTATIONS == |leaves| == |start|
    && leaves == LeafHashes(h, w.writes) + start[|w.writes|..]
  }

  lemma GatherNothing(h: Hash, b: Block, start: seq<Digest>)
    requires |start| == MAX_MUTATIONS
    ensures Gathered(h, b, 0, Walk([], 0, 0), start, start)
  {
    CollectStart(b);
    assert LeafHashes(h, []) == [] && start == [] + start[0..];
  }

  /** One mutation more: a failure is one of the whole, and a delete adds nothing. */
  lemma GatherNext(h: Hash, b: Block, i: nat, n: nat, w: Walk, leaves: seq<Digest>, start: seq<Digest>)
    requires Gathered(h, b, i, w, leaves, start) && i < n
    ensures
      var next := NextWalk(b, i, w);
      && (next.Panic? ==> Collect(b, n).Panic?)
      && (next.Done? && next.value.writes == w.writes ==> Gathered(h, b, i + 1, next.value, leaves, start))
  {
    hide Collect, LeafHash, LeafHashes, NextWalk;
    CollectStep(b, i, n);
  }

  /** A written pair adds its digest. */
  lemma GatherWrite(h: Hash, b: Block, i: nat, w: Walk, m: Mutation, leaves: seq<Digest>, start: seq<Digest>)
    requires Gathered(h, b, i, w, leaves, start) && |w.writes| < MAX_MUTATIONS
    requires NextWalk(b, i, w).Done? && NextWalk(b, i, w).value.writes == w.writes + [m]
    ensures |w.writes| < |leaves|
    ensures
      Gathered(h, b, i + 1, NextWalk(b, i, w).value, leaves[|w.writes| := LeafHash(h, m.key, m.value)], start)
  {
    hide LeafHash, LeafHashes, NextWalk;
    LeafHashesMore(h, w.writes, m);
    FilledMore(LeafHashes(h, w.writes), start, LeafHash(h, m.key, m.value));
  }

  method SetLeaf(leaves: array<Digest>, i: nat, d: Digest)
    requires i < leaves.Length
    modifies leaves
    ensures leaves[..] == old(leaves[..])[i := d]
  {
    leaves[i] := d;
  }

  /** Fills leaves with the digests of the written pairs. */
  method LeafDigests(h: Hash, n: nat, b: Block, leaves: array<Digest>) returns (r: Outcome<nat>)
    requires leaves.Length == MAX_MUTATIONS
    modifies leaves
    ensures r.Done? <==> Collect(b, n).Done?
    ensures r.Done? ==>
      var ws := Collect(b, n).value.writes;
      r.value == |ws| <= MAX_MUTATIONS && leaves[..] == LeafHashes(h, ws) + old(leaves[|ws|..])
  {
    ghost var start := leaves[..];
    ghost var w := Walk([], 0, 0);
    GatherNothing(h, b, start);
    hide LeafHash, Collect, LeafHashes, Fits, Gathered;
    var leafCount: nat, keyOffset: nat, valOffset: nat := 0, 0, 0;
    var i := 0;
    while i < n
      invariant 0 <= i <= n && w == Walk(w.writes, keyOffset, valOffset) && |w.writes| == leafCount <= MAX_MUTATIONS
      invariant Gathered(h, b, i, w, leaves[..], start)
    {
      GatherNext(h, b, i, n, w, leaves[..], start);
      if i >= |b.keyLens| || i >= |b.valueLens| {
        return Panic;
      }
      var kl, vl := b.keyLens[i], b.valueLens[i];
      if vl > 0 {
        if keyOffset + kl > |b.keysFlat| || valOffset + vl > |b.valuesFlat| {
          return Panic;
        }
        var key, value := b.keysFlat[keyOffset..keyOffset + kl], b.valuesFlat[valOffset..valOffset + vl];
        var leaf := Sha256Leaf(h, key, value);
        if leaf.Panic? || leafCount >= MAX_MUTATIONS {
          return Panic;
        }
        GatherWrite(h, b, i, w, Mutation(key, value), leaves[..], start);
        SetLeaf(leaves, leafCount, leaf.value);
        leafCount := leafCount + 1;
      }
      w := NextWalk(b, i, w).value;
      keyOffset := keyOffset + kl;
      valOffset := valOffset + vl;
      i := i + 1;
    }
    GatheredAll(h, b, n, w, leaves[..], start);
    return Done(leafCount);
  }

  lemma GatheredAll(h: Hash, b: Block, n: nat, w: Walk, leaves: seq<Digest>, start: seq<Digest>)
    requires Gathered(h, b, n, w, leaves, start)
    ensures Collect(b, n) == Done(w) && |w.writes| <= |start| && leaves == LeafHashes(h, w.writes) + start[|w.writes|..]
  {
    hide Collect, LeafHashes;
  }

  lemma FilledMore(ls: seq<Digest>, start: seq<Digest>, d: Digest)
    requires |ls| < |start|
    ensures (ls + start[|ls|..])[|ls| := d] == (ls + [d]) + start[|ls| + 1..]
  {
  }

  lemma CollectStart(b: Block)
    ensures Collect(b, 0) == Done(Walk([], 0, 0))
  {
  }

  /** What the next mutation does to the walk, and that a failure now is a failure of the whole. */
  lemma CollectStep(b: Block, i: nat, n: nat)
    requires Collect(b, i).Done? && i < n
    ensures Collect(b, i + 1) == NextWalk(b, i, Collect(b, i).value)
    ensures Collect(b, i + 1).Panic? ==> Collect(b, n).Panic?
  {
    if Collect(b, i + 1).Panic? {
      CollectPanics(b, i + 1, n);
    }
  }

  lemma LeafHashesMore(h: Hash, ws: seq<Mutation>, m: Mutation)
    ensures LeafHashes(h, ws + [m]) == LeafHashes(h, ws) + [LeafHash(h, m.key, m.value)]
  {
    hide LeafHash;
  }

  method PowerOfTwoAbove(count: nat) returns (size: nat, ghost k: nat)
    ensures k == CeilLog2(count) && size == Pow2(CeilLog2(count))
  {
    size, k := 1, 0;
    while size < count
      invariant size == Pow2(k) && (k == 0 || Pow2(k - 1) < count)
      decreases count - size
    {
      size, k := size * 2, k + 1;
    }
    CeilLog2Unique(count, k);
  }

  lemma AtMostSixLevels(count: nat)
    requires count <= MAX_MUTATIONS
    ensures Pow2(CeilLog2(count)) <= MAX_MUTATIONS
  {
    assert Pow2(6) == 64 by {
      assert Pow2(1) == 2 && Pow2(2) == 4 && Pow2(3) == 8 && Pow2(4) == 16 && Pow2(5) == 32;
    }
    if CeilLog2(count) > 6 {
      Pow2Monotone(6, CeilLog2(count) - 1);
    }
  }

  method CopyFront(from: array<Digest>, to: array<Digest>, size: nat)
    requires from != to && from.Length == to.Length && size <= from.Length
    modifies to
    ensures to[..size] == from[..size]
  {
    var i := 0;
    while i < size
      invariant 0 <= i <= size && to[..i] == from[..i]
    {
      to[i] := from[i];
      i := i + 1;
    }
  }

  /** The guest accepts exactly the claimed root of the written pairs, given a quorum and lengths that fit. */
  method ProveBlock(h: Hash, n: nat, b: Block, expectedRoot: Digest, validSigs: nat,
      activeNodes: nat) returns (r: Outcome<Digest>)
    ensures r.Done? <==> Accepted(h, n, b, expectedRoot, validSigs, activeNodes)
    ensures r.Done? ==> r.value == expectedRoot
  {
    hide Collect, LeafHash, Root, LeafHashes, Padded;
    var f := if activeNodes > 0 then (activeNodes - 1) / 3 else 0;
    if validSigs < 2 * f + 1 {
      return Panic;
    }
    var leaves := new Digest[MAX_MUTATIONS](_ => ZERO);
    ghost var zeros := leaves[..];
    var filled := LeafDigests(h, n, b, leaves);
    if filled.Panic? {
      return Panic;
    }
    var leafCount := filled.value;
    ghost var ws := Collect(b, n).value.writes;
    ghost var all := leaves[..];
    assert all == LeafHashes(h, ws) + zeros[leafCount..];
    if leafCount == 0 {
      return if expectedRoot == ZERO then Done(expectedRoot) else Panic;
    }
    var size: nat, k := PowerOfTwoAbove(leafCount);
    AtMostSixLevels(leafCount);
    var layer := new Digest[MAX_MUTATIONS](_ => ZERO);
    CopyFront(leaves, layer, size);
    PaddedPrefix(LeafHashes(h, ws), zeros, all, size);
    MerkleInPlace(h, layer, size, k);
    var computedRoot := layer[0];
    return if computedRoot == expectedRoot then Done(computedRoot) else Panic;
  }

  lemma PaddedPrefix(leaves: seq<Digest>, zeros: seq<Digest>, all: seq<Digest>, size: nat)
    requires |leaves| <= size == Pow2(CeilLog2(|leaves|)) <= |all| && |leaves| <= |zeros|
    requires all == leaves + zeros[|leaves|..] && forall i | 0 <= i < |zeros| :: zeros[i] == ZERO
    ensures Padded(leaves) == all[..size]
  {
    var front := all[..size];
    assert leaves == front[..|leaves|];
    forall i | |leaves| <= i < size
      ensures front[i] == ZERO
    {
      assert front[i] == all[i] == zeros[i];
    }
    hide Padded, CeilLog2;
    PaddedBy(leaves, front);
  }

  lemma PaddedBy(leaves: seq<Digest>, all: seq<Digest>)
    requires |all| == Pow2(CeilLog2(|leaves|)) && leaves <= all
    requires forall i | |leaves| <= i < |all| :: all[i] == ZERO
    ensures Padded(leaves) == all
  {
  }

  /** The host's root: pad the list to a power of two, then rebuild it layer by layer. */
  method HostRoot(h: Hash, leaves: seq<Digest>) returns (root: Digest)
    ensures root == StateRoot(h, leaves)
  {
    hide Root, PairUp, CountOnes, CeilLog2, Pow2, Padded;
    ghost var k := CeilLog2(|leaves|);
    var padded := PadToPower(leaves);
    ghost var level := k;
    while |padded| > 1
      invariant |padded| == Pow2(level) && Root(h, padded, level) == Root(h, Padded(leaves), k)
      decreases |padded|
    {
      TwoHalf(level);
      var next := NextLayer(h, padded);
      PairUpKeepsRoot(h, padded, level - 1);
      padded := next;
      level := level - 1;
    }
    OneLeaf(h, padded, level);
    root := padded[0];
    if leaves == [] {
      EmptyRoot(h);
    }
  }

  lemma EmptyRoot(h: Hash)
    ensures CeilLog2(0) == 0 && Padded([]) == [ZERO] && Root(h, Padded([]), 0) == ZERO
  {
    CeilLog2Unique(0, 0);
  }

  /** Zeros are pushed until the length has a single one bit. */
  method PadToPower(leaves: seq<Digest>) returns (padded: seq<Digest>)
    ensures padded == Padded(leaves)
  {
    hide CeilLog2, Padded, CountOnes;
    ghost var k := CeilLog2(|leaves|);
    padded := leaves;
    PowersAreOnes(k);
    while |padded| < 1 || CountOnes(|padded|) != 1
      invariant leaves <= padded && |padded| <= Pow2(k) && forall i | |leaves| <= i < |padded| :: padded[i] == ZERO
      decreases Pow2(k) - |padded|
    {
      padded := padded + [ZERO];
    }
    SmallestPower(|leaves|, |padded|);
    PaddedBy(leaves, padded);
  }

  method NextLayer(h: Hash, padded: seq<Digest>) returns (next: seq<Digest>)
    requires |padded| % 2 == 0
    ensures next == PairUp(h, padded)
  {
    hide NodeHash, PairUp;
    next := [];
    var i := 0;
    while i < |padded|
      invariant i == 2 * |next| && i <= |padded|
      invariant forall j | 0 <= j < |next| :: next[j] == NodeHash(h, padded[2 * j], padded[2 * j + 1])
    {
      var d := Sha256Node(h, padded[i], padded[i + 1]);
      next := next + [d];
      i := i + 2;
    }
    PairUpIs(h, padded, next);
  }

  function CountOnes(n: nat): nat {
    if n == 0 then 0 else n % 2 + CountOnes(n / 2)
  }

  lemma {:induction false} PowersAreOnes(k: nat)
    ensures CountOnes(Pow2(k)) == 1
  {
    if k > 0 {
      PowersAreOnes(k - 1);
      var h := Pow2(k - 1);
      assert Pow2(k) == 2 * h;
      hide Pow2;
      assert (2 * h) % 2 == 0 && (2 * h) / 2 == h;
    }
  }

  /** A number with a single one bit is a power of two. */
  lemma {:induction false} OnesArePowers(n: nat) returns (k: nat)
    requires CountOnes(n) == 1
    ensures n == Pow2(k)
  {
    if n % 2 == 1 {
      NoOnes(n / 2);
      k := 0;
    } else {
      k := OnesArePowers(n / 2);
      k := k + 1;
    }
  }

  lemma {:induction false} NoOnes(n: nat)
    requires CountOnes(n) == 0
    ensures n == 0
  {
    if n > 0 {
      NoOnes(n / 2);
    }
  }

  lemma SmallestPower(count: nat, n: nat)
    requires count <= n <= Pow2(CeilLog2(count)) && CountOnes(n) == 1
    ensures n == Pow2(CeilLog2(count))
  {
    var k := OnesArePowers(n);
    if k < CeilLog2(count) {
      Pow2Monotone(k, CeilLog2(count) - 1);
    } else {
      Pow2Monotone(CeilLog2(count), k);
    }
  }

  function Keys(ms: seq<Mutation>): Bytes {
    if ms == [] then [] else Keys(ms[..|ms| - 1]) + ms[|ms| - 1].key
  }

  function Values(ms: seq<Mutation>): Bytes {
    if ms == [] then [] else Values(ms[..|ms| - 1]) + ms[|ms| - 1].value
  }

  /** A block that flattens a list of mutations. */
  ghost predicate Flattens(b: Block, ms: seq<Mutation>) {
    && |b.keyLens| == |ms| && |b.valueLens| == |ms|
    && (forall i | 0 <= i < |ms| :: b.keyLens[i] == |ms[i].key| && b.valueLens[i] == |ms[i].value|)
    && b.keysFlat == Keys(ms) && b.valuesFlat == Values(ms)
  }

  /** The writes of a list, each of which must fit, and of which there must not be too many. */
  predicate Provable(ms: seq<Mutation>) {
    |Writes(ms)| <= MAX_MUTATIONS && forall m | m in Writes(ms) :: Fits(m)
  }

  lemma WritesMore(ms: seq<Mutation>, i: nat)
    requires i < |ms|
    ensures Writes(ms[..i + 1]) == Writes(ms[..i]) + (if ms[i].value == [] then [] else [ms[i]])
  {
    assert ms[..i + 1][..i] == ms[..i];
  }

  lemma ProvableMore(ms: seq<Mutation>, i: nat)
    requires i < |ms|
    ensures Provable(ms[..i + 1])
      <==> Provable(ms[..i]) && (ms[i].value == [] || (|Writes(ms[..i])| < MAX_MUTATIONS && Fits(ms[i])))
  {
    WritesMore(ms, i);
    hide Fits, Writes;
    var before, after := Writes(ms[..i]), Writes(ms[..i + 1]);
    assert forall m :: m in after <==> m in before || (ms[i].value != [] && m == ms[i]);
  }

  lemma {:induction false} FlatPrefix(ms: seq<Mutation>, i: nat)
    requires i <= |ms|
    ensures Keys(ms[..i]) <= Keys(ms) && Values(ms[..i]) <= Values(ms)
    decreases |ms|
  {
    if i == |ms| {
      assert ms[..i] == ms;
    } else {
      var front := ms[..|ms| - 1];
      FlatPrefix(front, i);
      assert front[..i] == ms[..i];
    }
  }

  lemma FlatSlice(ms: seq<Mutation>, i: nat)
    requires i < |ms|
    ensures
      var k, v := |Keys(ms[..i])|, |Values(ms[..i])|;
      && k + |ms[i].key| <= |Keys(ms)| && Keys(ms)[k..k + |ms[i].key|] == ms[i].key
      && v + |ms[i].value| <= |Values(ms)| && Values(ms)[v..v + |ms[i].value|] == ms[i].value
      && |Keys(ms[..i + 1])| == k + |ms[i].key| && |Values(ms[..i + 1])| == v + |ms[i].value|
  {
    assert ms[..i + 1][..i] == ms[..i];
    FlatPrefix(ms, i + 1);
  }

  function FlatWalk(ms: seq<Mutation>, i: nat): Walk
    requires i <= |ms|
  {
    Walk(Writes(ms[..i]), |Keys(ms[..i])|, |Values(ms[..i])|)
  }

  lemma NextFlattened(b: Block, ms: seq<Mutation>, i: nat)
    requires Flattens(b, ms) && i < |ms|
    ensures NextWalk(b, i, FlatWalk(ms, i))
      == if ms[i].value == [] || (|Writes(ms[..i])| < MAX_MUTATIONS && Fits(ms[i]))
         then Done(FlatWalk(ms, i + 1))
         else Panic
  {
    hide Fits, Keys, Values, Writes;
    WritesMore(ms, i);
    FlatSlice(ms, i);
    var k, v := |Keys(ms[..i])|, |Values(ms[..i])|;
    assert b.keyLens[i] == |ms[i].key| && b.valueLens[i] == |ms[i].value|;
    assert Writes(ms[..i]) + [] == Writes(ms[..i]);
    assert Mutation(b.keysFlat[k..k + |ms[i].key|], b.valuesFlat[v..v + |ms[i].value|]) == ms[i];
  }

  /** Walking a flattened list finds its writes, as far as they are provable. */
  lemma {:induction false} CollectFlattened(b: Block, ms: seq<Mutation>, i: nat)
    requires Flattens(b, ms) && i <= |ms|
    ensures Collect(b, i) == if Provable(ms[..i]) then Done(FlatWalk(ms, i)) else Panic
  {
    hide Provable, FlatWalk;
    if i == 0 {
      EmptyFlat(ms);
    } else {
      CollectFlattened(b, ms, i - 1);
      ProvableMore(ms, i - 1);
      NextFlattened(b, ms, i - 1);
    }
  }

  lemma EmptyFlat(ms: seq<Mutation>)
    ensures Keys(ms[..0]) == Values(ms[..0]) == []
    ensures Provable(ms[..0]) && FlatWalk(ms, 0) == Walk([], 0, 0)
  {
    assert ms[..0] == [];
  }

  /** A flattened block is accepted exactly for its root, a quorum, and writes that fit. */
  lemma AcceptedIff(h: Hash, b: Block, ms: seq<Mutation>, root: Digest, validSigs: nat, activeNodes: nat)
    requires Flattens(b, ms)
    ensures Accepted(h, |ms|, b, root, validSigs, activeNodes)
      <==> validSigs >= Quorum(activeNodes) && Provable(ms) && BlockRoot(h, ms) == root
  {
    CollectFlattened(b, ms, |ms|);
    assert ms[..|ms|] == ms;
  }

  /** Accepted runs whose texts do not collide have one root exactly for equal writes, or where one hides its end. */
  lemma AcceptedRootsEqualIff(h: Hash, n1: nat, b1: Block, root1: Digest, s1: nat, a1: nat, n2: nat, b2: Block,
      root2: Digest, s2: nat, a2: nat)
    requires Accepted(h, n1, b1, root1, s1, a1) && Accepted(h, n2, b2, root2, s2, a2)
    requires NoCollision(h, Texts(h, Collect(b1, n1).value.writes) + Texts(h, Collect(b2, n2).value.writes))
    ensures
      var xs, ys := Collect(b1, n1).value.writes, Collect(b2, n2).value.writes;
      root1 == root2 <==> xs == ys || Hidden(h, xs, ys) || Hidden(h, ys, xs)
  {
    hide NoCollision, Texts, StateRoot, Hidden;
    CollectBounded(b1, n1);
    CollectBounded(b2, n2);
    RootsEqualIff(h, Collect(b1, n1).value.writes, Collect(b2, n2).value.writes);
  }

  /** Accepted runs with equal numbers of writes have one root exactly for equal writes, unless their texts collide. */
  lemma AcceptedSameCountBinds(h: Hash, n1: nat, b1: Block, root1: Digest, s1: nat, a1: nat, n2: nat, b2: Block,
      root2: Digest, s2: nat, a2: nat)
    requires Accepted(h, n1, b1, root1, s1, a1) && Accepted(h, n2, b2, root2, s2, a2)
    requires NoCollision(h, Texts(h, Collect(b1, n1).value.writes) + Texts(h, Collect(b2, n2).value.writes))
    requires |Collect(b1, n1).value.writes| == |Collect(b2, n2).value.writes|
    ensures root1 == root2 <==> Collect(b1, n1).value.writes == Collect(b2, n2).value.writes
  {
    hide NoCollision, Texts, StateRoot, Collect;
    AcceptedRootsEqualIff(h, n1, b1, root1, s1, a1, n2, b2, root2, s2, a2);
  }

  /** Two accepted runs with one root proved the same pairs, unless texts collide or one hashes to the padding. */
  lemma AcceptedRunsBind(h: Hash, n1: nat, b1: Block, s1: nat, a1: nat, n2: nat, b2: Block, s2: nat, a2: nat,
      root: Digest)
    requires Accepted(h, n1, b1, root, s1, a1) && Accepted(h, n2, b2, root, s2, a2)
    requires CollisionFree(h, Texts(h, Collect(b1, n1).value.writes) + Texts(h, Collect(b2, n2).value.writes))
    ensures Collect(b1, n1).value.writes == Collect(b2, n2).value.writes
  {
    hide CollisionFree, Texts, StateRoot;
    CollectBounded(b1, n1);
    CollectBounded(b2, n2);
    RootBindsWrites(h, Collect(b1, n1).value.writes, Collect(b2, n2).value.writes);
  }

  lemma LastAppended(a: seq<Mutation>, b: seq<Mutation>, last: Mutation)
    ensures a + [last] == b + [last] <==> a == b
  {
    if a + [last] == b + [last] {
      assert a == (a + [last])[..|a|] && b == (b + [last])[..|b|];
    }
  }

  /** No value is empty. */
  predicate AllKept(ms: seq<Mutation>) {
    forall i | 0 <= i < |ms| :: ms[i].value != []
  }

  lemma {:induction false} AllWritten(ms: seq<Mutation>)
    ensures |Writes(ms)| <= |ms|
    ensures Writes(ms) == ms <==> AllKept(ms)
  {
    if ms != [] {
      var front, last := ms[..|ms| - 1], ms[|ms| - 1];
      AllWritten(front);
      assert ms == front + [last];
      if last.value == [] {
        assert |Writes(ms)| < |ms|;
      } else {
        assert Writes(ms) == Writes(front) + [last];
        LastAppended(Writes(front), front, last);
        assert forall i | 0 <= i < |front| :: ms[i] == front[i];
      }
    }
  }

  /** The host's root is the guest's when no value is empty, for every hash. */
  lemma HostAgrees(h: Hash, ms: seq<Mutation>)
    requires AllKept(ms)
    ensures StateRoot(h, LeafHashes(h, ms)) == BlockRoot(h, ms)
  {
    hide StateRoot;
    AllWritten(ms);
  }

  /** Unless texts collide, the roots agree only then, or where the empty values come last and are hidden. */
  lemma HostAgreesOrHides(h: Hash, ms: seq<Mutation>)
    requires NoCollision(h, Texts(h, ms) + ListTexts(h, ms))
    ensures StateRoot(h, LeafHashes(h, ms)) == BlockRoot(h, ms) <==> AllKept(ms) || Hidden(h, Writes(ms), ms)
  {
    hide NoCollision, ListTexts, StateRoot;
    AllWritten(ms);
    ListRootsEqualIff(h, Writes(ms), ms);
  }

  /** The host's root is the guest's exactly when no value is empty, unless texts collide or hash to the padding. */
  lemma HostAgreesIff(h: Hash, ms: seq<Mutation>)
    requires CollisionFree(h, Texts(h, ms) + ListTexts(h, ms))
    ensures StateRoot(h, LeafHashes(h, ms)) == BlockRoot(h, ms) <==> AllKept(ms)
  {
    hide NoCollision, ListTexts, BlockRoot, Hidden, AllKept;
    HostAgreesOrHides(h, ms);
    NothingHidden(h, Writes(ms), ms);
  }

  /** What the host generates from a list is accepted exactly for the host's root, with a quorum and pairs that fit. */
  lemma HostRootAcceptedIff(h: Hash, b: Block, ms: seq<Mutation>, root: Digest, validSigs: nat, activeNodes: nat)
    requires Flattens(b, ms) && AllKept(ms)
    ensures Accepted(h, |ms|, b, root, validSigs, activeNodes)
      <==>
      && validSigs >= Quorum(activeNodes)
      && |ms| <= 64
      && (forall m | m in ms :: Fits(m))
      && StateRoot(h, LeafHashes(h, ms)) == root
  {
    hide Flattens, Accepted, StateRoot, Fits;
    AllWritten(ms);
    AcceptedIff(h, b, ms, root, validSigs, activeNodes);
  }

  /** The host flattens a list, writing each length in one byte, and computes its root. */
  method GenerateBlock(h: Hash, ms: seq<Mutation>) returns (b: Block, root: Digest)
    ensures b.keysFlat == Keys(ms) && b.valuesFlat == Values(ms)
    ensures |b.keyLens| == |b.valueLens| == |ms|
    ensures forall i | 0 <= i < |ms| :: b.keyLens[i] == |ms[i].key| % 256 && b.valueLens[i] == |ms[i].value| % 256
    ensures root == StateRoot(h, LeafHashes(h, ms))
  {
    hide Keys, Values, LeafHash;
    b := Block([], [], [], []);
    var leaves: seq<Digest> := [];
    var i := 0;
    EmptyFlat(ms);
    while i < |ms|
      invariant 0 <= i <= |ms|
      invariant b.keysFlat == Keys(ms[..i]) && b.valuesFlat == Values(ms[..i])
      invariant |b.keyLens| == |b.valueLens| == i
      invariant forall j | 0 <= j < i :: b.keyLens[j] == |ms[j].key| % 256 && b.valueLens[j] == |ms[j].value| % 256
      invariant leaves == LeafHashes(h, ms[..i])
    {
      FlatMore(ms, i);
      LeafHashesMore(h, ms[..i], ms[i]);
      assert ms[..i + 1] == ms[..i] + [ms[i]];
      b := b.(keysFlat := b.keysFlat + ms[i].key, keyLens := b.keyLens + [|ms[i].key| % 256]);
      b := b.(valuesFlat := b.valuesFlat + ms[i].value, valueLens := b.valueLens + [|ms[i].value| % 256]);
      var leaf := Sha256LeafHost(h, ms[i].key, ms[i].value);
      leaves := leaves + [leaf];
      i := i + 1;
    }
    assert ms[..i] == ms;
    root := HostRoot(h, leaves);
  }

  lemma FlatMore(ms: seq<Mutation>, i: nat)
    requires i < |ms|
    ensures Keys(ms[..i + 1]) == Keys(ms[..i]) + ms[i].key && Values(ms[..i + 1]) == Values(ms[..i]) + ms[i].value
  {
    assert ms[..i + 1][..i] == ms[..i];
  }

  /** No key or value is longer than its byte of length can tell. */
  predicate ShortPairs(ms: seq<Mutation>) {
    forall i | 0 <= i < |ms| :: |ms[i].key| < 256 && |ms[i].value| < 256
  }

  /**
   * Host and guest in a row. An accepted run returns the host's root; with lengths of one byte and no empty value the
   * guest accepts what the host generated exactly with a quorum, at most 64 pairs, and pairs that fit.
   */
  method GenerateAndProve(h: Hash, ms: seq<Mutation>, validSigs: nat, activeNodes: nat) returns (r: Outcome<Digest>)
    ensures ShortPairs(ms) && AllKept(ms) ==>
              (r.Done?
               <==>
               && validSigs >= Quorum(activeNodes)
               && |ms| <= 64
               && (forall m | m in ms :: Fits(m)))
    ensures r.Done? ==> r.value == StateRoot(h, LeafHashes(h, ms))
  {
    hide Accepted, StateRoot, Fits, Keys, Values;
    var b, root := GenerateBlock(h, ms);
    if ShortPairs(ms) && AllKept(ms) {
      HostRootAcceptedIff(h, b, ms, root, validSigs, activeNodes);
    }
    r := ProveBlock(h, |ms|, b, root, validSigs, activeNodes);
  }
}
