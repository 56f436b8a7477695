/** Preimages, digests and the Merkle tree of a block of mutations. */
module Merkle {
  import opened Prelude
  import opened Bits

  type Bytes = seq<Byte>

  type Digest = d: Bytes | |d| == 32 witness seq(32, _ => 0)

  /** The hash function is a parameter. */
  type Hash = Bytes -> Digest

  const ZERO: Digest :=
    [0, 0, 0, 0, 0, 0, 0, 0, 0, 0, 0, 0, 0, 0, 0, 0,
    0, 0, 0, 0, 0, 0, 0, 0, 0, 0, 0, 0, 0, 0, 0, 0]

  function HexDigit(v: Byte): (c: Byte)
    requires v < 16
    ensures 48 <= c <= 57 || 97 <= c <= 102
  {
    if v < 10 then 48 + v else 87 + v
  }

  /** Two lower-case hex digits for each byte. */
  function Hex(bs: Bytes): (s: Bytes)
    ensures |s| == 2 * |bs|
  {
    if bs == [] then [] else Hex(bs[..|bs| - 1]) + [HexDigit(bs[|bs| - 1] / 16), HexDigit(bs[|bs| - 1] % 16)]
  }

  lemma {:induction false} HexAt(bs: Bytes, i: nat)
    requires i < |bs|
    ensures Hex(bs)[2 * i] == HexDigit(bs[i] / 16) && Hex(bs)[2 * i + 1] == HexDigit(bs[i] % 16)
  {
    if i < |bs| - 1 {
      HexAt(bs[..|bs| - 1], i);
    }
  }

  lemma HexDigitInjective(v: Byte, w: Byte)
    requires v < 16 && w < 16 && HexDigit(v) == HexDigit(w)
    ensures v == w
  {
  }

  lemma ByteHalves(v: Byte, w: Byte)
    requires v / 16 == w / 16 && v % 16 == w % 16
    ensures v == w
  {
  }

  lemma HexInjective(a: Bytes, b: Bytes)
    requires Hex(a) == Hex(b)
    ensures a == b
  {
    assert 2 * |a| == 2 * |b|;
    forall i | 0 <= i < |a|
      ensures a[i] == b[i]
    {
      HexAt(a, i);
      HexAt(b, i);
      HexDigitInjective(a[i] / 16, b[i] / 16);
      HexDigitInjective(a[i] % 16, b[i] % 16);
      ByteHalves(a[i], b[i]);
    }
  }

  /** Every character of a hex text is a hex digit, so none is a colon and none is the letter l. */
  lemma HexCharacter(bs: Bytes, i: nat)
    requires i < 2 * |bs|
    ensures 48 <= Hex(bs)[i] <= 57 || 97 <= Hex(bs)[i] <= 102
  {
    HexAt(bs, i / 2);
    assert i == 2 * (i / 2) || i == 2 * (i / 2) + 1;
  }

  const COLON: Byte := 58

  /** "leaf:" */
  const LEAF_TAG: Bytes := [108, 101, 97, 102, 58]

  function LeafPreimage(key: Bytes, value: Bytes): Bytes {
    LEAF_TAG + Hex(key) + [COLON] + Hex(value)
  }

  function NodePreimage(left: Digest, right: Digest): (p: Bytes)
    ensures |p| == 128
  {
    Hex(left) + Hex(right)
  }

  lemma PartAt(a: Bytes, b: Bytes, c: Byte, d: Bytes, i: nat)
    requires i < |b|
    ensures (a + b + [c] + d)[|a| + i] == b[i]
  {
  }

  lemma ColonAt(key: Bytes, value: Bytes, i: nat)
    requires i < 2 * |key|
    ensures |LeafPreimage(key, value)| > 5 + i && LeafPreimage(key, value)[5 + i] != COLON
  {
    HexCharacter(key, i);
    hide Hex;
    PartAt(LEAF_TAG, Hex(key), COLON, Hex(value), i);
  }

  /** The separator cannot be mistaken, whatever the lengths. */
  lemma LeafPreimageInjective(k1: Bytes, v1: Bytes, k2: Bytes, v2: Bytes)
    requires LeafPreimage(k1, v1) == LeafPreimage(k2, v2)
    ensures k1 == k2 && v1 == v2
  {
    var p := LeafPreimage(k1, v1);
    assert p[5 + 2 * |k1|] == COLON && LeafPreimage(k2, v2)[5 + 2 * |k2|] == COLON;
    if |k1| < |k2| {
      ColonAt(k2, v2, 2 * |k1|);
    } else if |k2| < |k1| {
      ColonAt(k1, v1, 2 * |k2|);
    }
    assert p[5..5 + 2 * |k1|] == Hex(k1) && p[5..5 + 2 * |k1|] == Hex(k2);
    assert p[6 + 2 * |k1|..] == Hex(v1) && p[6 + 2 * |k1|..] == Hex(v2);
    HexInjective(k1, k2);
    HexInjective(v1, v2);
  }

  lemma NodePreimageInjective(l1: Digest, r1: Digest, l2: Digest, r2: Digest)
    requires NodePreimage(l1, r1) == NodePreimage(l2, r2)
    ensures l1 == l2 && r1 == r2
  {
    var p := NodePreimage(l1, r1);
    assert p[..64] == Hex(l1) && p[..64] == Hex(l2) && p[64..] == Hex(r1) && p[64..] == Hex(r2);
    HexInjective(l1, l2);
    HexInjective(r1, r2);
  }

  /** Leaves and inner nodes are hashed from different texts. */
  lemma LeafIsNotNode(key: Bytes, value: Bytes, left: Digest, right: Digest)
    ensures LeafPreimage(key, value) != NodePreimage(left, right)
  {
    HexCharacter(left, 0);
    assert LeafPreimage(key, value)[0] == 108;
  }

  function LeafHash(h: Hash, key: Bytes, value: Bytes): Digest {
    h(LeafPreimage(key, value))
  }

  function NodeHash(h: Hash, left: Digest, right: Digest): Digest {
    h(NodePreimage(left, right))
  }

  /** What a lower-case hex digit in ASCII stands for. */
  function DigitValue(c: Byte): (v: Option<Byte>)
    ensures v.Some? ==> v.value < 16
  {
    if 48 <= c <= 57 then Some(c - 48) else if 97 <= c <= 102 then Some(c - 87) else None
  }

  /** Reads bytes of two hex digits each. */
  function ReadHex(text: Bytes): Option<Bytes> {
    if text == [] then Some([])
    else if |text| == 1 then None
    else
      var n := |text| - 2;
      OneMore(ReadHex(text[..n]), DigitValue(text[n]), DigitValue(text[n + 1]))
  }

  /** One more byte, of two digits. */
  function OneMore(front: Option<Bytes>, hi: Option<Byte>, lo: Option<Byte>): Option<Bytes>
    requires hi.Some? && lo.Some? ==> hi.value < 16 && lo.value < 16
  {
    if front.None? || hi.None? || lo.None? then None else Some(front.value + [16 * hi.value + lo.value])
  }

  /** Reads two hex texts with a colon between them. */
  function ReadPair(text: Bytes): Option<(Bytes, Bytes)> {
    var colon := FirstColon(text);
    if colon == |text| then None
    else
      var key, value := ReadHex(text[..colon]), ReadHex(text[colon + 1..]);
      if key.None? || value.None? then None else Some((key.value, value.value))
  }

  function FirstColon(text: Bytes): (i: nat)
    ensures i <= |text| && (i < |text| ==> text[i] == 58)
    ensures forall j | 0 <= j < i :: text[j] != 58
  {
    if text == [] || text[0] == 58 then 0 else 1 + FirstColon(text[1..])
  }

  /** Reads the key and the value after the five letters of "leaf:". */
  function ReadLeaf(text: Bytes): Option<(Bytes, Bytes)> {
    if |text| < 5 || text[..5] != [108, 101, 97, 102, 58] then None else ReadPair(text[5..])
  }

  /** Reads the left and the right child of 64 digits each. */
  function ReadNode(text: Bytes): Option<(Bytes, Bytes)> {
    if |text| != 128 then None
    else
      var left, right := ReadHex(text[..64]), ReadHex(text[64..]);
      if left.None? || right.None? then None else Some((left.value, right.value))
  }

  lemma DigitIff(c: Byte, v: Byte)
    requires v < 16
    ensures DigitValue(c) == Some(v) <==> c == HexDigit(v)
  {
  }

  lemma ByteOfDigits(hi: Byte, lo: Byte, b: Byte)
    requires hi < 16 && lo < 16
    ensures b == 16 * hi + lo <==> hi == b / 16 && lo == b % 16
  {
  }

  /** Hex text is the only text that is read as these bytes. */
  lemma {:induction false} ReadHexIff(text: Bytes, bs: Bytes)
    ensures ReadHex(text) == Some(bs) <==> text == Hex(bs)
    decreases |text|
  {
    hide DigitValue, HexDigit;
    if |text| < 2 || bs == [] {
      assert |Hex(bs)| == 2 * |bs|;
    } else {
      var n, front, last := |text| - 2, bs[..|bs| - 1], bs[|bs| - 1];
      ReadHexIff(text[..n], front);
      DigitIff(text[n], last / 16);
      DigitIff(text[n + 1], last % 16);
      assert bs == front + [last];
      ReadIsFront(text, front, last);
      TextIsFront(text, bs);
    }
  }

  lemma ReadIsFront(text: Bytes, front: Bytes, last: Byte)
    requires |text| >= 2
    ensures
      var n := |text| - 2;
      ReadHex(text) == Some(front + [last])
        <==>
        && ReadHex(text[..n]) == Some(front)
        && DigitValue(text[n]) == Some(last / 16)
        && DigitValue(text[n + 1]) == Some(last % 16)
  {
    hide DigitValue, OneMore;
    var n := |text| - 2;
    OneMoreIff(ReadHex(text[..n]), DigitValue(text[n]), DigitValue(text[n + 1]), front, last);
  }

  lemma OneMoreIff(before: Option<Bytes>, hi: Option<Byte>, lo: Option<Byte>, front: Bytes, last: Byte)
    requires (hi.Some? ==> hi.value < 16) && (lo.Some? ==> lo.value < 16)
    ensures OneMore(before, hi, lo) == Some(front + [last])
      <==> before == Some(front) && hi == Some(last / 16) && lo == Some(last % 16)
  {
    if before.Some? && hi.Some? && lo.Some? {
      ByteOfDigits(hi.value, lo.value, last);
      LastByte(before.value, 16 * hi.value + lo.value, front, last);
    }
  }

  lemma TextIsFront(text: Bytes, bs: Bytes)
    requires |text| >= 2 && bs != []
    ensures
      var n, front, last := |text| - 2, bs[..|bs| - 1], bs[|bs| - 1];
      text == Hex(bs)
        <==>
        && text[..n] == Hex(front)
        && text[n] == HexDigit(last / 16)
        && text[n + 1] == HexDigit(last % 16)
  {
    hide HexDigit;
    var n, front, last := |text| - 2, bs[..|bs| - 1], bs[|bs| - 1];
    assert text == text[..n] + [text[n], text[n + 1]];
    SameParts(text[..n], Hex(front), text[n], text[n + 1], HexDigit(last / 16), HexDigit(last % 16));
  }

  lemma SameParts(a: Bytes, b: Bytes, x1: Byte, x2: Byte, y1: Byte, y2: Byte)
    ensures a + [x1, x2] == b + [y1, y2] <==> a == b && x1 == y1 && x2 == y2
  {
    if a + [x1, x2] == b + [y1, y2] {
      var t := a + [x1, x2];
      assert a == t[..|t| - 2] && b == t[..|t| - 2];
      assert t[|t| - 2] == x1 && t[|t| - 1] == x2;
    }
  }

  lemma LastByte(a: Bytes, x: Byte, b: Bytes, y: Byte)
    ensures a + [x] == b + [y] <==> a == b && x == y
  {
    if a + [x] == b + [y] {
      var t := a + [x];
      assert a == t[..|t| - 1] && b == t[..|t| - 1] && t[|t| - 1] == x;
    }
  }

  lemma ColonIs(text: Bytes, i: nat)
    requires i < |text| && text[i] == COLON && forall j | 0 <= j < i :: text[j] != COLON
    ensures FirstColon(text) == i
  {
  }

  lemma PairParts(a: Bytes, b: Bytes)
    ensures var t := a + [COLON] + b; t[..|a|] == a && t[|a|] == COLON && t[|a| + 1..] == b
  {
  }

  /** Hex texts around a colon are the only text that is read as the pair. */
  lemma PairTextIff(text: Bytes, key: Bytes, value: Bytes)
    ensures ReadPair(text) == Some((key, value)) <==> text == Hex(key) + [COLON] + Hex(value)
  {
    hide ReadHex, Hex, FirstColon;
    if text == Hex(key) + [COLON] + Hex(value) {
      PairParts(Hex(key), Hex(value));
      forall j | 0 <= j < |Hex(key)|
        ensures text[j] != COLON
      {
        HexCharacter(key, j);
      }
      ColonIs(text, |Hex(key)|);
      ReadHexIff(Hex(key), key);
      ReadHexIff(Hex(value), value);
    }
    if ReadPair(text) == Some((key, value)) {
      var colon := FirstColon(text);
      ReadHexIff(text[..colon], key);
      ReadHexIff(text[colon + 1..], value);
      assert text == text[..colon] + [COLON] + text[colon + 1..];
    }
  }

  /** The leaf text is the only text that is read as the key and the value. */
  lemma LeafTextIff(text: Bytes, key: Bytes, value: Bytes)
    ensures ReadLeaf(text) == Some((key, value)) <==> text == LeafPreimage(key, value)
  {
    hide ReadPair, Hex;
    var rest := Hex(key) + [COLON] + Hex(value);
    assert LeafPreimage(key, value) == LEAF_TAG + rest;
    assert (LEAF_TAG + rest)[..5] == LEAF_TAG && (LEAF_TAG + rest)[5..] == rest;
    if |text| >= 5 {
      PairTextIff(text[5..], key, value);
      assert text == text[..5] + text[5..];
    }
  }

  /** The node text is the only text that is read as the left and the right child. */
  lemma NodeTextIff(text: Bytes, left: Digest, right: Digest)
    ensures ReadNode(text) == Some((left, right)) <==> text == NodePreimage(left, right)
  {
    hide ReadHex, Hex;
    if |text| == 128 {
      ReadHexIff(text[..64], left);
      ReadHexIff(text[64..], right);
      assert text == text[..64] + text[64..];
      assert (Hex(left) + Hex(right))[..64] == Hex(left) && (Hex(left) + Hex(right))[64..] == Hex(right);
    }
  }

  /** What is hashed for a leaf: the text that reads as its key and its value. */
  lemma LeafHashIs(h: Hash, key: Bytes, value: Bytes, text: Bytes)
    requires ReadLeaf(text) == Some((key, value))
    ensures LeafHash(h, key, value) == h(text)
  {
    hide ReadLeaf, LeafPreimage;
    LeafTextIff(text, key, value);
  }

  /** What is hashed for a node: the text that reads as its left and its right child. */
  lemma NodeHashIs(h: Hash, left: Digest, right: Digest, text: Bytes)
    requires ReadNode(text) == Some((left, right))
    ensures NodeHash(h, left, right) == h(text)
  {
    hide ReadNode, NodePreimage;
    NodeTextIff(text, left, right);
  }

  /** The root over 2^k leaves. */
  function Root(h: Hash, leaves: seq<Digest>, k: nat): Digest
    requires |leaves| == Pow2(k)
  {
    if k == 0 then leaves[0]
    else
      var half := Pow2(k - 1);
      NodeHash(h, Root(h, leaves[..half], k - 1), Root(h, leaves[half..], k - 1))
  }

  /** One layer up. */
  function PairUp(h: Hash, layer: seq<Digest>): (up: seq<Digest>)
    requires |layer| % 2 == 0
    ensures |up| == |layer| / 2
  {
    seq(|layer| / 2, i requires 0 <= i < |layer| / 2 => NodeHash(h, layer[2 * i], layer[2 * i + 1]))
  }

  /** Computing the tree layer by layer from below gives the recursive root. */
  lemma {:induction false} PairUpKeepsRoot(h: Hash, layer: seq<Digest>, k: nat)
    requires |layer| == Pow2(k + 1)
    ensures Root(h, layer, k + 1) == Root(h, PairUp(h, layer), k)
  {
    hide NodeHash, Root, PairUp;
    if k == 0 {
      PairUpOfTwo(h, layer);
    } else {
      var half, up := Pow2(k), PairUp(h, layer);
      RootSplit(h, layer, k + 1);
      PairUpKeepsRoot(h, layer[..half], k - 1);
      PairUpKeepsRoot(h, layer[half..], k - 1);
      PairUpHalves(h, layer, Pow2(k - 1));
      RootSplit(h, up, k);
    }
  }

  lemma PairUpOfTwo(h: Hash, layer: seq<Digest>)
    requires |layer| == 2
    ensures Pow2(1) == 2 && Pow2(0) == 1 && Root(h, layer, 1) == Root(h, PairUp(h, layer), 0)
  {
    hide NodeHash;
  }

  lemma RootSplit(h: Hash, leaves: seq<Digest>, k: nat)
    requires k > 0 && |leaves| == Pow2(k)
    ensures
      var half := Pow2(k - 1);
      Root(h, leaves, k) == NodeHash(h, Root(h, leaves[..half], k - 1), Root(h, leaves[half..], k - 1))
  {
  }

  lemma PairUpHalves(h: Hash, layer: seq<Digest>, q: nat)
    requires |layer| == 4 * q
    ensures PairUp(h, layer)[..q] == PairUp(h, layer[..2 * q])
    ensures PairUp(h, layer)[q..] == PairUp(h, layer[2 * q..])
  {
    hide NodeHash;
  }

  function Zeros(n: nat): (z: seq<Digest>)
    ensures |z| == n && forall i | 0 <= i < n :: z[i] == ZERO
  {
    if n == 0 then [] else Zeros(n - 1) + [ZERO]
  }

  function Padded(leaves: seq<Digest>): (p: seq<Digest>)
    ensures |p| == Pow2(CeilLog2(|leaves|)) && |leaves| <= |p|
  {
    leaves + Zeros(Pow2(CeilLog2(|leaves|)) - |leaves|)
  }

  /** The zero digest stands for no leaves. */
  function StateRoot(h: Hash, leaves: seq<Digest>): Digest {
    if leaves == [] then ZERO else Root(h, Padded(leaves), CeilLog2(|leaves|))
  }

  datatype Mutation = Mutation(key: Bytes, value: Bytes)

  /** A mutation with an empty value deletes. */
  function Writes(ms: seq<Mutation>): seq<Mutation> {
    if ms == [] then []
    else
      var last := ms[|ms| - 1];
      Writes(ms[..|ms| - 1]) + (if last.value == [] then [] else [last])
  }

  function LeafHashes(h: Hash, ms: seq<Mutation>): (ls: seq<Digest>)
    ensures |ls| == |ms|
  {
    seq(|ms|, i requires 0 <= i < |ms| => LeafHash(h, ms[i].key, ms[i].value))
  }

  function BlockRoot(h: Hash, ms: seq<Mutation>): Digest {
    StateRoot(h, LeafHashes(h, Writes(ms)))
  }

  /** The node texts hashed for a root. */
  ghost function NodeTexts(h: Hash, leaves: seq<Digest>, k: nat): set<Bytes>
    requires |leaves| == Pow2(k)
  {
    if k == 0 then {}
    else
      var half := Pow2(k - 1);
      NodeTexts(h, leaves[..half], k - 1) + NodeTexts(h, leaves[half..], k - 1)
        + {NodePreimage(Root(h, leaves[..half], k - 1), Root(h, leaves[half..], k - 1))}
  }

  function LeafTexts(ws: seq<Mutation>): set<Bytes> {
    set m | m in ws :: LeafPreimage(m.key, m.value)
  }

  /** Every text hashed for the root over a list of pairs. */
  ghost function ListTexts(h: Hash, ws: seq<Mutation>): set<Bytes> {
    if ws == [] then {} else LeafTexts(ws) + NodeTexts(h, Padded(LeafHashes(h, ws)), CeilLog2(|ws|))
  }

  /** Every text a block hashes. */
  ghost function Texts(h: Hash, ms: seq<Mutation>): set<Bytes> {
    ListTexts(h, Writes(ms))
  }

  /** No two of the texts collide. */
  ghost predicate NoCollision(h: Hash, texts: set<Bytes>) {
    forall a, b | a in texts && b in texts && h(a) == h(b) :: a == b
  }

  /** No two of the texts collide, and none hashes to the padding. */
  ghost predicate CollisionFree(h: Hash, texts: set<Bytes>) {
    && NoCollision(h, texts)
    && (forall a | a in texts :: h(a) != ZERO)
  }

  /** The children of an inner node, its text, and what it hashes to. */
  lemma Inner(h: Hash, a: seq<Digest>, k: nat, texts: set<Bytes>)
    requires |a| == Pow2(k) && k > 0 && NodeTexts(h, a, k) <= texts
    ensures
      var half := Pow2(k - 1);
      var l, r := Root(h, a[..half], k - 1), Root(h, a[half..], k - 1);
      && Root(h, a, k) == h(NodePreimage(l, r)) && NodePreimage(l, r) in texts
      && NodeTexts(h, a[..half], k - 1) <= texts && NodeTexts(h, a[half..], k - 1) <= texts
  {
    hide NodePreimage;
    var half := Pow2(k - 1);
    assert NodePreimage(Root(h, a[..half], k - 1), Root(h, a[half..], k - 1)) in NodeTexts(h, a, k);
  }

  lemma SameText(h: Hash, texts: set<Bytes>, p: Bytes, q: Bytes)
    requires NoCollision(h, texts) && p in texts && q in texts && h(p) == h(q)
    ensures p == q
  {
  }

  lemma {:induction false} SameSize(h: Hash, a: seq<Digest>, b: seq<Digest>, k: nat, texts: set<Bytes>)
    requires |a| == Pow2(k) && |b| == Pow2(k) && NoCollision(h, texts)
    requires NodeTexts(h, a, k) <= texts && NodeTexts(h, b, k) <= texts && Root(h, a, k) == Root(h, b, k)
    ensures a == b
  {
    hide NoCollision, NodePreimage, NodeTexts;
    if k == 0 {
      assert a == [a[0]] && b == [b[0]];
    } else {
      var half := Pow2(k - 1);
      Inner(h, a, k, texts);
      Inner(h, b, k, texts);
      hide Root;
      var la, ra := Root(h, a[..half], k - 1), Root(h, a[half..], k - 1);
      var lb, rb := Root(h, b[..half], k - 1), Root(h, b[half..], k - 1);
      SameText(h, texts, NodePreimage(la, ra), NodePreimage(lb, rb));
      NodePreimageInjective(la, ra, lb, rb);
      SameSize(h, a[..half], b[..half], k - 1, texts);
      SameSize(h, a[half..], b[half..], k - 1, texts);
      SplitAt(a, half);
      SplitAt(b, half);
    }
  }

  lemma SplitAt(a: seq<Digest>, i: nat)
    requires i <= |a|
    ensures a == a[..i] + a[i..]
  {
  }

  /** Trees of different heights have different roots: a leaf would have to be a node. */
  lemma {:induction false} DifferentSize(h: Hash, a: seq<Digest>, b: seq<Digest>, j: nat, k: nat, m: Mutation,
      texts: set<Bytes>)
    requires |a| == Pow2(j) && |b| == Pow2(k) && j < k && NoCollision(h, texts)
    requires NodeTexts(h, a, j) <= texts && NodeTexts(h, b, k) <= texts
    requires a[0] == LeafHash(h, m.key, m.value) && LeafPreimage(m.key, m.value) in texts
    ensures Root(h, a, j) != Root(h, b, k)
  {
    hide NoCollision, NodePreimage, LeafPreimage, NodeTexts;
    var l2, r2 := Root(h, b[..Pow2(k - 1)], k - 1), Root(h, b[Pow2(k - 1)..], k - 1);
    Inner(h, b, k, texts);
    if j == 0 {
      LeafIsNotNode(m.key, m.value, l2, r2);
      if h(LeafPreimage(m.key, m.value)) == h(NodePreimage(l2, r2)) {
        SameText(h, texts, LeafPreimage(m.key, m.value), NodePreimage(l2, r2));
      }
    } else {
      var l1, r1 := Root(h, a[..Pow2(j - 1)], j - 1), Root(h, a[Pow2(j - 1)..], j - 1);
      Inner(h, a, j, texts);
      hide Root;
      DifferentSize(h, a[..Pow2(j - 1)], b[..Pow2(k - 1)], j - 1, k - 1, m, texts);
      if h(NodePreimage(l1, r1)) == h(NodePreimage(l2, r2)) {
        SameText(h, texts, NodePreimage(l1, r1), NodePreimage(l2, r2));
        NodePreimageInjective(l1, r1, l2, r2);
      }
    }
  }

  lemma LeafTextIn(ws: seq<Mutation>, i: nat)
    requires i < |ws|
    ensures LeafPreimage(ws[i].key, ws[i].value) in LeafTexts(ws)
  {
  }

  lemma PaddingEnds(a: seq<Digest>, b: seq<Digest>, i: nat)
    requires Padded(a) == Padded(b) && |a| <= i < |b|
    ensures b[i] == ZERO
  {
    assert Padded(a)[i] == ZERO && Padded(b)[i] == b[i];
  }

  /** Equal padded leaves come from a list of pairs and a longer one, whose further leaves are padding. */
  lemma PaddedLists(h: Hash, xs: seq<Mutation>, ys: seq<Mutation>, texts: set<Bytes>)
    requires NoCollision(h, texts) && LeafTexts(xs) <= texts && LeafTexts(ys) <= texts
    requires Padded(LeafHashes(h, xs)) == Padded(LeafHashes(h, ys)) && |xs| <= |ys|
    ensures xs == ys[..|xs|]
    ensures forall i | |xs| <= i < |ys| :: LeafHash(h, ys[i].key, ys[i].value) == ZERO
  {
    hide LeafPreimage, Padded, LeafTexts, NoCollision;
    var a, b := LeafHashes(h, xs), LeafHashes(h, ys);
    forall i | |xs| <= i < |ys|
      ensures LeafHash(h, ys[i].key, ys[i].value) == ZERO
    {
      PaddingEnds(a, b, i);
    }
    forall i | 0 <= i < |xs|
      ensures xs[i] == ys[i]
    {
      assert Padded(a)[i] == a[i] && Padded(b)[i] == b[i] by {
        PaddedAt(a, i);
        PaddedAt(b, i);
      }
      LeafTextIn(xs, i);
      LeafTextIn(ys, i);
      SameText(h, texts, LeafPreimage(xs[i].key, xs[i].value), LeafPreimage(ys[i].key, ys[i].value));
      LeafPreimageInjective(xs[i].key, xs[i].value, ys[i].key, ys[i].value);
    }
  }

  lemma PaddedAt(a: seq<Digest>, i: nat)
    requires i < |a|
    ensures Padded(a)[i] == a[i]
  {
  }

  /** The text whose digest is the root. */
  function TopText(h: Hash, ws: seq<Mutation>): Bytes
    requires ws != []
  {
    var leaves, k := Padded(LeafHashes(h, ws)), CeilLog2(|ws|);
    if k == 0 then LeafPreimage(ws[0].key, ws[0].value)
    else
      var half := Pow2(k - 1);
      NodePreimage(Root(h, leaves[..half], k - 1), Root(h, leaves[half..], k - 1))
  }

  lemma RootIsHash(h: Hash, ws: seq<Mutation>)
    requires ws != []
    ensures StateRoot(h, LeafHashes(h, ws)) == h(TopText(h, ws)) && TopText(h, ws) in ListTexts(h, ws)
  {
    hide LeafPreimage, NodePreimage;
    var b, k := Padded(LeafHashes(h, ws)), CeilLog2(|ws|);
    LeafTextIn(ws, 0);
    if k == 0 {
      PaddedAt(LeafHashes(h, ws), 0);
    } else {
      Inner(h, b, k, NodeTexts(h, b, k));
    }
  }

  /**
   * The root does not show that ys goes on after xs: its further leaves hash to the padding, in the place of
   * padding, or, where xs is empty, the topmost text does.
   */
  ghost predicate Hidden(h: Hash, xs: seq<Mutation>, ys: seq<Mutation>) {
    && xs < ys
    && if xs == [] then h(TopText(h, ys)) == ZERO
       else
         && CeilLog2(|xs|) == CeilLog2(|ys|)
         && forall i | |xs| <= i < |ys| :: LeafHash(h, ys[i].key, ys[i].value) == ZERO
  }

  /** Hidden leaves do not change the root, for every hash. */
  lemma HiddenKeepsRoot(h: Hash, xs: seq<Mutation>, ys: seq<Mutation>)
    requires Hidden(h, xs, ys)
    ensures StateRoot(h, LeafHashes(h, xs)) == StateRoot(h, LeafHashes(h, ys))
  {
    hide LeafHash, Root, TopText;
    if xs == [] {
      RootIsHash(h, ys);
    } else {
      var a, b := LeafHashes(h, xs), LeafHashes(h, ys);
      assert a == b[..|a|];
      assert Padded(a) == Padded(b);
    }
  }

  /** A list below another in length, with the same root, is the other or hides its end. */
  lemma RootsOrdered(h: Hash, xs: seq<Mutation>, ys: seq<Mutation>, texts: set<Bytes>)
    requires NoCollision(h, texts) && |xs| <= |ys|
    requires ListTexts(h, xs) <= texts && ListTexts(h, ys) <= texts
    requires StateRoot(h, LeafHashes(h, xs)) == StateRoot(h, LeafHashes(h, ys))
    ensures xs == ys || Hidden(h, xs, ys)
  {
    hide LeafPreimage, NodePreimage, TopText, NoCollision, NodeTexts, Root, LeafTexts, LeafHash;
    var a, b := LeafHashes(h, xs), LeafHashes(h, ys);
    if xs == [] {
      if ys != [] {
        RootIsHash(h, ys);
      }
    } else {
      var j, k := CeilLog2(|xs|), CeilLog2(|ys|);
      LevelsGrow(|xs|, |ys|);
      if j < k {
        LeafTextIn(xs, 0);
        PaddedAt(a, 0);
        DifferentSize(h, Padded(a), Padded(b), j, k, xs[0], texts);
      } else {
        SameSize(h, Padded(a), Padded(b), j, texts);
        PaddedLists(h, xs, ys, texts);
      }
    }
  }

  lemma LevelsGrow(m: nat, n: nat)
    requires m <= n
    ensures CeilLog2(m) <= CeilLog2(n)
  {
    if CeilLog2(n) < CeilLog2(m) {
      Pow2Monotone(CeilLog2(n), CeilLog2(m) - 1);
    }
  }

  /** Two lists of pairs whose texts do not collide have one root exactly if they are equal or one hides its end. */
  lemma ListRootsEqualIff(h: Hash, xs: seq<Mutation>, ys: seq<Mutation>)
    requires NoCollision(h, ListTexts(h, xs) + ListTexts(h, ys))
    ensures StateRoot(h, LeafHashes(h, xs)) == StateRoot(h, LeafHashes(h, ys))
      <==> xs == ys || Hidden(h, xs, ys) || Hidden(h, ys, xs)
  {
    hide NoCollision, ListTexts, StateRoot, Hidden;
    var texts := ListTexts(h, xs) + ListTexts(h, ys);
    if Hidden(h, xs, ys) {
      HiddenKeepsRoot(h, xs, ys);
    } else if Hidden(h, ys, xs) {
      HiddenKeepsRoot(h, ys, xs);
    } else if StateRoot(h, LeafHashes(h, xs)) == StateRoot(h, LeafHashes(h, ys)) {
      if |xs| <= |ys| {
        RootsOrdered(h, xs, ys, texts);
      } else {
        RootsOrdered(h, ys, xs, texts);
      }
    }
  }

  /** What a root says: if texts do not collide, equal roots mean equal writes, or that one block hides its end. */
  lemma RootsEqualIff(h: Hash, ms: seq<Mutation>, ns: seq<Mutation>)
    requires NoCollision(h, Texts(h, ms) + Texts(h, ns))
    ensures BlockRoot(h, ms) == BlockRoot(h, ns)
      <==> Writes(ms) == Writes(ns) || Hidden(h, Writes(ms), Writes(ns)) || Hidden(h, Writes(ns), Writes(ms))
  {
    hide NoCollision, ListTexts, StateRoot, Hidden;
    ListRootsEqualIff(h, Writes(ms), Writes(ns));
  }

  /** Binding: blocks with equal numbers of writes and texts that do not collide have one root for one list only. */
  lemma SameCountBinds(h: Hash, ms: seq<Mutation>, ns: seq<Mutation>)
    requires NoCollision(h, Texts(h, ms) + Texts(h, ns)) && |Writes(ms)| == |Writes(ns)|
    ensures BlockRoot(h, ms) == BlockRoot(h, ns) <==> Writes(ms) == Writes(ns)
  {
    hide NoCollision, Texts, BlockRoot;
    RootsEqualIff(h, ms, ns);
  }

  /** An end is hidden by a text that hashes to the padding. */
  lemma NothingHidden(h: Hash, xs: seq<Mutation>, ys: seq<Mutation>)
    requires forall a | a in ListTexts(h, ys) :: h(a) != ZERO
    ensures !Hidden(h, xs, ys)
  {
    hide LeafPreimage, TopText;
    if Hidden(h, xs, ys) {
      RootIsHash(h, ys);
      if xs != [] {
        LeafTextIn(ys, |xs|);
      }
    }
  }

  /** If moreover no text hashes to the padding digest, the root binds whatever the numbers of writes. */
  lemma RootBindsWrites(h: Hash, ms: seq<Mutation>, ns: seq<Mutation>)
    requires CollisionFree(h, Texts(h, ms) + Texts(h, ns)) && BlockRoot(h, ms) == BlockRoot(h, ns)
    ensures Writes(ms) == Writes(ns)
  {
    hide NoCollision, ListTexts, BlockRoot, Hidden;
    RootsEqualIff(h, ms, ns);
    NothingHidden(h, Writes(ms), Writes(ns));
    NothingHidden(h, Writes(ns), Writes(ms));
  }

  /**
   * An end can be hidden: while a block leaves padding in its tree, a further write that hashes to the padding
   * does not show, for every hash function that has such a leaf.
   */
  lemma PaddingLeafInvisible(h: Hash, ms: seq<Mutation>, m: Mutation)
    requires |Writes(ms)| < Pow2(CeilLog2(|Writes(ms)|))
    requires m.value != [] && LeafHash(h, m.key, m.value) == ZERO
    ensures Writes(ms + [m]) == Writes(ms) + [m] && BlockRoot(h, ms + [m]) == BlockRoot(h, ms)
  {
    var xs := Writes(ms);
    var a, b := LeafHashes(h, xs), LeafHashes(h, xs + [m]);
    assert (ms + [m])[..|ms|] == ms;
    assert b == a + [ZERO];
    PaddedKept(a);
    if a == [] {
      assert Padded(b) == [ZERO];
    }
  }

  /** A zero leaf in the place of padding. */
  lemma PaddedKept(a: seq<Digest>)
    requires |a| < Pow2(CeilLog2(|a|))
    ensures CeilLog2(|a| + 1) == CeilLog2(|a|) && Padded(a + [ZERO]) == Padded(a)
  {
    CeilLog2Unique(|a| + 1, CeilLog2(|a|));
    var n := Pow2(CeilLog2(|a|)) - |a|;
    assert Zeros(n) == [ZERO] + Zeros(n - 1);
  }

  lemma WritesSnoc(ws: seq<Mutation>, m: Mutation)
    ensures Writes(ws + [m]) == Writes(ws) + (if m.value == [] then [] else [m])
  {
    assert (ws + [m])[..|ws|] == ws;
  }

  lemma NoWrites()
    ensures Writes([]) == []
  {
  }

  lemma Regrouped(a: seq<Mutation>, b: seq<Mutation>, c: seq<Mutation>)
    ensures a + b + c == a + (b + c)
  {
  }

  /** Writes are kept in order, one by one. */
  lemma {:induction false} WritesConcat(a: seq<Mutation>, b: seq<Mutation>)
    ensures Writes(a + b) == Writes(a) + Writes(b)
    decreases |b|
  {
    hide Writes;
    if b == [] {
      assert a + b == a && Writes(a) + [] == Writes(a);
      NoWrites();
    } else {
      var front, last := b[..|b| - 1], b[|b| - 1];
      WritesConcat(a, front);
      WritesSnoc(front, last);
      WritesSnoc(a + front, last);
      Regrouped(a, front, [last]);
      Regrouped(Writes(a), Writes(front), if last.value == [] then [] else [last]);
      assert b == front + [last];
    }
  }

  /** The root of three writes: two leaves to the left, the third leaf and padding to the right. */
  lemma ThreeWrites(h: Hash, a: Mutation, b: Mutation, c: Mutation, ta: Bytes, tb: Bytes, tc: Bytes, l: Bytes, r: Bytes,
      top: Bytes)
    requires a.value != [] && b.value != [] && c.value != []
    requires ReadLeaf(ta) == Some((a.key, a.value)) && ReadLeaf(tb) == Some((b.key, b.value))
    requires ReadLeaf(tc) == Some((c.key, c.value))
    requires ReadNode(l) == Some((h(ta), h(tb))) && ReadNode(r) == Some((h(tc), ZERO))
    requires ReadNode(top) == Some((h(l), h(r)))
    ensures BlockRoot(h, [a, b, c]) == h(top)
  {
    hide ReadLeaf, ReadNode, LeafHash, NodeHash;
    LeafHashIs(h, a.key, a.value, ta);
    LeafHashIs(h, b.key, b.value, tb);
    LeafHashIs(h, c.key, c.value, tc);
    NodeHashIs(h, h(ta), h(tb), l);
    NodeHashIs(h, h(tc), ZERO, r);
    NodeHashIs(h, h(l), h(r), top);
    ThreeKept(a, b, c);
    assert LeafHashes(h, [a, b, c]) == [h(ta), h(tb), h(tc)];
    RootOfThree(h, h(ta), h(tb), h(tc));
  }

  lemma ThreeKept(a: Mutation, b: Mutation, c: Mutation)
    requires a.value != [] && b.value != [] && c.value != []
    ensures Writes([a, b, c]) == [a, b, c]
  {
    assert [a, b, c][..2] == [a, b] && [a, b][..1] == [a];
    assert Writes([a]) == [a];
    assert Writes([a, b]) == [a] + [b];
  }

  lemma RootOfThree(h: Hash, a: Digest, b: Digest, c: Digest)
    ensures StateRoot(h, [a, b, c]) == NodeHash(h, NodeHash(h, a, b), NodeHash(h, c, ZERO))
  {
    hide NodeHash, PairUp;
    var leaves := [a, b, c, ZERO];
    assert Pow2(0) == 1 && Pow2(1) == 2 && Pow2(2) == 4;
    CeilLog2Unique(3, 2);
    assert Padded([a, b, c]) == leaves;
    assert leaves[..2] == [a, b] && leaves[2..] == [c, ZERO];
    PairUpOfTwo(h, [a, b]);
    PairUpOfTwo(h, [c, ZERO]);
    RootOfTwo(h, a, b);
    RootOfTwo(h, c, ZERO);
  }

  lemma RootOfTwo(h: Hash, a: Digest, b: Digest)
    ensures Pow2(1) == 2 && Root(h, [a, b], 1) == NodeHash(h, a, b)
  {
    hide NodeHash;
    assert Pow2(0) == 1;
    assert [a, b][..1] == [a] && [a, b][1..] == [b];
  }

  /** In particular a single such write has the root of no writes, and no two of the texts collide. */
  lemma ZeroDigestBreaksBinding(h: Hash, m: Mutation)
    requires m.value != [] && LeafHash(h, m.key, m.value) == ZERO
    ensures BlockRoot(h, [m]) == BlockRoot(h, []) && Writes([m]) != Writes([])
    ensures NoCollision(h, Texts(h, [m]) + Texts(h, []))
  {
    PaddingLeafInvisible(h, [], m);
    assert [] + [m] == [m] == Writes([m]);
    assert CeilLog2(1) == 0;
    assert LeafTexts([m]) == {LeafPreimage(m.key, m.value)};
  }
}
