/** The scatter kernel: which bucket a scalar falls into for one window. */
module Scatter {
  import opened Bits
  import opened Prelude
  import opened Limbs

  /** The kernel's extraction of c bits at bit b of a word, given the next word if there is one. */
  function Extract(lo: u32, next: seq<u32>, b: nat, c: nat): (bucket: nat)
    requires b < 32 && 1 <= c <= 16
  {
    var mask := Pow2(c) - 1;
    var bucket := And(Shr(lo, b), mask);
    if b + c > 32 && next != [] then Or(bucket, And((next[0] * Pow2(32 - b)) % W, mask)) else bucket
  }

  /** The extraction at a bit offset of eight little-endian 32-bit words. */
  function BucketAt(words: seq<u32>, c: nat, bitOffset: nat): (bucket: nat)
    requires |words| == 8 && 1 <= c <= 16 && bitOffset < 256
  {
    var wordIdx := bitOffset / 32;
    Extract(words[wordIdx], words[wordIdx + 1..], bitOffset % 32, c)
  }

  function Scalar(words: seq<u32>): int
    requires |words| == 8
  {
    Sum(words, W, 8)
  }

  /** The part of the scalar from word q up. */
  function Rest(words: seq<u32>, q: nat): int
    requires |words| == 8 && q <= 8
  {
    Sum(words[q..], W, 8 - q)
  }

  lemma WordPower()
    ensures Pow2(32) == W
  {
    assert Pow2(8) == 256;
    assert Pow2(16) == 65536;
    assert Pow2(24) == 0x100_0000;
  }

  lemma {:induction false} PowIsPow2(q: nat)
    ensures Pow(W, q) == Pow2(32 * q)
  {
    if q > 0 {
      PowIsPow2(q - 1);
      WordPower();
      Pow2Add(32 * (q - 1), 32);
    }
  }

  lemma RestNext(words: seq<u32>, q: nat)
    requires |words| == 8 && q < 8
    ensures Rest(words, q) == words[q] + W * Rest(words, q + 1) && Rest(words, q + 1) >= 0 && Rest(words, 8) == 0
  {
    var tail: seq<int> := words[q..];
    SumShift(tail, W, 1, 7 - q);
    assert tail[1..] == words[q + 1..];
    assert Sum(tail, W, 1) == tail[0] && Pow(W, 1) == W;
    SumBound(words[q + 1..], W, 7 - q);
  }

  /** Dropping q whole words is a shift by 32 q bits. */
  lemma RestIsShift(words: seq<u32>, q: nat)
    requires |words| == 8 && q <= 8
    ensures Scalar(words) >= 0 && Shr(Scalar(words), 32 * q) == Rest(words, q)
  {
    SumShift(words, W, q, 8 - q);
    SumBound(words, W, q);
    SumBound(words, W, 8);
    PowIsPow2(q);
    DivUnique(Scalar(words), Pow2(32 * q), Rest(words, q), Sum(words, W, q));
  }

  /** A window of pc = 2^c inside a word of pb * pc * rest. */
  lemma InsideArithmetic(lo: int, word: int, t: int, pb: int, high: int, pc: int, rest: int)
    requires 0 < pb && 0 < pc && word == pb * high && high == pc * rest
    ensures ((lo + word * t) / pb) % pc == (lo / pb) % pc
  {
    assert word * t == pb * (pc * (rest * t));
    DivShift(lo, pb, pc * (rest * t));
    DivShift(lo / pb, pc, rest * t);
  }

  lemma InsideWord(lo: u32, t: nat, b: nat, c: nat)
    requires b + c <= 32
    ensures Shr(lo + W * t, b) % Pow2(c) == And(Shr(lo, b), Pow2(c) - 1)
  {
    WordPower();
    Pow2Add(b, 32 - b);
    Pow2Add(c, 32 - b - c);
    AndMask(Shr(lo, b), c);
    hide Pow2, And;
    InsideArithmetic(lo, W, t, Pow2(b), Pow2(32 - b), Pow2(c), Pow2(32 - b - c));
  }

  lemma CrossSplit(low: int, high: int, pc: int, rest: int, word: int, t: int, d: int, m: int)
    requires pc == low * high && word == pc * rest
    ensures low * ((high * d + m) + word * t) == pc * (d + low * rest * t) + low * m
  {
    assert low * (high * d + m) == pc * d + low * m;
    assert low * (word * t) == pc * (low * rest * t);
    assert pc * (d + low * rest * t) == pc * d + pc * (low * rest * t);
  }

  lemma CrossFits(x: int, low: int, high: int, pc: int, m: int)
    requires 0 <= x < low && 0 <= m < high && pc == low * high
    ensures 0 <= x + low * m < pc
  {
    assert low * m <= low * (high - 1);
    assert low * (high - 1) == pc - low;
    assert 0 <= low * m;
  }

  lemma LowQuotient(lo: int, pb: int, low: int, word: int)
    requires 0 <= lo < word && 0 < pb && word == pb * low
    ensures 0 <= lo / pb < low
  {
    assert lo == pb * (lo / pb) + lo % pb;
    Quotient(pb, lo / pb, low);
  }

  lemma DropLow(lo: int, word: int, z: int, pb: int, low: int)
    requires 0 < pb && word == pb * low
    ensures (lo + word * z) / pb == lo / pb + low * z
  {
    assert word * z == pb * (low * z);
    DivShift(lo, pb, low * z);
  }

  lemma CrossQuotient(x: int, low: int, high: int, pc: int, rest: int, word: int, t: int, hi: int)
    requires 0 <= x < low && 0 < high && 0 < pc && pc == low * high && word == pc * rest
    ensures (x + low * (hi + word * t)) % pc == x + low * (hi % high)
  {
    var d, m := hi / high, hi % high;
    assert hi == high * d + m;
    CrossSplit(low, high, pc, rest, word, t, d, m);
    CrossFits(x, low, high, pc, m);
    DivUnique(x + low * (hi + word * t), pc, d + low * rest * t, x + low * m);
  }

  /** A window that crosses into the next word. */
  lemma CrossShift(shifted: int, x: int, low: int, high: int, pc: int, rest: int, word: int, t: int, hi: int)
    requires shifted == x + low * (hi + word * t)
    requires 0 <= x < low && 0 < high && 0 < pc && pc == low * high && word == pc * rest
    ensures shifted % pc == x + low * (hi % high)
  {
    CrossQuotient(x, low, high, pc, rest, word, t, hi);
  }

  lemma CrossHigh(hi: int, low: int, high: int, pc: int, rest: int, word: int)
    requires 0 < low && 0 < high && 0 < pc && pc == low * high && word == pc * rest && rest > 0
    ensures ((hi * low) % word) % pc == low * (hi % high)
  {
    ModScale(low, high, hi);
    ModOfMod(hi * low, pc, rest);
  }

  lemma Quotient(p: int, x: int, q: int)
    requires p > 0 && p * x < p * q
    ensures x < q
  {
  }

  /** Reducing modulo a multiple first changes nothing. */
  lemma ModOfMod(x: int, p: int, k: int)
    requires p > 0 && k > 0
    ensures p * k > 0 && (x % (p * k)) % p == x % p
  {
    var w := p * k;
    assert x == w * (x / w) + x % w;
    assert w * (x / w) == p * (k * (x / w));
    DivShift(x % w, p, k * (x / w));
  }

  /** The powers of two of a crossing window. */
  lemma CrossPowers(b: nat, c: nat)
    requires b < 32 < b + c && c <= 32
    ensures
      var pb, low, high, pc, rest := Pow2(b), Pow2(32 - b), Pow2(b + c - 32), Pow2(c), Pow2(32 - c);
      W == pb * low && pc == low * high && W == pc * rest && low <= pc
  {
    hide Pow2;
    WordPower();
    Pow2Add(b, 32 - b);
    Pow2Add(32 - b, b + c - 32);
    Pow2Add(c, 32 - c);
    Pow2Monotone(32 - b, c);
  }

  /** The lower word's contribution to a crossing window, and the window. */
  lemma CrossLow(lo: u32, hi: u32, t: nat, b: nat, c: nat)
    requires b < 32 < b + c && c <= 32
    ensures
      var low, m := Pow2(32 - b), hi % Pow2(b + c - 32);
      && Shr(lo, b) < low <= Pow2(c)
      && Shr(lo + W * (hi + W * t), b) % Pow2(c) == Shr(lo, b) + m * low
  {
    hide Pow2;
    CrossPowers(b, c);
    var pb, low, high, pc, rest := Pow2(b), Pow2(32 - b), Pow2(b + c - 32), Pow2(c), Pow2(32 - c);
    LowQuotient(lo, pb, low, W);
    DropLow(lo, W, hi + W * t, pb, low);
    CrossShift(Shr(lo + W * (hi + W * t), b), lo / pb, low, high, pc, rest, W, t, hi);
  }

  /** The higher word's contribution. */
  lemma CrossUpper(hi: u32, b: nat, c: nat)
    requires b < 32 < b + c && c <= 32
    ensures ((hi * Pow2(32 - b)) % W) % Pow2(c) == Pow2(32 - b) * (hi % Pow2(b + c - 32))
  {
    hide Pow2;
    CrossPowers(b, c);
    CrossHigh(hi, Pow2(32 - b), Pow2(b + c - 32), Pow2(c), Pow2(32 - c), W);
  }

  lemma LowMasked(x: nat, c: nat)
    requires x < Pow2(c)
    ensures And(x, Pow2(c) - 1) == x
  {
    hide And, Pow2;
    AndMask(x, c);
    DivUnique(x, Pow2(c), 0, x);
  }

  lemma UpperMasked(hi: u32, b: nat, c: nat)
    requires b < 32 < b + c && c <= 32
    ensures And((hi * Pow2(32 - b)) % W, Pow2(c) - 1) == (hi % Pow2(b + c - 32)) * Pow2(32 - b)
  {
    hide And, Pow2;
    CrossUpper(hi, b, c);
    AndMask((hi * Pow2(32 - b)) % W, c);
  }

  lemma CrossWord(lo: u32, hi: u32, t: nat, b: nat, c: nat)
    requires b < 32 < b + c && c <= 32
    ensures Shr(lo + W * (hi + W * t), b) % Pow2(c)
            == Or(And(Shr(lo, b), Pow2(c) - 1), And((hi * Pow2(32 - b)) % W, Pow2(c) - 1))
  {
    hide And, Or, Shr, Pow2;
    CrossLow(lo, hi, t, b, c);
    LowMasked(Shr(lo, b), c);
    UpperMasked(hi, b, c);
    OrDisjoint(Shr(lo, b), hi % Pow2(b + c - 32), 32 - b);
  }

  lemma ExtractIsDigit(lo: u32, next: seq<u32>, t: nat, b: nat, c: nat)
    requires b < 32 && 1 <= c <= 16
    requires if next == [] then t == 0 else t >= next[0] && (t - next[0]) % W == 0
    ensures Extract(lo, next, b, c) == Shr(lo + W * t, b) % Pow2(c)
  {
    hide And, Or, Shr, Pow2;
    if b + c <= 32 {
      InsideWord(lo, t, b, c);
    } else if next != [] {
      var more := (t - next[0]) / W;
      assert t == next[0] + W * more;
      CrossWord(lo, next[0], more, b, c);
    } else {
      AndMask(Shr(lo, b), c);
    }
  }

  /** The kernel extracts exactly the scalar's c bits at the offset. */
  lemma BucketAtIsDigit(words: seq<u32>, c: nat, offset: nat)
    requires |words| == 8 && 1 <= c <= 16 && offset < 256
    ensures Scalar(words) >= 0 && BucketAt(words, c, offset) == Shr(Scalar(words), offset) % Pow2(c)
  {
    hide Pow2, Shr, Sum, Rest, Scalar, Extract;
    var q, b := offset / 32, offset % 32;
    RestIsShift(words, q);
    RestNext(words, q);
    ShiftTwice(Scalar(words), 32 * q, b);
    WordsAbove(words, q);
    ExtractIsDigit(words[q], words[q + 1..], Rest(words, q + 1), b, c);
  }

  /** What a word's window may need of the words above it. */
  lemma WordsAbove(words: seq<u32>, q: nat)
    requires |words| == 8 && q < 8
    ensures
      var next, t := words[q + 1..], Rest(words, q + 1);
      if next == [] then t == 0 else t >= next[0] && (t - next[0]) % W == 0
  {
    hide Rest;
    RestNext(words, q);
    if q < 7 {
      RestNext(words, q + 1);
      var u := Rest(words, q + 2);
      Multiple(u);
    }
  }

  lemma Multiple(u: int)
    requires u >= 0
    ensures (W * u) % W == 0 && W * u >= 0
  {
  }
}
