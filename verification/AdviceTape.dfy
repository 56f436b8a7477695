/** Little-endian bytes. */
module LittleEndian {
  import opened Prelude
  import Bits

  function Size(n: nat): (s: nat)
    ensures s >= 1
  {
    if n == 0 then 1 else 256 * Size(n - 1)
  }

  /** The low n bytes of v, least significant first. */
  function ToLe(v: nat, n: nat): (bs: seq<Byte>)
    ensures |bs| == n
  {
    if n == 0 then [] else [v % 256] + ToLe(v / 256, n - 1)
  }

  function FromLe(bs: seq<Byte>): nat {
    if bs == [] then 0 else bs[0] + 256 * FromLe(bs[1..])
  }

  lemma {:induction false} FromToLe(v: nat, n: nat)
    requires v < Size(n)
    ensures FromLe(ToLe(v, n)) == v
  {
    if n > 0 {
      FromToLe(v / 256, n - 1);
      assert ToLe(v, n)[1..] == ToLe(v / 256, n - 1);
    }
  }

  lemma {:induction false} ToFromLe(bs: seq<Byte>)
    ensures FromLe(bs) < Size(|bs|) && ToLe(FromLe(bs), |bs|) == bs
  {
    if bs != [] {
      ToFromLe(bs[1..]);
      LowByte(bs[0], FromLe(bs[1..]));
      assert bs == [bs[0]] + bs[1..];
    }
  }

  /** Byte i is digit i to the base of 256, the lowest first. */
  lemma {:induction false} ByteAt(v: nat, n: nat, i: nat)
    requires i < n
    ensures ToLe(v, n)[i] == (v / Size(i)) % 256
  {
    if i > 0 {
      ByteAt(v / 256, n - 1, i - 1);
      Bits.DivDiv(v, 256, Size(i - 1));
    }
  }

  lemma LowByte(b: Byte, rest: nat)
    ensures (b + 256 * rest) % 256 == b && (b + 256 * rest) / 256 == rest
  {
  }

  /** Bytes put into memory one after the other. */
  function Put(mem: map<nat, Byte>, addr: nat, bytes: seq<Byte>): map<nat, Byte>
    decreases |bytes|
  {
    if bytes == [] then mem else Put(mem[addr := bytes[0]], addr + 1, bytes[1..])
  }

  lemma {:induction false} PutConcat(mem: map<nat, Byte>, addr: nat, a: seq<Byte>, b: seq<Byte>)
    ensures Put(mem, addr, a + b) == Put(Put(mem, addr, a), addr + |a|, b)
    decreases |a|
  {
    if a == [] {
      assert a + b == b;
    } else {
      assert (a + b)[1..] == a[1..] + b;
      PutConcat(mem[addr := a[0]], addr + 1, a[1..], b);
    }
  }

  /** Memory that was never written reads as zero. */
  function At(mem: map<nat, Byte>, a: nat): Byte {
    if a in mem then mem[a] else 0
  }

  /** Bytes put in place are there, and nothing else changes. */
  lemma {:induction false} PutAt(mem: map<nat, Byte>, addr: nat, bytes: seq<Byte>, a: nat)
    ensures At(Put(mem, addr, bytes), a) == if addr <= a < addr + |bytes| then bytes[a - addr] else At(mem, a)
    decreases |bytes|
  {
    if bytes != [] {
      PutAt(mem[addr := bytes[0]], addr + 1, bytes[1..], a);
    }
  }

  function Slice(mem: map<nat, Byte>, addr: nat, n: nat): (bs: seq<Byte>)
    ensures |bs| == n && forall i | 0 <= i < n :: bs[i] == At(mem, addr + i)
  {
    if n == 0 then [] else Slice(mem, addr, n - 1) + [At(mem, addr + n - 1)]
  }

  lemma SliceOfPut(mem: map<nat, Byte>, addr: nat, bytes: seq<Byte>)
    ensures Slice(Put(mem, addr, bytes), addr, |bytes|) == bytes
  {
    forall i | 0 <= i < |bytes|
      ensures Slice(Put(mem, addr, bytes), addr, |bytes|)[i] == bytes[i]
    {
      PutAt(mem, addr, bytes, addr + i);
    }
  }
}

/** The advice tape: what is written, nested values on it, and the guest's aligned bulk read. */
module AdviceTape {
  import opened Bits
  import opened LittleEndian
  import opened Prelude

  /** Scalars of a width in bytes, tuples, and arrays and vectors of scalars. */
  datatype Shape = Scalar(width: nat) | Tuple(parts: seq<Shape>) | Array(width: nat, count: nat) | Vec(width: nat)

  datatype Value =
    | Num(v: nat)
    | Parts(parts: seq<Value>)
    | Elements(elems: seq<nat>)
    | Growable(elems: seq<nat>, capacity: nat)

  /** The width of a usize. */
  const WORD: nat := 8

  /** The size in bytes of so many elements. */
  function SizeOf(n: nat, width: nat): (size: nat) {
    if n == 0 then 0 else width + SizeOf(n - 1, width)
  }

  /** The most bytes that an allocation may have. */
  const ISIZE_MAX: nat := 0x7fff_ffff_ffff_ffff

  /** Whether a vector may have the capacity; asking for more panics. */
  predicate Allocatable(capacity: nat, width: nat) {
    SizeOf(capacity, width) <= ISIZE_MAX
  }

  predicate AllFit(elems: seq<nat>, width: nat) {
    forall i | 0 <= i < |elems| :: elems[i] < Size(width)
  }

  predicate HasShape(v: Value, s: Shape)
    decreases s
  {
    match s
    case Scalar(w) => v.Num? && v.v < Size(w)
    case Tuple(shapes) =>
      && v.Parts?
      && |v.parts| == |shapes|
      && forall i | 0 <= i < |shapes| :: HasShape(v.parts[i], shapes[i])
    case Array(w, n) => v.Elements? && |v.elems| == n && AllFit(v.elems, w)
    case Vec(w) =>
      && v.Growable?
      && |v.elems| <= v.capacity < Size(WORD)
      && Allocatable(v.capacity, w)
      && AllFit(v.elems, w)
  }

  function Packed(elems: seq<nat>, width: nat): seq<Byte> {
    if elems == [] then [] else ToLe(elems[0], width) + Packed(elems[1..], width)
  }

  /** What a value puts on the tape. A vector is preceded by its length and capacity. */
  function Write(v: Value, s: Shape): seq<Byte>
    requires HasShape(v, s)
    decreases s, 1, 0
  {
    match s
    case Scalar(w) => ToLe(v.v, w)
    case Tuple(shapes) => WriteAll(v.parts, shapes, s)
    case Array(w, _) => Packed(v.elems, w)
    case Vec(w) => ToLe(|v.elems|, WORD) + ToLe(v.capacity, WORD) + Packed(v.elems, w)
  }

  function WriteAll(vs: seq<Value>, shapes: seq<Shape>, ghost whole: Shape): seq<Byte>
    requires |vs| == |shapes| && forall i | 0 <= i < |shapes| :: HasShape(vs[i], shapes[i]) && shapes[i] < whole
    decreases whole, 0, |shapes|
  {
    if shapes == [] then [] else Write(vs[0], shapes[0]) + WriteAll(vs[1..], shapes[1..], whole)
  }

  /** Elements read one after the other; running out is a failure. */
  function Unpack(tape: seq<Byte>, width: nat, n: nat): Option<(seq<nat>, seq<Byte>)> {
    if n == 0 then Some(([], tape))
    else if |tape| < width then None
    else
      var more := Unpack(tape[width..], width, n - 1);
      if more.None? then None else Some(([FromLe(tape[..width])] + more.value.0, more.value.1))
  }

  /** Reading a value of a shape off the tape: the value and the rest of the tape, unless it fails. */
  function Read(tape: seq<Byte>, s: Shape): Option<(Value, seq<Byte>)>
    decreases s, 1, 0
  {
    match s
    case Scalar(w) => if |tape| < w then None else Some((Num(FromLe(tape[..w])), tape[w..]))
    case Tuple(shapes) =>
      var r := ReadAll(tape, shapes, s);
      if r.None? then None else Some((Parts(r.value.0), r.value.1))
    case Array(w, n) =>
      var r := Unpack(tape, w, n);
      if r.None? then None else Some((Elements(r.value.0), r.value.1))
    case Vec(w) =>
      if |tape| < 2 * WORD then None
      else
        var len, capacity := FromLe(tape[..WORD]), FromLe(tape[WORD..2 * WORD]);
        if capacity < len || !Allocatable(capacity, w) then None
        else
          var r := Unpack(tape[2 * WORD..], w, len);
          if r.None? then None else Some((Growable(r.value.0, capacity), r.value.1))
  }

  function ReadAll(tape: seq<Byte>, shapes: seq<Shape>, ghost whole: Shape): Option<(seq<Value>, seq<Byte>)>
    requires forall i | 0 <= i < |shapes| :: shapes[i] < whole
    decreases whole, 0, |shapes|
  {
    if shapes == [] then Some(([], tape))
    else
      var first := Read(tape, shapes[0]);
      if first.None? then None
      else
        var more := ReadAll(first.value.1, shapes[1..], whole);
        if more.None? then None else Some(([first.value.0] + more.value.0, more.value.1))
  }

  lemma {:induction false} UnpackPacked(elems: seq<nat>, width: nat, rest: seq<Byte>)
    requires AllFit(elems, width)
    ensures Unpack(Packed(elems, width) + rest, width, |elems|) == Some((elems, rest))
  {
    hide ToLe, FromLe, Size;
    if elems == [] {
      assert Packed(elems, width) + rest == rest;
    } else {
      UnpackPacked(elems[1..], width, rest);
      FromToLe(elems[0], width);
      FirstPart(ToLe(elems[0], width), Packed(elems[1..], width), rest);
      assert elems == [elems[0]] + elems[1..];
    }
  }

  lemma FirstPart(a: seq<Byte>, b: seq<Byte>, c: seq<Byte>)
    ensures (a + b + c)[..|a|] == a && (a + b + c)[|a|..] == b + c
  {
  }

  lemma ThreeParts(a: seq<Byte>, b: seq<Byte>, c: seq<Byte>, d: seq<Byte>)
    ensures var t := a + b + c + d; t[..|a|] == a && t[|a|..|a| + |b|] == b && t[|a| + |b|..] == c + d
  {
  }

  /** Round trip: a nested value is read back unchanged and exactly its bytes are consumed. */
  lemma {:induction false} ReadWritten(v: Value, s: Shape, rest: seq<Byte>)
    requires HasShape(v, s)
    ensures Read(Write(v, s) + rest, s) == Some((v, rest))
    decreases s, 1, 0
  {
    hide ToLe, FromLe, Packed, Unpack, Allocatable;
    var tape := Write(v, s) + rest;
    match s
    case Scalar(w) =>
      FromToLe(v.v, w);
      assert tape[..w] == ToLe(v.v, w) && tape[w..] == rest;
    case Tuple(shapes) => ReadAllWritten(v.parts, shapes, s, rest);
    case Array(w, n) => UnpackPacked(v.elems, w, rest);
    case Vec(w) =>
      FromToLe(|v.elems|, WORD);
      FromToLe(v.capacity, WORD);
      ThreeParts(ToLe(|v.elems|, WORD), ToLe(v.capacity, WORD), Packed(v.elems, w), rest);
      UnpackPacked(v.elems, w, rest);
  }

  lemma {:induction false} ReadAllWritten(vs: seq<Value>, shapes: seq<Shape>, whole: Shape, rest: seq<Byte>)
    requires |vs| == |shapes| && forall i | 0 <= i < |shapes| :: HasShape(vs[i], shapes[i]) && shapes[i] < whole
    ensures ReadAll(WriteAll(vs, shapes, whole) + rest, shapes, whole) == Some((vs, rest))
    decreases whole, 0, |shapes|
  {
    hide Read, Write, HasShape;
    if shapes == [] {
      assert WriteAll(vs, shapes, whole) + rest == rest;
    } else {
      var more := WriteAll(vs[1..], shapes[1..], whole) + rest;
      assert WriteAll(vs, shapes, whole) + rest == Write(vs[0], shapes[0]) + more;
      ReadWritten(vs[0], shapes[0], more);
      ReadAllWritten(vs[1..], shapes[1..], whole, rest);
      assert vs == [vs[0]] + vs[1..];
    }
  }

  lemma FrontAndRest(a: seq<Byte>, n: nat)
    requires n <= |a|
    ensures a == a[..n] + a[n..]
  {
  }

  lemma {:induction false} PackedUnpack(tape: seq<Byte>, width: nat, n: nat)
    requires Unpack(tape, width, n).Some?
    ensures
      var (elems, rest) := Unpack(tape, width, n).value;
      |elems| == n && AllFit(elems, width) && tape == Packed(elems, width) + rest
  {
    hide ToLe, FromLe, Size;
    if n > 0 {
      PackedUnpack(tape[width..], width, n - 1);
      ToFromLe(tape[..width]);
      FrontAndRest(tape, width);
      var (elems, rest) := Unpack(tape, width, n).value;
      var more := Unpack(tape[width..], width, n - 1).value.0;
      assert elems[1..] == more;
      Concat3(tape[..width], Packed(more, width), rest);
    }
  }

  lemma Concat3(a: seq<Byte>, b: seq<Byte>, c: seq<Byte>)
    ensures a + (b + c) == a + b + c
  {
  }

  /** Only what writing a value puts on the tape is read as that value: nothing else passes. */
  lemma {:induction false} WrittenRead(tape: seq<Byte>, s: Shape)
    requires Read(tape, s).Some?
    ensures var (v, rest) := Read(tape, s).value; HasShape(v, s) && tape == Write(v, s) + rest
    decreases s, 1, 0
  {
    hide ToLe, FromLe, Packed, Unpack, Allocatable, Size;
    match s
    case Scalar(w) =>
      ToFromLe(tape[..w]);
      FrontAndRest(tape, w);
    case Tuple(shapes) => AllWrittenRead(tape, shapes, s);
    case Array(w, n) => PackedUnpack(tape, w, n);
    case Vec(w) =>
      var v, rest := Read(tape, s).value.0, Read(tape, s).value.1;
      ToFromLe(tape[..WORD]);
      ToFromLe(tape[WORD..2 * WORD]);
      PackedUnpack(tape[2 * WORD..], w, FromLe(tape[..WORD]));
      assert tape == tape[..WORD] + tape[WORD..2 * WORD] + tape[2 * WORD..];
      Concat3(tape[..WORD] + tape[WORD..2 * WORD], Packed(v.elems, w), rest);
  }

  lemma {:induction false} AllWrittenRead(tape: seq<Byte>, shapes: seq<Shape>, whole: Shape)
    requires (forall i | 0 <= i < |shapes| :: shapes[i] < whole) && ReadAll(tape, shapes, whole).Some?
    ensures
      var (vs, rest) := ReadAll(tape, shapes, whole).value;
      && |vs| == |shapes|
      && (forall i | 0 <= i < |shapes| :: HasShape(vs[i], shapes[i]))
      && tape == WriteAll(vs, shapes, whole) + rest
    decreases whole, 0, |shapes|
  {
    hide Read, Write, HasShape;
    if shapes != [] {
      WrittenRead(tape, shapes[0]);
      var (first, after) := Read(tape, shapes[0]).value;
      AllWrittenRead(after, shapes[1..], whole);
      var (more, rest) := ReadAll(after, shapes[1..], whole).value;
      assert ([first] + more)[1..] == more;
      Concat3(Write(first, shapes[0]), WriteAll(more, shapes[1..], whole), rest);
    }
  }

  /** What is read, exactly: a tape gives a value of the shape if and only if it begins with what writing it puts. */
  lemma ReadIff(tape: seq<Byte>, s: Shape, v: Value, rest: seq<Byte>)
    ensures Read(tape, s) == Some((v, rest)) <==> HasShape(v, s) && tape == Write(v, s) + rest
  {
    hide Read, Write, HasShape;
    if HasShape(v, s) && tape == Write(v, s) + rest {
      ReadWritten(v, s, rest);
    }
    if Read(tape, s) == Some((v, rest)) {
      WrittenRead(tape, s);
    }
  }

  /** A vector of one byte with room for three after a number of two bytes, as it lies on the tape. */
  lemma WrittenVector()
    ensures
      var s := Tuple([Scalar(2), Vec(1)]);
      var v := Parts([Num(0x0102), Growable([5], 3)]);
      && HasShape(v, s)
      && Write(v, s) == [2, 1] + [1, 0, 0, 0, 0, 0, 0, 0] + [3, 0, 0, 0, 0, 0, 0, 0] + [5]
  {
    var s := Tuple([Scalar(2), Vec(1)]);
    var v := Parts([Num(0x0102), Growable([5], 3)]);
    TwoBytes();
    SmallWord(1);
    SmallWord(3);
    OneByte(5);
    assert SizeOf(3, 1) == 3 by {
      assert SizeOf(1, 1) == 1 && SizeOf(2, 1) == 2;
    }
    hide ToLe, Size, SizeOf;
    assert Packed([5], 1) == [5] + Packed([], 1);
    assert HasShape(v.parts[0], s.parts[0]) && HasShape(v.parts[1], s.parts[1]);
    assert v.parts[1..] == [v.parts[1]] && s.parts[1..] == [s.parts[1]];
    assert WriteAll(v.parts[1..], s.parts[1..], s) == Write(v.parts[1], s.parts[1]) + WriteAll([], [], s);
  }

  /** The capacities that are read are the ones that an allocation may have. */
  lemma EmptyVector(capacity: nat)
    requires capacity < Size(WORD)
    ensures Read(ToLe(0, WORD) + ToLe(capacity, WORD), Vec(1)).Some? <==> capacity <= 0x7fff_ffff_ffff_ffff
  {
    var tape := ToLe(0, WORD) + ToLe(capacity, WORD);
    assert tape[..WORD] == ToLe(0, WORD) && tape[WORD..2 * WORD] == ToLe(capacity, WORD);
    FromToLe(0, WORD);
    FromToLe(capacity, WORD);
    SizeOfBytes(capacity);
    hide ToLe, FromLe, Size, SizeOf;
  }

  lemma {:induction false} SizeOfBytes(n: nat)
    ensures SizeOf(n, 1) == n
  {
    if n > 0 {
      SizeOfBytes(n - 1);
    }
  }

  lemma TwoBytes()
    ensures ToLe(0x0102, 2) == [2, 1] && 0x0102 < Size(2)
  {
    assert ToLe(1, 1) == [1] && ToLe(0, 0) == [] && Size(1) == 256;
  }

  lemma OneByte(b: Byte)
    ensures ToLe(b, 1) == [b] && b < Size(1)
  {
    assert ToLe(0, 0) == [];
  }

  lemma SmallWord(b: Byte)
    ensures ToLe(b, WORD) == [b, 0, 0, 0, 0, 0, 0, 0] && b < Size(WORD)
  {
    NoBytes(7);
    assert Size(8) == 256 * Size(7);
    assert [0, 0, 0, 0, 0, 0, 0] == seq(7, _ => 0);
  }

  lemma {:induction false} NoBytes(n: nat)
    ensures ToLe(0, n) == seq(n, _ => 0)
  {
    if n > 0 {
      NoBytes(n - 1);
    }
  }

  /** Reading elements takes exactly their bytes, and only these matter. */
  lemma {:induction false} UnpackBytes(tape: seq<Byte>, width: nat, n: nat)
    ensures
      var size := SizeOf(n, width);
      && (Unpack(tape, width, n).Some? <==> |tape| >= size)
      && (|tape| >= size ==>
            && Unpack(tape[..size], width, n).Some?
            && Unpack(tape, width, n) == Some((Unpack(tape[..size], width, n).value.0, tape[size..])))
  {
    hide FromLe;
    if n > 0 && |tape| >= width {
      UnpackBytes(tape[width..], width, n - 1);
      var size := SizeOf(n, width);
      if |tape| >= size {
        assert tape[..size][..width] == tape[..width] && tape[..size][width..] == tape[width..][..size - width];
        assert tape[width..][size - width..] == tape[size..];
      }
    }
  }

  /** A store of size bytes at an address. */
  datatype Access = Access(addr: nat, size: nat)

  /** Memory, the tape with its read position, and a log of the stores made. */
  class Guest {
    var mem: map<nat, Byte>
    var data: seq<Byte>
    var readPosition: nat
    ghost var stores: seq<Access>

    ghost predicate Valid()
      reads this
    {
      readPosition <= |data|
    }

    ghost function Remaining(): seq<Byte>
      requires Valid()
      reads this
    {
      data[readPosition..]
    }

    method AppendAdvice(bytes: seq<Byte>)
      requires Valid()
      modifies this`data
      ensures Valid() && Remaining() == old(Remaining()) + bytes
    {
      data := data + bytes;
    }

    /** An instruction that reads a few bytes as a number; past the end it fails. */
    method ReadAdvice(n: nat) returns (r: Option<nat>)
      requires Valid()
      modifies this`readPosition
      ensures Valid()
      ensures old(|Remaining()|) < n ==> r.None? && Remaining() == old(Remaining())
      ensures old(|Remaining()|) >= n ==> r == Some(FromLe(old(Remaining())[..n]))
      ensures old(|Remaining()|) >= n ==> Remaining() == old(Remaining())[n..]
    {
      if readPosition + n > |data| {
        return None;
      }
      assert data[readPosition..readPosition + n] == Remaining()[..n];
      r := Some(FromLe(data[readPosition..readPosition + n]));
      readPosition := readPosition + n;
    }

    method Store(addr: nat, size: nat, v: nat)
      modifies this`mem, this`stores
      ensures stores == old(stores) + [Access(addr, size)]
      ensures mem == Put(old(mem), addr, ToLe(v, size))
    {
      mem := Put(mem, addr, ToLe(v, size));
      stores := stores + [Access(addr, size)];
    }

    /** Moves size bytes from the tape to an address as one number. */
    method Move(addr: nat, size: nat) returns (ok: bool)
      requires Valid()
      modifies this`mem, this`stores, this`readPosition
      ensures Valid()
      ensures ok <==> old(|Remaining()|) >= size
      ensures ok ==> Remaining() == old(Remaining())[size..] && stores == old(stores) + [Access(addr, size)]
      ensures ok ==> mem == Put(old(mem), addr, old(Remaining())[..size])
      ensures !ok ==> stores == old(stores)
    {
      var v := ReadAdvice(size);
      if v.None? {
        return false;
      }
      ToFromLe(old(Remaining())[..size]);
      Store(addr, size, v.value);
      ok := true;
    }

    /** The stores made since are naturally aligned and inside the buffer. */
    ghost predicate Logged(buf: nat, len: nat, stores0: seq<Access>)
      reads this
    {
      |stores0| <= |stores| && stores0 == stores[..|stores0|]
          && forall i | |stores0| <= i < |stores| :: Natural(stores[i], buf, len)
    }

    /** The buffer is filled up to p with the front of the tape. */
    ghost predicate Filled(buf: nat, len: nat, p: nat, remaining: nat, mem0: map<nat, Byte>, tape: seq<Byte>,
        stores0: seq<Access>)
      requires Valid()
      reads this
    {
      && buf <= p && p + remaining == buf + len && p - buf <= |tape|
      && Remaining() == tape[p - buf..] && mem == Put(mem0, buf, tape[..p - buf])
      && Logged(buf, len, stores0)
    }

    method Chunk(ghost buf: nat, ghost len: nat, p: nat, ghost remaining: nat, n: nat,
                 ghost mem0: map<nat, Byte>, ghost tape: seq<Byte>, ghost stores0: seq<Access>) returns (ok: bool)
      requires Valid() && Filled(buf, len, p, remaining, mem0, tape, stores0)
      requires n <= remaining && Natural(Access(p, n), buf, len)
      modifies this`mem, this`stores, this`readPosition
      ensures Valid() && Logged(buf, len, stores0)
      ensures ok ==> Filled(buf, len, p + n, remaining - n, mem0, tape, stores0)
      ensures !ok ==> |tape| < len
    {
      ok := Move(p, n);
      if ok {
        ghost var done := p - buf;
        assert tape[done..][..n] == tape[done..done + n] && tape[..done] + tape[done..done + n] == tape[..done + n];
        PutConcat(mem0, buf, tape[..done], tape[done..done + n]);
      }
    }

    /** Stores up to the next multiple of eight, or to the end of the buffer. */
    method AlignFront(buf: nat, len: nat, ghost mem0: map<nat, Byte>, ghost tape: seq<Byte>, ghost stores0: seq<Access>)
      returns (ok: bool, p: nat, remaining: nat)
      requires Valid() && Filled(buf, len, buf, len, mem0, tape, stores0)
      modifies this`mem, this`stores, this`readPosition
      ensures Valid() && Logged(buf, len, stores0)
      ensures ok ==> Filled(buf, len, p, remaining, mem0, tape, stores0) && (remaining > 0 ==> p % 8 == 0)
      ensures !ok ==> |tape| < len
    {
      hide Gap, Logged, Step, Put, Filled;
      p, remaining := buf, len;
      FilledEnd(buf, len, p, remaining, mem0, tape, stores0);
      var toAlign: nat := if Gap(buf) <= remaining then Gap(buf) else remaining;
      ok := true;
      while toAlign > 0
        invariant Valid() && Filled(buf, len, p, remaining, mem0, tape, stores0)
        invariant toAlign <= remaining && toAlign <= Gap(p) && (toAlign == Gap(p) || toAlign == remaining)
        decreases toAlign
      {
        var n := Step(p, toAlign);
        AlignStep(p, toAlign);
        FilledEnd(buf, len, p, remaining, mem0, tape, stores0);
        ok := Chunk(buf, len, p, remaining, n, mem0, tape, stores0);
        if !ok {
          return;
        }
        p, remaining, toAlign := p + n, remaining - n, toAlign - n;
      }
      FilledEnd(buf, len, p, remaining, mem0, tape, stores0);
      if remaining > 0 {
        GapZero(p);
      }
    }

    /** Stores whole doublewords from an aligned address. */
    method Doublewords(buf: nat, len: nat, from: nat, left: nat, ghost mem0: map<nat, Byte>, ghost tape: seq<Byte>,
        ghost stores0: seq<Access>)
      returns (ok: bool, p: nat, remaining: nat)
      requires Valid() && Filled(buf, len, from, left, mem0, tape, stores0) && (left > 0 ==> from % 8 == 0)
      modifies this`mem, this`stores, this`readPosition
      ensures Valid() && Logged(buf, len, stores0)
      ensures ok ==> Filled(buf, len, p, remaining, mem0, tape, stores0)
      ensures ok ==> remaining < 8 && (remaining > 0 ==> p % 8 == 0)
      ensures !ok ==> |tape| < len
    {
      hide Logged, Put;
      p, remaining := from, left;
      ok := true;
      while remaining >= 8
        invariant Valid() && Filled(buf, len, p, remaining, mem0, tape, stores0)
        invariant remaining > 0 ==> p % 8 == 0
      {
        Aligned(p);
        ok := Chunk(buf, len, p, remaining, 8, mem0, tape, stores0);
        if !ok {
          return;
        }
        p, remaining := p + 8, remaining - 8;
      }
    }

    /** A store of n bytes if so many are left. */
    method StoreIfLeft(ghost buf: nat, ghost len: nat, from: nat, left: nat, n: nat,
        ghost mem0: map<nat, Byte>, ghost tape: seq<Byte>, ghost stores0: seq<Access>)
      returns (ok: bool, p: nat, remaining: nat)
      requires Valid() && Filled(buf, len, from, left, mem0, tape, stores0)
      requires left >= n ==> Natural(Access(from, n), buf, len)
      modifies this`mem, this`stores, this`readPosition
      ensures Valid() && Logged(buf, len, stores0)
      ensures (p, remaining) == if left >= n then (from + n, left - n) else (from, left)
      ensures ok ==> Filled(buf, len, p, remaining, mem0, tape, stores0)
      ensures !ok ==> |tape| < len
    {
      hide Put, Logged, Natural;
      ok, p, remaining := true, from, left;
      if left >= n {
        ok := Chunk(buf, len, from, left, n, mem0, tape, stores0);
        p, remaining := from + n, left - n;
      }
    }

    /** The last bytes, largest store first. */
    method Tail(buf: nat, len: nat, from: nat, left: nat, ghost mem0: map<nat, Byte>, ghost tape: seq<Byte>,
        ghost stores0: seq<Access>)
      returns (ok: bool)
      requires Valid() && Filled(buf, len, from, left, mem0, tape, stores0) && left < 8 && (left > 0 ==> from % 8 == 0)
      modifies this`mem, this`stores, this`readPosition
      ensures Valid() && Logged(buf, len, stores0)
      ensures ok ==> len <= |tape| && Remaining() == tape[len..] && mem == Put(mem0, buf, tape[..len])
      ensures !ok ==> |tape| < len
    {
      hide Put, Logged, Natural, Filled;
      FilledEnd(buf, len, from, left, mem0, tape, stores0);
      TailStores(from, left, buf, len);
      var p: nat, remaining: nat;
      ok, p, remaining := StoreIfLeft(buf, len, from, left, 4, mem0, tape, stores0);
      if !ok {
        return;
      }
      ok, p, remaining := StoreIfLeft(buf, len, p, remaining, 2, mem0, tape, stores0);
      if !ok {
        return;
      }
      ok, p, remaining := StoreIfLeft(buf, len, p, remaining, 1, mem0, tape, stores0);
      if !ok {
        return;
      }
      FilledEnd(buf, len, p, remaining, mem0, tape, stores0);
      FilledWhole(buf, len, mem0, tape, stores0);
    }

    lemma FilledEnd(buf: nat, len: nat, p: nat, remaining: nat, mem0: map<nat, Byte>, tape: seq<Byte>,
        stores0: seq<Access>)
      requires Valid() && Filled(buf, len, p, remaining, mem0, tape, stores0)
      ensures buf <= p && p + remaining == buf + len && Logged(buf, len, stores0)
    {
    }

    /** The bulk read: aligned stores of the largest size that fits, whatever the address and length. */
    method ReadSlice(buf: nat, len: nat) returns (ok: bool)
      requires Valid()
      modifies this`mem, this`stores, this`readPosition
      ensures Valid()
      ensures ok <==> old(|Remaining()|) >= len
      ensures ok ==> Remaining() == old(Remaining())[len..] && mem == Put(old(mem), buf, old(Remaining())[..len])
      ensures Logged(buf, len, old(stores))
    {
      ghost var mem0, tape, stores0 := mem, Remaining(), stores;
      var p: nat, remaining: nat;
      assert Filled(buf, len, buf, len, mem0, tape, stores0);
      hide Put, Logged;
      ok, p, remaining := AlignFront(buf, len, mem0, tape, stores0);
      if !ok {
        return;
      }
      ok, p, remaining := Doublewords(buf, len, p, remaining, mem0, tape, stores0);
      if !ok {
        return;
      }
      ok := Tail(buf, len, p, remaining, mem0, tape, stores0);
    }

    /** A bulk read into an uninitialised buffer, wherever it lies, and the bytes that are then in it. */
    method ReadBuffer(len: nat) returns (ok: bool, bytes: seq<Byte>)
      requires Valid()
      modifies this`mem, this`stores, this`readPosition
      ensures Valid()
      ensures ok <==> old(|Remaining()|) >= len
      ensures ok ==> bytes == old(Remaining())[..len] && Remaining() == old(Remaining())[len..]
    {
      var buf: nat := *;
      ok := ReadSlice(buf, len);
      hide Put, Slice;
      if ok {
        SliceOfPut(old(mem), buf, old(Remaining())[..len]);
      }
      bytes := Slice(mem, buf, len);
    }

    /** What a read gives: the value and the rest of the tape, or a failure. */
    ghost predicate Gives<T>(expected: Option<(T, seq<Byte>)>, r: Option<T>)
      reads this
    {
      Valid() && match expected
        case None => r.None?
        case Some(found) => r == Some(found.0) && Remaining() == found.1
    }

    /** Elements read in bulk. */
    method ReadElements(width: nat, n: nat) returns (r: Option<seq<nat>>)
      requires Valid()
      modifies this`mem, this`stores, this`readPosition
      ensures Gives(Unpack(old(Remaining()), width, n), r)
    {
      UnpackBytes(Remaining(), width, n);
      hide Unpack;
      var ok, bytes := ReadBuffer(SizeOf(n, width));
      if !ok {
        return None;
      }
      r := Some(Unpack(bytes, width, n).value.0);
    }

    /** Reads a value of a shape through the bulk read. */
    method ReadValue(s: Shape) returns (r: Option<Value>)
      requires Valid()
      modifies this`mem, this`stores, this`readPosition
      ensures Gives(Read(old(Remaining()), s), r)
      decreases s, 1, 0
    {
      hide FromLe, Unpack;
      match s
      case Scalar(w) =>
        var ok, bytes := ReadBuffer(w);
        r := if ok then Some(Num(FromLe(bytes))) else None;
      case Tuple(shapes) =>
        var vs := ReadValues(shapes, s);
        r := if vs.Some? then Some(Parts(vs.value)) else None;
      case Array(w, n) =>
        var elems := ReadElements(w, n);
        r := if elems.Some? then Some(Elements(elems.value)) else None;
      case Vec(w) =>
        r := ReadVector(w);
    }

    /** Length, capacity and then the elements; a capacity below the length or too large to allocate fails. */
    method ReadVector(w: nat) returns (r: Option<Value>)
      requires Valid()
      modifies this`mem, this`stores, this`readPosition
      ensures Gives(Read(old(Remaining()), Vec(w)), r)
    {
      hide FromLe, Unpack, Allocatable;
      ghost var tape := Remaining();
      var ok, bytes := ReadBuffer(WORD);
      if !ok {
        return None;
      }
      var len := FromLe(bytes);
      ok, bytes := ReadBuffer(WORD);
      if !ok {
        return None;
      }
      var capacity := FromLe(bytes);
      assert tape[WORD..][..WORD] == tape[WORD..2 * WORD] && tape[WORD..][WORD..] == tape[2 * WORD..];
      if capacity < len || !Allocatable(capacity, w) {
        return None;
      }
      var elems := ReadElements(w, len);
      r := if elems.Some? then Some(Growable(elems.value, capacity)) else None;
    }

    method ReadValues(shapes: seq<Shape>, ghost whole: Shape) returns (r: Option<seq<Value>>)
      requires Valid() && forall i | 0 <= i < |shapes| :: shapes[i] < whole
      modifies this`mem, this`stores, this`readPosition
      ensures Gives(ReadAll(old(Remaining()), shapes, whole), r)
      decreases whole, 0, |shapes|
    {
      hide Read;
      if shapes == [] {
        return Some([]);
      }
      var first := ReadValue(shapes[0]);
      if first.None? {
        return None;
      }
      var more := ReadValues(shapes[1..], whole);
      r := if more.Some? then Some([first.value] + more.value) else None;
    }

    /** Round trip through memory: a value written to an empty tape is read back and the tape is empty again. */
    method WriteThenRead(v: Value, s: Shape) returns (r: Option<Value>)
      requires Valid() && Remaining() == [] && HasShape(v, s)
      modifies this
      ensures Valid() && r == Some(v) && Remaining() == []
    {
      AppendAdvice(Write(v, s));
      ReadWritten(v, s, []);
      hide Read, Write, HasShape;
      assert Remaining() == Write(v, s) + [];
      r := ReadValue(s);
    }

    lemma FilledWhole(buf: nat, len: nat, mem0: map<nat, Byte>, tape: seq<Byte>, stores0: seq<Access>)
      requires Valid() && Filled(buf, len, buf + len, 0, mem0, tape, stores0)
      ensures len <= |tape| && Remaining() == tape[len..]
      ensures mem == Put(mem0, buf, tape[..len]) && Logged(buf, len, stores0)
    {
    }
  }

  /** The distance to the next multiple of eight. */
  function Gap(p: nat): nat {
    (8 - p % 8) % 8
  }

  /** The largest naturally aligned store within the distance. */
  function Step(p: nat, toAlign: nat): nat {
    if toAlign >= 4 && p % 4 == 0 then 4 else if toAlign >= 2 && p % 2 == 0 then 2 else 1
  }

  lemma SmallStep(r: nat, toAlign: nat)
    requires r < 8 && 0 < toAlign <= Gap(r)
    ensures var n := Step(r, toAlign); n <= toAlign && r % n == 0 && Gap(r + n) == Gap(r) - n
  {
    assert r == 1 || r == 2 || r == 3 || r == 4 || r == 5 || r == 6 || r == 7;
  }

  lemma Modulo(q: nat, r: nat)
    requires r < 8
    ensures (8 * q + r) % 8 == r && (8 * q + r) % 4 == r % 4 && (8 * q + r) % 2 == r % 2
  {
    DivUnique(8 * q + r, 8, q, r);
    DivUnique(8 * q + r, 4, 2 * q + r / 4, r % 4);
    DivUnique(8 * q + r, 2, 4 * q + r / 2, r % 2);
  }

  /** After an aligned store on the way to a boundary, the way is shorter by as much. */
  lemma AlignStep(p: nat, toAlign: nat)
    requires 0 < toAlign <= Gap(p)
    ensures
      var n := Step(p, toAlign);
      (n == 1 || n == 2 || n == 4) && n <= toAlign && p % n == 0 && Gap(p + n) == Gap(p) - n
  {
    var q, r := p / 8, p % 8;
    assert p == 8 * q + r;
    Modulo(q, r);
    SmallStep(r, toAlign);
    var n := Step(r, toAlign);
    assert Step(p, toAlign) == n && Gap(p) == Gap(r);
    assert p % n == r % n;
    GapAcross(q, r + n);
  }

  lemma GapAcross(q: nat, r: nat)
    requires r <= 8
    ensures Gap(8 * q + r) == Gap(r)
  {
    if r < 8 {
      Modulo(q, r);
    } else {
      Modulo(q + 1, 0);
    }
  }

  lemma Aligned(p: nat)
    requires p % 8 == 0
    ensures p % 4 == 0 && p % 2 == 0 && (p + 8) % 8 == 0 && (p + 4) % 2 == 0
  {
    var q := p / 8;
    assert p == 8 * q + 0;
    Modulo(q, 0);
    Modulo(q, 4);
    Modulo(q + 1, 0);
  }

  /** From an aligned address the last stores are naturally aligned, largest first. */
  lemma TailStores(p: nat, left: nat, buf: nat, len: nat)
    requires (left > 0 ==> p % 8 == 0) && left < 8 && buf <= p && p + left == buf + len
    ensures left >= 4 ==> Natural(Access(p, 4), buf, len)
    ensures
      var (p1, left1) := if left >= 4 then (p + 4, left - 4) else (p, left);
      && (left1 >= 2 ==> Natural(Access(p1, 2), buf, len))
      && var (p2, left2) := if left1 >= 2 then (p1 + 2, left1 - 2) else (p1, left1);
      left2 >= 1 ==> Natural(Access(p2, 1), buf, len)
  {
    if left > 0 {
      Aligned(p);
    }
  }

  lemma GapZero(p: nat)
    requires Gap(p) == 0
    ensures p % 8 == 0
  {
  }

  /** A naturally aligned store of a machine size inside the buffer. */
  predicate Natural(a: Access, buf: nat, len: nat) {
    (a.size == 1 || a.size == 2 || a.size == 4 || a.size == 8) && a.addr % a.size == 0 && buf <= a.addr
        && a.addr + a.size <= buf + len
  }
}
