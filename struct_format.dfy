/**
 * The part of Python's `struct` module the health-check packets use: a
 * little-endian format of unsigned integers (`B`, `H`, `I`, `Q`), signed
 * 32-bit integers (`i`) and fixed-width byte strings (`Ns`), with no
 * alignment padding.
 */
module StructFormat {
  import opened Bytes

  /** One format code. */
  datatype Code = Unsigned(width: nat) | Signed32 | Chars(width: nat)

  /** One packed or unpacked value. */
  datatype Value = UInt(n: int) | SInt(i: int) | Str(bs: seq<byte>)

  function Width(c: Code): nat {
    match c
    case Unsigned(w) => w
    case Signed32 => 4
    case Chars(w) => w
  }

  /** What `pack` accepts for a code: an integer of the right range, or any byte string. */
  predicate Matches(c: Code, v: Value) {
    match c
    case Unsigned(w) => v.UInt? && 0 <= v.n < Pow256(w)
    case Signed32 => v.SInt? && -0x8000_0000 <= v.i < 0x8000_0000
    case Chars(_) => v.Str?
  }

  lemma FourBytes()
    ensures Pow256(4) == 0x1_0000_0000
  {}

  function PackOne(c: Code, v: Value): (bs: seq<byte>)
    requires Matches(c, v)
    ensures |bs| == Width(c)
  {
    match c
    case Unsigned(w) => LittleEndian(v.n, w)
    case Signed32 => FourBytes(); LittleEndian(I32ToU32(v.i), 4)
    case Chars(w) => PadTruncate(v.bs, w)
  }

  function UnpackOne(c: Code, bs: seq<byte>): (v: Value)
    requires |bs| == Width(c)
    ensures Matches(c, v)
  {
    match c
    case Unsigned(_) => UInt(FromLittleEndian(bs))
    case Signed32 => FourBytes(); SInt(U32ToI32(FromLittleEndian(bs)))
    case Chars(_) => Str(bs)
  }

  /** What a value reads back as: byte strings come back padded or truncated to their width. */
  function Normal(c: Code, v: Value): Value {
    match c
    case Chars(w) => if v.Str? then Str(PadTruncate(v.bs, w)) else v
    case _ => v
  }

  lemma UnpackPackOne(c: Code, v: Value)
    requires Matches(c, v)
    ensures UnpackOne(c, PackOne(c, v)) == Normal(c, v)
  {
    match c
    case Unsigned(w) => FromLittleEndianOfLittleEndian(v.n, w);
    case Signed32 =>
      FourBytes();
      FromLittleEndianOfLittleEndian(I32ToU32(v.i), 4);
      I32RoundTrip(v.i);
    case Chars(_) =>
  }

  lemma PackUnpackOne(c: Code, bs: seq<byte>)
    requires |bs| == Width(c)
    ensures PackOne(c, UnpackOne(c, bs)) == bs
  {
    match c
    case Unsigned(w) => LittleEndianOfFromLittleEndian(bs);
    case Signed32 =>
      FourBytes();
      var raw := FromLittleEndian(bs);
      assert I32ToU32(U32ToI32(raw)) == raw;
      LittleEndianOfFromLittleEndian(bs);
    case Chars(_) =>
  }

  /** `struct.calcsize`. */
  function Size(fmt: seq<Code>): nat {
    if fmt == [] then 0 else Width(fmt[0]) + Size(fmt[1..])
  }

  predicate AllMatch(fmt: seq<Code>, vals: seq<Value>) {
    |vals| == |fmt| && forall i :: 0 <= i < |fmt| ==> Matches(fmt[i], vals[i])
  }

  /** A format made of two parts is as long as both together. */
  lemma {:induction false} SizeConcat(a: seq<Code>, b: seq<Code>)
    ensures Size(a + b) == Size(a) + Size(b)
  {
    if a == [] {
      assert a + b == b;
    } else {
      assert (a + b)[0] == a[0] && (a + b)[1..] == a[1..] + b;
      SizeConcat(a[1..], b);
    }
  }

  /** Values match a format made of two parts exactly when each part's values match that part. */
  lemma AllMatchConcat(a: seq<Code>, b: seq<Code>, u: seq<Value>, v: seq<Value>)
    requires |u| == |a| && |v| == |b|
    ensures AllMatch(a + b, u + v) <==> AllMatch(a, u) && AllMatch(b, v)
  {
    if AllMatch(a + b, u + v) {
      forall i | 0 <= i < |a|
        ensures Matches(a[i], u[i])
      {
        assert Matches((a + b)[i], (u + v)[i]);
      }
      forall i | 0 <= i < |b|
        ensures Matches(b[i], v[i])
      {
        assert Matches((a + b)[|a| + i], (u + v)[|a| + i]);
      }
    }
    if AllMatch(a, u) && AllMatch(b, v) {
      forall i | 0 <= i < |a + b|
        ensures Matches((a + b)[i], (u + v)[i])
      {
        if i < |a| {
          assert Matches(a[i], u[i]);
        } else {
          assert Matches(b[i - |a|], v[i - |a|]);
        }
      }
    }
  }

  /** `struct.pack`. */
  function Pack(fmt: seq<Code>, vals: seq<Value>): (bs: seq<byte>)
    requires AllMatch(fmt, vals)
    ensures |bs| == Size(fmt)
  {
    if fmt == [] then [] else PackOne(fmt[0], vals[0]) + Pack(fmt[1..], vals[1..])
  }

  /** `struct.unpack` of the first `Size(fmt)` bytes. */
  function Unpack(fmt: seq<Code>, bs: seq<byte>): (vals: seq<Value>)
    requires |bs| >= Size(fmt)
    ensures AllMatch(fmt, vals)
  {
    if fmt == [] then []
    else
      var w := Width(fmt[0]);
      [UnpackOne(fmt[0], bs[..w])] + Unpack(fmt[1..], bs[w..])
  }

  function NormalAll(fmt: seq<Code>, vals: seq<Value>): (r: seq<Value>)
    requires |vals| == |fmt|
    ensures |r| == |fmt| && forall i :: 0 <= i < |fmt| ==> r[i] == Normal(fmt[i], vals[i])
  {
    seq(|fmt|, i requires 0 <= i < |fmt| => Normal(fmt[i], vals[i]))
  }

  lemma AllMatchTail(fmt: seq<Code>, vals: seq<Value>)
    requires fmt != [] && AllMatch(fmt, vals)
    ensures AllMatch(fmt[1..], vals[1..])
  {
    forall i | 0 <= i < |fmt| - 1
      ensures Matches(fmt[1..][i], vals[1..][i])
    {
      assert Matches(fmt[i + 1], vals[i + 1]);
    }
  }

  lemma SplitConcat(a: seq<byte>, b: seq<byte>)
    ensures (a + b)[..|a|] == a && (a + b)[|a|..] == b
  {}

  lemma NormalAllCons(fmt: seq<Code>, vals: seq<Value>)
    requires fmt != [] && |vals| == |fmt|
    ensures NormalAll(fmt, vals) == [Normal(fmt[0], vals[0])] + NormalAll(fmt[1..], vals[1..])
  {}

  /** Unpacking packed values, whatever follows them, gives the values back with byte strings at their widths. */
  lemma {:induction false} UnpackPack(fmt: seq<Code>, vals: seq<Value>, rest: seq<byte>)
    requires AllMatch(fmt, vals)
    ensures Unpack(fmt, Pack(fmt, vals) + rest) == NormalAll(fmt, vals)
  {
    if fmt != [] {
      var w := Width(fmt[0]);
      var head := PackOne(fmt[0], vals[0]);
      var tail := Pack(fmt[1..], vals[1..]);
      var bs := Pack(fmt, vals) + rest;
      assert bs == head + (tail + rest);
      SplitConcat(head, tail + rest);
      UnpackPackOne(fmt[0], vals[0]);
      AllMatchTail(fmt, vals);
      UnpackPack(fmt[1..], vals[1..], rest);
      NormalAllCons(fmt, vals);
    }
  }

  /** Packing unpacked values gives back the bytes they were read from. */
  lemma {:induction false} PackUnpack(fmt: seq<Code>, bs: seq<byte>)
    requires |bs| >= Size(fmt)
    ensures Pack(fmt, Unpack(fmt, bs)) == bs[..Size(fmt)]
  {
    if fmt != [] {
      var w := Width(fmt[0]);
      var vals := Unpack(fmt, bs);
      PackUnpackOne(fmt[0], bs[..w]);
      PackUnpack(fmt[1..], bs[w..]);
      assert vals[1..] == Unpack(fmt[1..], bs[w..]);
      assert bs[..Size(fmt)] == bs[..w] + bs[w..][..Size(fmt[1..])];
    }
  }

  /**
   * `struct.pack_into(fmt, buffer, offset, *vals)`: the packed bytes
   * overwrite the buffer from `offset`; the rest of the buffer is kept.
   * Python raises `struct.error` when the buffer is too short.
   */
  function PackInto(buffer: seq<byte>, offset: nat, fmt: seq<Code>, vals: seq<Value>): (r: seq<byte>)
    requires AllMatch(fmt, vals) && offset + Size(fmt) <= |buffer|
    ensures |r| == |buffer| && r[..offset] == buffer[..offset] && r[offset + Size(fmt)..] == buffer[offset + Size(fmt)..]
    ensures r[offset..offset + Size(fmt)] == Pack(fmt, vals)
  {
    var r := buffer[..offset] + Pack(fmt, vals) + buffer[offset + Size(fmt)..];
    assert r[offset..offset + Size(fmt)] == Pack(fmt, vals);
    r
  }

  /** `struct.unpack_from(fmt, buffer, offset)`; Python raises `struct.error` when the buffer is too short. */
  function UnpackFrom(buffer: seq<byte>, offset: nat, fmt: seq<Code>): (vals: seq<Value>)
    requires offset + Size(fmt) <= |buffer|
    ensures AllMatch(fmt, vals)
  {
    Unpack(fmt, buffer[offset..])
  }

  /** What `pack_into` wrote, `unpack_from` at the same offset reads back. */
  lemma UnpackFromPackInto(buffer: seq<byte>, offset: nat, fmt: seq<Code>, vals: seq<Value>)
    requires AllMatch(fmt, vals) && offset + Size(fmt) <= |buffer|
    ensures UnpackFrom(PackInto(buffer, offset, fmt, vals), offset, fmt) == NormalAll(fmt, vals)
  {
    var r := PackInto(buffer, offset, fmt, vals);
    assert r[offset..] == Pack(fmt, vals) + r[offset + Size(fmt)..];
    UnpackPack(fmt, vals, r[offset + Size(fmt)..]);
  }
}
