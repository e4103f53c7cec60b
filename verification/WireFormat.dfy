/** The wire format, said without the encoder and the decoder: which bytes stand for which value. */
module WireFormat {
  import opened LittleEndian
  import opened GoValues

  /** b holds the unsigned integer i of width w. */
  predicate UnsignedOnWire(w: Width, i: int, b: seq<byte>) {
    match w
    case W8 => |b| == 1 && i == Word8(b)
    case W16 => |b| == 2 && i == Word16(b)
    case W32 => |b| == 4 && i == Word32(b)
    case W64 => |b| == 8 && i == Word64(b)
  }

  /** b holds the signed integer i of width w, in two's complement: the last byte has the sign. */
  predicate SignedOnWire(w: Width, i: int, b: seq<byte>) {
    match w
    case W8 => |b| == 1 && i == Word8(b) - (if b[0] < 128 then 0 else 0x100)
    case W16 => |b| == 2 && i == Word16(b) - (if b[1] < 128 then 0 else 0x1_0000)
    case W32 => |b| == 4 && i == Word32(b) - (if b[3] < 128 then 0 else 0x1_0000_0000)
    case W64 => |b| == 8 && i == Word64(b) - (if b[7] < 128 then 0 else 0x1_0000_0000_0000_0000)
  }

  /** b is a length word and as many bytes. */
  predicate IsRun(b: seq<byte>) {
    |b| >= 8 && Word64(b[..8]) == |b| - 8
  }

  /** The reader takes more than the writer makes: any byte but 1 for false, any byte but 0 before a pointer's target,
      and arrays of any element. */
  datatype Side = Writer | Reader

  /** The bytes b stand for the value v of type t. */
  ghost predicate Wire(side: Side, t: Type, v: Value, b: seq<byte>)
    decreases Depth(t), 1, 0
  {
    match t
    case TBool => v.VBool? && |b| == 1 && (v.b <==> b[0] == 1) && (side.Writer? ==> b[0] <= 1)
    case TInt(w) => v.VInt? && SignedOnWire(w, v.i, b)
    case TUint(w) => v.VInt? && UnsignedOnWire(w, v.i, b)
    case TSlice(e) => e == TUint(W8) && v.VSlice? && IsRun(b) && AreBytes(v.elems, b[8..])
    case TArray(n, e) => v.VArray? && (side.Writer? ==> e == TUint(W8)) && WireSeq(side, Repeat(n, e), v.elems, b)
    case TString => v.VString? && IsRun(b) && v.bytes == b[8..]
    case TPtr(e) =>
      || (v.VNil? && b == [0])
      || (v.VPtr? && b != [] && b[0] != 0 && (side.Writer? ==> b[0] == 1) && Wire(side, e, v.target, b[1..]))
    case TStruct(fs) => v.VStruct? && WireSeq(side, fs, v.fields, b)
    case TOther => false
  }

  /** They stand for the values vs one after the other. */
  ghost predicate WireSeq(side: Side, ts: seq<Type>, vs: seq<Value>, b: seq<byte>)
    decreases DepthSeq(ts), 2, |ts|
  {
    if ts == [] then vs == [] && b == [] else
    vs != [] && exists k :: 0 <= k <= |b| && Wire(side, ts[0], vs[0], b[..k]) && WireSeq(side, ts[1..], vs[1..], b[k..])
  }

  predicate AreBytes(vs: seq<Value>, b: seq<byte>) {
    |vs| == |b| && forall i :: 0 <= i < |b| ==> vs[i] == VInt(b[i])
  }

  /** The ranges of the integer kinds. */
  lemma IntegerRanges(i: int)
    ensures HasType(VInt(i), TInt(W8)) <==> -0x80 <= i < 0x80
    ensures HasType(VInt(i), TInt(W16)) <==> -0x8000 <= i < 0x8000
    ensures HasType(VInt(i), TInt(W32)) <==> -0x8000_0000 <= i < 0x8000_0000
    ensures HasType(VInt(i), TInt(W64)) <==> -0x8000_0000_0000_0000 <= i < 0x8000_0000_0000_0000
    ensures HasType(VInt(i), TUint(W8)) <==> 0 <= i < 0x100
    ensures HasType(VInt(i), TUint(W16)) <==> 0 <= i < 0x1_0000
    ensures HasType(VInt(i), TUint(W32)) <==> 0 <= i < 0x1_0000_0000
    ensures HasType(VInt(i), TUint(W64)) <==> 0 <= i < 0x1_0000_0000_0000_0000
  {
    hide Pow2;
    Pow2Widths();
  }

  /** What the writer makes the reader takes, for the same value. */
  lemma {:induction false} ReaderTakes(t: Type, v: Value, b: seq<byte>)
    requires Wire(Writer, t, v, b)
    ensures Wire(Reader, t, v, b)
    decreases Depth(t), 1, 0
  {
    match t
    case TArray(n, e) => ReaderTakesSeq(Repeat(n, e), v.elems, b);
    case TStruct(fs) => ReaderTakesSeq(fs, v.fields, b);
    case TPtr(e) =>
      if v.VPtr? {
        ReaderTakes(e, v.target, b[1..]);
      }
    case _ =>
  }

  lemma {:induction false} ReaderTakesSeq(ts: seq<Type>, vs: seq<Value>, b: seq<byte>)
    requires WireSeq(Writer, ts, vs, b)
    ensures WireSeq(Reader, ts, vs, b)
    decreases DepthSeq(ts), 2, |ts|
  {
    hide Wire;
    if ts != [] {
      var k := Split(Writer, ts, vs, b);
      ReaderTakes(ts[0], vs[0], b[..k]);
      ReaderTakesSeq(ts[1..], vs[1..], b[k..]);
    }
  }

  /** Where the first value ends. */
  lemma Split(side: Side, ts: seq<Type>, vs: seq<Value>, b: seq<byte>) returns (k: nat)
    requires WireSeq(side, ts, vs, b) && ts != []
    ensures vs != [] && k <= |b|
    ensures Wire(side, ts[0], vs[0], b[..k]) && WireSeq(side, ts[1..], vs[1..], b[k..])
    ensures b == b[..k] + b[k..]
  {
    hide Wire;
    k :| 0 <= k <= |b| && Wire(side, ts[0], vs[0], b[..k]) && WireSeq(side, ts[1..], vs[1..], b[k..]);
  }

  lemma Joined(side: Side, ts: seq<Type>, vs: seq<Value>, x: seq<byte>, y: seq<byte>)
    requires ts != [] && vs != [] && Wire(side, ts[0], vs[0], x) && WireSeq(side, ts[1..], vs[1..], y)
    ensures WireSeq(side, ts, vs, x + y)
  {
    hide Wire;
    assert (x + y)[..|x|] == x && (x + y)[|x|..] == y;
  }
}
