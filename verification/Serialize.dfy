/** serializeData. */
module Serialize {
  import opened LittleEndian
  import opened GoValues

  /** A byte slice, an error, or a panic. */
  datatype Coded = Bytes(b: seq<byte>) | Error | Panic {
    /** Put a before the bytes; a failure stays what it is. */
    function After(a: seq<byte>): Coded {
      if Bytes? then Bytes(a + b) else this
    }
  }

  /** uint64(x) and its narrower relatives: two's complement. */
  function TwosComplement(i: int, w: Width): (x: nat)
    ensures x < Pow2(w.Bits())
  {
    i % Pow2(w.Bits())
  }

  /** What serializeData returns. A slice or array of anything but uint8 panics, because the
      error message asks a non-pointer for its element. */
  ghost function Enc(t: Type, v: Value): Coded
    requires HasType(v, t)
    decreases Depth(t), 1, 0
  {
    match t
    case TBool => Bytes([if v.b then 1 else 0])
    case TInt(w) => Bytes(Encode(TwosComplement(v.i, w), w.Bytes()))
    case TUint(w) => Bytes(Encode(v.i, w.Bytes()))
    case TSlice(e) =>
      if e != U8 then Panic else
      EncSeq(Repeat(|v.elems|, e), v.elems).After(Encode(|v.elems|, 8))
    case TArray(n, e) => if e != U8 then Panic else EncSeq(Repeat(n, e), v.elems)
    case TString => Bytes(Encode(|v.bytes|, 8) + v.bytes)
    case TPtr(e) => if v.VNil? then Bytes([0]) else Enc(e, v.target).After([1])
    case TStruct(fs) => EncSeq(fs, v.fields)
    case TOther => Error
  }

  /** The encodings of vs one after the other, or the first failure. */
  ghost function EncSeq(ts: seq<Type>, vs: seq<Value>): Coded
    requires HaveTypes(vs, ts)
    decreases DepthSeq(ts), 2, |ts|
  {
    if ts == [] then Bytes([]) else
    match Enc(ts[0], vs[0])
    case Bytes(b) => EncSeq(ts[1..], vs[1..]).After(b)
    case failure => failure
  }

  /** One turn of an encoding loop that has produced acc so far. */
  lemma EncSeqStep(ts: seq<Type>, vs: seq<Value>, i: nat, acc: seq<byte>)
    requires HaveTypes(vs, ts) && i < |ts|
    ensures |vs| == |ts| && HasType(vs[i], ts[i]) && Depth(ts[i]) <= DepthSeq(ts)
    ensures HaveTypes(vs[i..], ts[i..]) && HaveTypes(vs[i + 1..], ts[i + 1..])
    ensures EncSeq(ts[i..], vs[i..]).After(acc) ==
      match Enc(ts[i], vs[i])
      case Bytes(b) => EncSeq(ts[i + 1..], vs[i + 1..]).After(acc + b)
      case failure => failure
  {
    TailTypes(vs, ts, i);
    TailTypes(vs, ts, i + 1);
    assert ts[i..][1..] == ts[i + 1..] && vs[i..][1..] == vs[i + 1..];
    var c := Enc(ts[i], vs[i]);
    if c.Bytes? {
      AfterAfter(EncSeq(ts[i + 1..], vs[i + 1..]), c.b, acc);
    }
  }

  /** serializeData, with its loops over slice elements, array elements and struct fields. */
  method SerializeData(t: Type, v: Value) returns (r: Coded)
    requires HasType(v, t)
    ensures r == Enc(t, v)
    decreases Depth(t)
  {
    hide Pow2, Encode, TwosComplement;
    match t
    case TBool =>
      r := if v.b then Bytes([1]) else Bytes([0]);
    case TInt(w) =>
      r := Bytes(Encode(TwosComplement(v.i, w), w.Bytes()));
    case TUint(w) =>
      r := Bytes(Encode(v.i, w.Bytes()));
    case TSlice(e) =>
      if e != U8 {
        return Panic;
      }
      var output := Encode(|v.elems|, 8);
      ghost var ts := Repeat(|v.elems|, e);
      for i := 0 to |v.elems|
        invariant |ts| == |v.elems| && HaveTypes(v.elems[i..], ts[i..])
        invariant Enc(t, v) == EncSeq(ts[i..], v.elems[i..]).After(output)
      {
        RepeatAt(|v.elems|, e, i);
        EncSeqStep(ts, v.elems, i, output);
        var d := SerializeData(e, v.elems[i]);
        if !d.Bytes? {
          return d;
        }
        output := output + d.b;
      }
      r := Bytes(output);
    case TArray(n, e) =>
      if e != U8 {
        return Panic;
      }
      var b: seq<byte> := [];
      ghost var ts := Repeat(n, e);
      TailTypes(v.elems, ts, 0);
      for i := 0 to |v.elems|
        invariant HaveTypes(v.elems[i..], ts[i..])
        invariant Enc(t, v) == EncSeq(ts[i..], v.elems[i..]).After(b)
      {
        RepeatAt(n, e, i);
        EncSeqStep(ts, v.elems, i, b);
        ByteOf(v.elems[i]);
        b := b + [v.elems[i].i];
      }
      r := Bytes(b);
    case TString =>
      r := Bytes(Encode(|v.bytes|, 8) + v.bytes);
    case TPtr(e) =>
      if v.VNil? {
        return Bytes([0]);
      }
      var d := SerializeData(e, v.target);
      r := if d.Bytes? then Bytes([1] + d.b) else d;
    case TStruct(fs) =>
      var data: seq<byte> := [];
      TailTypes(v.fields, fs, 0);
      for i := 0 to |fs|
        invariant HaveTypes(v.fields[i..], fs[i..])
        invariant Enc(t, v) == EncSeq(fs[i..], v.fields[i..]).After(data)
      {
        EncSeqStep(fs, v.fields, i, data);
        var d := SerializeData(fs[i], v.fields[i]);
        if !d.Bytes? {
          return d;
        }
        data := data + d.b;
      }
      r := Bytes(data);
    case TOther =>
      r := Error;
  }

  lemma AfterAfter(c: Coded, a: seq<byte>, b: seq<byte>)
    ensures c.After(a).After(b) == c.After(b + a)
  {
    if c.Bytes? {
      assert b + (a + c.b) == (b + a) + c.b;
    }
  }

  /** An uint8 is its own one-byte encoding. */
  lemma ByteOf(v: Value)
    requires HasType(v, U8)
    ensures 0 <= v.i < 256 && Enc(U8, v) == Bytes([v.i])
  {
    U8Range(v);
    assert Encode(v.i, 1) == [v.i % 256] + Encode(v.i / 256, 0);
  }
}
