/** The Go kinds and values that the codec walks over by reflection. */
module GoValues {
  import opened LittleEndian

  datatype Width = W8 | W16 | W32 | W64 {
    function Bytes(): (n: nat)
      ensures 1 <= n <= 8
    {
      match this case W8 => 1 case W16 => 2 case W32 => 4 case W64 => 8
    }

    function Bits(): nat {
      8 * Bytes()
    }

    /** The magnitude of the least signed integer of this width. */
    function Half(): int {
      Pow2(Bits() - 1)
    }
  }

  /** TOther stands for every kind neither function has a case for. */
  datatype Type =
    | TBool
    | TInt(w: Width)
    | TUint(w: Width)
    | TSlice(elem: Type)
    | TArray(len: nat, elem: Type)
    | TString
    | TPtr(elem: Type)
    | TStruct(fields: seq<Type>)
    | TOther

  datatype Value =
    | VBool(b: bool)
    | VInt(i: int)
    | VSlice(elems: seq<Value>)
    | VArray(elems: seq<Value>)
    | VString(bytes: seq<byte>)
    | VNil
    | VPtr(target: Value)
    | VStruct(fields: seq<Value>)
    | VOther

  const U8 := TUint(W8)
  const MAX_LEN := 0x8000_0000_0000_0000

  function Max(a: nat, b: nat): nat {
    if a < b then b else a
  }

  function Depth(t: Type): nat {
    match t
    case TSlice(e) => 1 + Depth(e)
    case TArray(_, e) => 1 + Depth(e)
    case TPtr(e) => 1 + Depth(e)
    case TStruct(fs) => 1 + DepthSeq(fs)
    case _ => 0
  }

  function DepthSeq(ts: seq<Type>): nat {
    if ts == [] then 0 else Max(Depth(ts[0]), DepthSeq(ts[1..]))
  }

  function Repeat(n: nat, e: Type): (ts: seq<Type>)
    ensures |ts| == n
    ensures DepthSeq(ts) <= Depth(e)
  {
    if n == 0 then [] else [e] + Repeat(n - 1, e)
  }

  ghost predicate HasType(v: Value, t: Type)
    decreases Depth(t), 1, 0
  {
    match t
    case TBool => v.VBool?
    case TInt(w) => v.VInt? && -w.Half() <= v.i < w.Half()
    case TUint(w) => v.VInt? && 0 <= v.i < Pow2(w.Bits())
    case TSlice(e) => v.VSlice? && |v.elems| < MAX_LEN && HaveTypes(v.elems, Repeat(|v.elems|, e))
    case TArray(n, e) => v.VArray? && HaveTypes(v.elems, Repeat(n, e))
    case TString => v.VString? && |v.bytes| < MAX_LEN
    case TPtr(e) => v.VNil? || (v.VPtr? && HasType(v.target, e))
    case TStruct(fs) => v.VStruct? && HaveTypes(v.fields, fs)
    case TOther => v.VOther?
  }

  ghost predicate HaveTypes(vs: seq<Value>, ts: seq<Type>)
    decreases DepthSeq(ts), 2, |ts|
  {
    if ts == [] then vs == []
    else vs != [] && HasType(vs[0], ts[0]) && HaveTypes(vs[1..], ts[1..])
  }

  lemma TailTypes(vs: seq<Value>, ts: seq<Type>, i: nat)
    requires HaveTypes(vs, ts) && i <= |ts|
    ensures |vs| == |ts| && HaveTypes(vs[i..], ts[i..])
    ensures i < |ts| ==> HasType(vs[i], ts[i]) && Depth(ts[i]) <= DepthSeq(ts) && DepthSeq(ts[i + 1..]) <= DepthSeq(ts)
  {
    if i > 0 {
      TailTypes(vs[1..], ts[1..], i - 1);
      assert vs[1..][i - 1..] == vs[i..] && ts[1..][i - 1..] == ts[i..];
      if i < |ts| {
        assert ts[1..][i..] == ts[i + 1..];
      }
    } else if ts != [] {
      TailTypes(vs[1..], ts[1..], 0);
    }
  }

  lemma RepeatAt(n: nat, e: Type, i: nat)
    requires i < n
    ensures Repeat(n, e)[i] == e
  {
    if i > 0 {
      RepeatAt(n - 1, e, i - 1);
    }
  }

  lemma U8Range(v: Value)
    ensures HasType(v, U8) <==> v.VInt? && 0 <= v.i < 256
  {
    Pow2Widths();
  }

  /** The zero value of a type. */
  function Zero(t: Type): Value
    decreases Depth(t), 1, 0
  {
    match t
    case TBool => VBool(false)
    case TInt(_) => VInt(0)
    case TUint(_) => VInt(0)
    case TSlice(_) => VSlice([])
    case TArray(n, e) => VArray(Zeros(Repeat(n, e)))
    case TString => VString([])
    case TPtr(_) => VNil
    case TStruct(fs) => VStruct(Zeros(fs))
    case TOther => VOther
  }

  function Zeros(ts: seq<Type>): seq<Value>
    decreases DepthSeq(ts), 2, |ts|
  {
    if ts == [] then [] else [Zero(ts[0])] + Zeros(ts[1..])
  }

  lemma {:induction false} ZeroHasType(t: Type)
    ensures HasType(Zero(t), t)
    decreases Depth(t), 1, 0
  {
    match t
    case TArray(n, e) => ZerosHaveTypes(Repeat(n, e));
    case TStruct(fs) => ZerosHaveTypes(fs);
    case _ =>
  }

  lemma {:induction false} ZerosHaveTypes(ts: seq<Type>)
    ensures HaveTypes(Zeros(ts), ts)
    decreases DepthSeq(ts), 2, |ts|
  {
    if ts != [] {
      ZeroHasType(ts[0]);
      ZerosHaveTypes(ts[1..]);
    }
  }

  /** False, zero, empty or nil throughout. */
  predicate IsZero(v: Value) {
    match v
    case VBool(b) => !b
    case VInt(i) => i == 0
    case VSlice(es) => es == []
    case VArray(es) => AreZero(es)
    case VString(b) => b == []
    case VNil => true
    case VPtr(_) => false
    case VStruct(fs) => AreZero(fs)
    case VOther => true
  }

  predicate AreZero(vs: seq<Value>) {
    vs == [] || (IsZero(vs[0]) && AreZero(vs[1..]))
  }

  lemma {:induction false} ZeroIsZero(t: Type)
    ensures IsZero(Zero(t))
    decreases Depth(t), 1, 0
  {
    match t
    case TArray(n, e) => ZerosAreZero(Repeat(n, e));
    case TStruct(fs) => ZerosAreZero(fs);
    case _ =>
  }

  lemma {:induction false} ZerosAreZero(ts: seq<Type>)
    ensures AreZero(Zeros(ts))
    decreases DepthSeq(ts), 2, |ts|
  {
    if ts != [] {
      ZeroIsZero(ts[0]);
      ZerosAreZero(ts[1..]);
    }
  }
}
