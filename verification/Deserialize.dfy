/** deserializeData: decoding into an existing destination, as memory and as a value. */
module Deserialize {
  import opened LittleEndian
  import opened GoValues
  import opened GoMemory

  /** A Go slice whose capacity is its length. */
  type Data = d: seq<byte> | |d| < MAX_LEN witness []

  /** Where decoding got to, or how it failed. */
  datatype Status = At(index: nat) | Error | Panic

  /** The destination afterwards (partly written on a failure) and the outcome. */
  datatype Decoded = Decoded(dst: Value, status: Status)

  datatype DecodedSeq = DecodedSeq(dsts: seq<Value>, status: Status)

  /** int64 of an integer: wrap into the signed range. */
  function Int64(x: int): int {
    (x + MAX_LEN) % (2 * MAX_LEN) - MAX_LEN
  }

  /** Signed reading of an unsigned word of width w. */
  function Signed(x: nat, w: Width): int {
    if x < w.Half() then x else x - Pow2(w.Bits())
  }

  /** The bytes data[index:end] as slice elements. */
  function OfBytes(b: seq<byte>): (vs: seq<Value>)
    ensures |vs| == |b|
  {
    seq(|b|, i requires 0 <= i < |b| => VInt(b[i]))
  }

  /** The upper bound index+int(length) of a slice expression, in int arithmetic. */
  function SliceEnd(index: nat, length: nat): int {
    Int64(index + Int64(length))
  }

  /** A slice expression data[index:end] succeeds exactly when these bounds are ordered. */
  predicate InRange(data: Data, index: nat, end: int) {
    index <= end <= |data|
  }

  /** What deserializeData does at index with a destination of type t that holds d, when its pointers share nothing. */
  ghost function Dec(data: Data, t: Type, d: Value, index: nat): (r: Decoded)
    requires HasType(d, t) && index <= |data|
    ensures r.status.At? ==> index <= r.status.index <= |data|
    decreases Depth(t), 1, 0
  {
    match t
    case TBool =>
      if index + 1 > |data| then Decoded(d, Panic) else Decoded(VBool(data[index] == 1), At(index + 1))
    case TInt(w) =>
      var n := w.Bytes();
      if index + n > |data| then Decoded(d, Panic)
      else Decoded(VInt(Signed(Decode(data[index..index + n]), w)), At(index + n))
    case TUint(w) =>
      var n := w.Bytes();
      if index + n > |data| then Decoded(d, Panic)
      else Decoded(VInt(Decode(data[index..index + n])), At(index + n))
    case TSlice(e) =>
      if index + 8 > |data| then Decoded(d, Panic) else
      var end := SliceEnd(index + 8, Decode(data[index..index + 8]));
      if e != U8 || !InRange(data, index + 8, end) then Decoded(d, Panic)
      else Decoded(VSlice(OfBytes(data[index + 8..end])), At(end))
    case TArray(n, e) =>
      var r := DecSeq(data, Repeat(n, e), d.elems, index);
      Decoded(VArray(r.dsts), r.status)
    case TString =>
      if index + 8 > |data| then Decoded(d, Panic) else
      var end := SliceEnd(index + 8, Decode(data[index..index + 8]));
      if !InRange(data, index + 8, end) then Decoded(d, Panic)
      else Decoded(VString(data[index + 8..end]), At(end))
    case TPtr(e) =>
      if index + 1 > |data| then Decoded(d, Panic)
      else if data[index] == 0 then Decoded(VNil, At(index + 1))
      else if d.VNil? then Decoded(d, Error)
      else
        var r := Dec(data, e, d.target, index + 1);
        Decoded(VPtr(r.dst), r.status)
    case TStruct(fs) =>
      var r := DecSeq(data, fs, d.fields, index);
      Decoded(VStruct(r.dsts), r.status)
    case TOther => Decoded(d, Error)
  }

  /** Decode one destination after the other, stopping at the first failure. */
  ghost function DecSeq(data: Data, ts: seq<Type>, ds: seq<Value>, index: nat): (r: DecodedSeq)
    requires HaveTypes(ds, ts) && index <= |data|
    ensures r.status.At? ==> index <= r.status.index <= |data|
    decreases DepthSeq(ts), 2, |ts|
  {
    if ts == [] then DecodedSeq([], At(index)) else
    var first := Dec(data, ts[0], ds[0], index);
    match first.status
    case At(next) =>
      var rest := DecSeq(data, ts[1..], ds[1..], next);
      DecodedSeq([first.dst] + rest.dsts, rest.status)
    case failure => DecodedSeq([first.dst] + ds[1..], failure)
  }

  /** A length read from the wire is accepted exactly when that many bytes are left, however large it is. */
  lemma SliceEndExact(data: Data, index: nat, length: nat)
    requires index <= |data| && length < 2 * MAX_LEN
    ensures InRange(data, index, SliceEnd(index, length)) <==> index + length <= |data|
    ensures index + length <= |data| ==> SliceEnd(index, length) == index + length
  {}

  lemma SignedHasType(b: seq<byte>, w: Width)
    requires |b| == w.Bytes()
    ensures HasType(VInt(Signed(Decode(b), w)), TInt(w))
  {
    EncodeDecode(b);
    assert Pow2(w.Bits()) == 2 * w.Half();
  }

  /** Whatever happens, the destination keeps its type. */
  lemma {:induction false} DecKeepsType(data: Data, t: Type, d: Value, index: nat)
    requires HasType(d, t) && index <= |data|
    ensures HasType(Dec(data, t, d, index).dst, t)
    decreases Depth(t), 1, 0
  {
    hide Pow2;
    match t
    case TInt(w) =>
      if index + w.Bytes() <= |data| {
        SignedHasType(data[index..index + w.Bytes()], w);
      }
    case TUint(w) =>
      if index + w.Bytes() <= |data| {
        EncodeDecode(data[index..index + w.Bytes()]);
      }
    case TSlice(e) =>
      if index + 8 <= |data| {
        var end := SliceEnd(index + 8, Decode(data[index..index + 8]));
        if e == U8 && InRange(data, index + 8, end) {
          OfBytesHaveTypes(data[index + 8..end]);
        }
      }
    case TArray(n, e) => DecSeqKeepsTypes(data, Repeat(n, e), d.elems, index);
    case TPtr(e) =>
      if index < |data| && data[index] != 0 && d.VPtr? {
        DecKeepsType(data, e, d.target, index + 1);
      }
    case TStruct(fs) => DecSeqKeepsTypes(data, fs, d.fields, index);
    case _ =>
  }

  lemma {:induction false} DecSeqKeepsTypes(data: Data, ts: seq<Type>, ds: seq<Value>, index: nat)
    requires HaveTypes(ds, ts) && index <= |data|
    ensures HaveTypes(DecSeq(data, ts, ds, index).dsts, ts)
    decreases DepthSeq(ts), 2, |ts|
  {
    if ts != [] {
      DecKeepsType(data, ts[0], ds[0], index);
      var first := Dec(data, ts[0], ds[0], index);
      if first.status.At? {
        DecSeqKeepsTypes(data, ts[1..], ds[1..], first.status.index);
      }
    }
  }

  lemma {:induction false} OfBytesHaveTypes(b: seq<byte>)
    ensures HaveTypes(OfBytes(b), Repeat(|b|, U8))
  {
    hide HasType, Pow2;
    if b != [] {
      OfBytesHaveTypes(b[1..]);
      assert OfBytes(b)[1..] == OfBytes(b[1..]);
      U8Range(VInt(b[0]));
    }
  }

  // In memory

  /** Memory afterwards (partly written on a failure) and the outcome. */
  datatype Stored = Stored(mem: seq<Cell>, status: Status)

  /** What deserializeData does to a memory, with the destination of type t at a; pointers may share targets. */
  ghost function DecIn(data: Data, ht: seq<Type>, t: Type, m: seq<Cell>, a: nat, index: nat): (r: Stored)
    requires Typed(ht, m) && PlaceOf(ht, t, a) && index <= |data|
    ensures Typed(ht, r.mem) && (r.status.At? ==> index <= r.status.index <= |data|)
    decreases Depth(t), 1, 0
  {
    match t
    case TArray(n, e) => DecInSeq(data, ht, Repeat(n, e), m, a, index)
    case TStruct(fs) => DecInSeq(data, ht, fs, m, a, index)
    case TPtr(e) =>
      LeafCell(ht, m, t, a);
      if index + 1 > |data| then Stored(m, Panic)
      else if data[index] == 0 then TypedUpdate(ht, m, t, a, Nil); Stored(m[a := Nil], At(index + 1))
      else if m[a].Nil? then Stored(m, Error)
      else DecIn(data, ht, e, m, m[a].target, index + 1)
    case _ =>
      LeafCell(ht, m, t, a);
      var r := Dec(data, t, m[a].v, index);
      DecKeepsType(data, t, m[a].v, index);
      TypedUpdate(ht, m, t, a, Leaf(r.dst));
      Stored(m[a := Leaf(r.dst)], r.status)
  }

  /** The variables of types ts at a, one after the other, up to the first failure. */
  ghost function DecInSeq(data: Data, ht: seq<Type>, ts: seq<Type>, m: seq<Cell>, a: nat, index: nat): (r: Stored)
    requires Typed(ht, m) && PlacesOf(ht, ts, a) && index <= |data|
    ensures Typed(ht, r.mem) && (r.status.At? ==> index <= r.status.index <= |data|)
    decreases DepthSeq(ts), 2, |ts|
  {
    if ts == [] then Stored(m, At(index)) else
    PlacesSplit(ht, ts, a);
    var first := DecIn(data, ht, ts[0], m, a, index);
    if !first.status.At? then first else
    DecInSeq(data, ht, ts[1..], first.mem, a + |Flat(ts[0])|, first.status.index)
  }

  /** The unsigned little-endian word in the n bytes at index. */
  method LoadBytes(data: Data, index: nat, n: nat) returns (ok: bool, x: nat)
    requires index <= |data|
    ensures ok <==> index + n <= |data|
    ensures ok ==> x == Decode(data[index..index + n])
  {
    ok, x := index + n <= |data|, 0;
    if ok {
      x := Decode(data[index..index + n]);
    }
  }

  /** deserializeData, with its loops over array elements and struct fields. */
  method DeserializeAt(data: Data, ghost ht: seq<Type>, t: Type, mem: array<Cell>, a: nat, index: nat)
    returns (status: Status)
    requires Typed(ht, mem[..]) && PlaceOf(ht, t, a) && index <= |data|
    modifies mem
    ensures Stored(mem[..], status) == DecIn(data, ht, t, old(mem[..]), a, index)
    decreases Depth(t), 1
  {
    hide Typed, PlaceOf, PlacesOf, CellHasType, HasType, Decode, SliceEnd, Signed, OfBytes, Flat;
    Parts(ht, t, a);
    if IsLeaf(t) {
      LeafCell(ht, mem[..], t, a);
    }
    status := Panic;
    match t
    case TBool =>
      if index < |data| {
        mem[a] := Leaf(VBool(data[index] == 1));
        status := At(index + 1);
      }
    case TInt(w) =>
      var ok, x := LoadBytes(data, index, w.Bytes());
      if ok {
        mem[a] := Leaf(VInt(Signed(x, w)));
        status := At(index + w.Bytes());
      }
    case TUint(w) =>
      var ok, x := LoadBytes(data, index, w.Bytes());
      if ok {
        mem[a] := Leaf(VInt(x));
        status := At(index + w.Bytes());
      }
    case TSlice(e) =>
      var ok, length := LoadBytes(data, index, 8);
      if ok && e == U8 {
        var end := SliceEnd(index + 8, length);
        if InRange(data, index + 8, end) {
          mem[a] := Leaf(VSlice(OfBytes(data[index + 8..end])));
          status := At(end);
        }
      }
    case TArray(n, e) =>
      status := DeserializeEach(data, ht, Repeat(n, e), mem, a, index);
    case TString =>
      var ok, length := LoadBytes(data, index, 8);
      if ok {
        var end := SliceEnd(index + 8, length);
        if InRange(data, index + 8, end) {
          mem[a] := Leaf(VString(data[index + 8..end]));
          status := At(end);
        }
      }
    case TPtr(e) =>
      if index < |data| {
        if data[index] == 0 {
          mem[a] := Nil;
          status := At(index + 1);
        } else if mem[a].Nil? {
          status := Error;
        } else {
          status := DeserializeAt(data, ht, e, mem, mem[a].target, index + 1);
        }
      }
    case TStruct(fs) =>
      status := DeserializeEach(data, ht, fs, mem, a, index);
    case TOther =>
      status := Error;
  }

  lemma TypesFrom(ts: seq<Type>, i: nat)
    requires i < |ts|
    ensures Depth(ts[i]) <= DepthSeq(ts)
  {
    if i > 0 {
      TypesFrom(ts[1..], i - 1);
    }
  }

  /** The loop over array elements or struct fields: each is decoded in place and index moves on. */
  method DeserializeEach(data: Data, ghost ht: seq<Type>, ts: seq<Type>, mem: array<Cell>, a: nat, index: nat)
    returns (status: Status)
    requires Typed(ht, mem[..]) && PlacesOf(ht, ts, a) && index <= |data|
    modifies mem
    ensures Stored(mem[..], status) == DecInSeq(data, ht, ts, old(mem[..]), a, index)
    decreases DepthSeq(ts), 2
  {
    hide Typed, PlaceOf, PlacesOf, DecIn, Flat;
    var place: nat, at: nat := a, index;
    assert ts[0..] == ts;
    for i := 0 to |ts|
      invariant at <= |data| && Typed(ht, mem[..]) && PlacesOf(ht, ts[i..], place)
      invariant DecInSeq(data, ht, ts, old(mem[..]), a, index) == DecInSeq(data, ht, ts[i..], mem[..], place, at)
    {
      assert ts[i..][1..] == ts[i + 1..];
      PlacesSplit(ht, ts[i..], place);
      TypesFrom(ts, i);
      status := DeserializeAt(data, ht, ts[i], mem, place, at);
      if !status.At? {
        return status;
      }
      place, at := place + |Flat(ts[i])|, status.index;
    }
    status := At(at);
  }

  /** DeserializeData: decode all of data through a non-nil pointer to a; anything else panics. */
  method DeserializeData(data: Data, ghost ht: seq<Type>, t: Type, mem: array<Cell>, a: nat) returns (ok: bool)
    requires Typed(ht, mem[..]) && PlaceOf(ht, t, a)
    modifies mem
    ensures Typed(ht, mem[..])
    ensures mem[..] == DecIn(data, ht, t, old(mem[..]), a, 0).mem
    ensures ok <==> DecIn(data, ht, t, old(mem[..]), a, 0).status == At(|data|)
  {
    var status := DeserializeAt(data, ht, t, mem, a, 0);
    ok := status == At(|data|);
  }
}
