/** The encoder and the decoder against the wire format. */
module WireLaws {
  import opened LittleEndian
  import opened GoValues
  import opened WireFormat
  import opened Serialize
  import D = Deserialize

  type Data = D.Data

  // Words

  lemma ModOfSigned(i: int, p: int)
    requires 0 < p && -p <= i < p
    ensures i % p == if i >= 0 then i else i + p
  {}

  /** Sign extension undoes two's complement. */
  lemma SignedTwos(i: int, w: Width)
    requires HasType(VInt(i), TInt(w))
    ensures D.Signed(TwosComplement(i, w), w) == i
  {
    var p := Pow2(w.Bits());
    assert p == 2 * w.Half();
    hide Pow2;
    ModOfSigned(i, p);
  }

  /** Two's complement undoes sign extension. */
  lemma TwosSigned(x: nat, w: Width)
    requires x < Pow2(w.Bits())
    ensures TwosComplement(D.Signed(x, w), w) == x
  {
    var p := Pow2(w.Bits());
    assert p == 2 * w.Half();
    hide Pow2;
    ModOfSigned(D.Signed(x, w), p);
  }

  lemma UnsignedIsDecode(w: Width, i: int, b: seq<byte>)
    ensures UnsignedOnWire(w, i, b) <==> |b| == w.Bytes() && i == Decode(b)
  {
    hide Decode;
    DecodeShort(b);
    if |b| == 8 {
      DecodeLong(b);
    }
  }

  lemma SignedIsDecode(w: Width, i: int, b: seq<byte>)
    ensures SignedOnWire(w, i, b) <==> |b| == w.Bytes() && i == D.Signed(Decode(b), w)
  {
    hide Decode, Pow2;
    Pow2Widths();
    DecodeShort(b);
    if |b| == 8 {
      DecodeLong(b);
    }
  }

  // The encoder

  lemma UnsignedEncodes(w: Width, i: int, b: seq<byte>)
    requires HasType(VInt(i), TUint(w))
    ensures Encode(i, w.Bytes()) == b <==> UnsignedOnWire(w, i, b)
  {
    hide Encode, Decode, Pow2, UnsignedOnWire;
    UnsignedIsDecode(w, i, b);
    DecodeEncode(i, w.Bytes());
    EncodeDecode(b);
  }

  lemma SignedEncodes(w: Width, i: int, b: seq<byte>)
    requires HasType(VInt(i), TInt(w))
    ensures Encode(TwosComplement(i, w), w.Bytes()) == b <==> SignedOnWire(w, i, b)
  {
    hide Encode, Decode, Pow2, SignedOnWire, D.Signed, TwosComplement;
    SignedIsDecode(w, i, b);
    SignedTwos(i, w);
    DecodeEncode(TwosComplement(i, w), w.Bytes());
    EncodeDecode(b);
    if |b| == w.Bytes() {
      TwosSigned(Decode(b), w);
    }
  }

  /** A run is its length word and its bytes. */
  lemma RunEncodes(x: seq<byte>, b: seq<byte>)
    requires |x| < MAX_LEN
    ensures Encode(|x|, 8) + x == b <==> IsRun(b) && b[8..] == x
  {
    hide Encode, Decode, Pow2, Word64;
    Pow2Widths();
    DecodeEncode(|x|, 8);
    DecodeLong(Encode(|x|, 8));
    if |b| >= 8 {
      DecodeLong(b[..8]);
      EncodeDecode(b[..8]);
      assert b == b[..8] + b[8..];
    }
  }

  /** The encodings of uint8 values are the bytes. */
  lemma {:induction false} BytesEncode(vs: seq<Value>, n: nat, b: seq<byte>)
    requires HaveTypes(vs, Repeat(n, U8))
    ensures |vs| == n && EncSeq(Repeat(n, U8), vs).Bytes? && |EncSeq(Repeat(n, U8), vs).b| == n
    ensures EncSeq(Repeat(n, U8), vs) == Bytes(b) <==> AreBytes(vs, b)
  {
    hide HasType, Enc;
    if n > 0 {
      ByteOf(vs[0]);
      U8Range(vs[0]);
      BytesEncode(vs[1..], n - 1, if b == [] then [] else b[1..]);
      assert EncSeq(Repeat(n, U8), vs).b == [vs[0].i] + EncSeq(Repeat(n - 1, U8), vs[1..]).b;
      if b != [] {
        assert b == [b[0]] + b[1..];
        assert AreBytes(vs, b) <==> vs[0] == VInt(b[0]) && AreBytes(vs[1..], b[1..]);
      }
    }
  }

  /** The encoder makes exactly the bytes that stand for the value on the writer's side, and fails where there are
      none. */
  lemma {:induction false} EncOnWire(t: Type, v: Value, b: seq<byte>)
    requires HasType(v, t)
    ensures Enc(t, v) == Bytes(b) <==> Wire(Writer, t, v, b)
    decreases Depth(t), 1, 0
  {
    match t
    case TArray(n, e) => EncSeqOnWire(Repeat(n, e), v.elems, b);
    case TStruct(fs) => EncSeqOnWire(fs, v.fields, b);
    case TPtr(e) => EncPtrOnWire(t, v, b);
    case TSlice(e) => EncRunOnWire(t, v, b);
    case TString => EncRunOnWire(t, v, b);
    case TInt(w) => SignedEncodes(w, v.i, b);
    case TUint(w) => UnsignedEncodes(w, v.i, b);
    case TBool =>
      assert |b| == 1 ==> b == [b[0]];
    case TOther =>
  }

  lemma EncRunOnWire(t: Type, v: Value, b: seq<byte>)
    requires (t.TSlice? || t.TString?) && HasType(v, t)
    ensures Enc(t, v) == Bytes(b) <==> Wire(Writer, t, v, b)
  {
    hide Encode, Decode, Pow2, IsRun;
    if t.TString? {
      RunEncodes(v.bytes, b);
    } else if t.elem == U8 {
      var n := |v.elems|;
      BytesEncode(v.elems, n, []);
      BytesEncode(v.elems, n, EncSeq(Repeat(n, U8), v.elems).b);
      RunEncodes(EncSeq(Repeat(n, U8), v.elems).b, b);
      if IsRun(b) {
        RunIsLong(b);
        BytesEncode(v.elems, n, b[8..]);
      }
    }
  }

  lemma RunIsLong(b: seq<byte>)
    requires IsRun(b)
    ensures |b| >= 8
  {}

  lemma {:induction false} EncPtrOnWire(t: Type, v: Value, b: seq<byte>)
    requires t.TPtr? && HasType(v, t)
    ensures Enc(t, v) == Bytes(b) <==> Wire(Writer, t, v, b)
    decreases Depth(t), 0, 0
  {
    if v.VPtr? && b != [] {
      EncOnWire(t.elem, v.target, b[1..]);
      assert b == [b[0]] + b[1..];
      var c := Enc(t.elem, v.target);
      if c.Bytes? {
        assert ([1] + c.b)[1..] == c.b;
      }
    }
  }

  lemma {:induction false} EncSeqOnWire(ts: seq<Type>, vs: seq<Value>, b: seq<byte>)
    requires HaveTypes(vs, ts)
    ensures EncSeq(ts, vs) == Bytes(b) <==> WireSeq(Writer, ts, vs, b)
    decreases DepthSeq(ts), 2, |ts|
  {
    hide HasType, Enc, Wire;
    if ts != [] {
      if EncSeq(ts, vs) == Bytes(b) {
        var x, y := Enc(ts[0], vs[0]).b, EncSeq(ts[1..], vs[1..]).b;
        EncOnWire(ts[0], vs[0], x);
        EncSeqOnWire(ts[1..], vs[1..], y);
        Joined(Writer, ts, vs, x, y);
      }
      if WireSeq(Writer, ts, vs, b) {
        var k := Split(Writer, ts, vs, b);
        EncOnWire(ts[0], vs[0], b[..k]);
        EncSeqOnWire(ts[1..], vs[1..], b[k..]);
      }
    }
  }

  // The decoder

  /** The destination d has a non-nil pointer wherever v has one. */
  predicate Covers(v: Value, d: Value) {
    match v
    case VPtr(x) => d.VPtr? && Covers(x, d.target)
    case VArray(es) => d.VArray? && CoversSeq(es, d.elems)
    case VStruct(fs) => d.VStruct? && CoversSeq(fs, d.fields)
    case _ => true
  }

  predicate CoversSeq(vs: seq<Value>, ds: seq<Value>) {
    vs == [] || (ds != [] && Covers(vs[0], ds[0]) && CoversSeq(vs[1..], ds[1..]))
  }

  /** The bytes b stand at index in data. */
  predicate StandsAt(b: seq<byte>, data: seq<byte>, index: nat) {
    index + |b| <= |data| && data[index..index + |b|] == b
  }

  lemma StandsSplit(a: seq<byte>, b: seq<byte>, data: seq<byte>, index: nat)
    requires StandsAt(a + b, data, index)
    ensures StandsAt(a, data, index) && StandsAt(b, data, index + |a|)
  {
    assert data[index..index + |a|] == (a + b)[..|a|] == a;
    assert data[index + |a|..index + |a| + |b|] == (a + b)[|a|..] == b;
  }

  /** Decoding at index gives v and the index behind b if d covers v, else an error. */
  ghost predicate Decodes(t: Type, v: Value, b: seq<byte>, d: Value, data: Data, index: nat)
    requires HasType(d, t) && index <= |data|
  {
    var r := D.Dec(data, t, d, index);
    if Covers(v, d) then r == D.Decoded(v, D.At(index + |b|)) else r.status == D.Error
  }

  lemma DecScalarOnWire(t: Type, v: Value, b: seq<byte>, d: Value, data: Data, index: nat)
    requires t.TBool? || t.TInt? || t.TUint?
    requires HasType(d, t) && Wire(Reader, t, v, b) && StandsAt(b, data, index)
    ensures Decodes(t, v, b, d, data, index)
  {
    hide Decode, Pow2, D.Signed, SignedOnWire, UnsignedOnWire;
    match t
    case TBool => assert data[index] == b[0];
    case TInt(w) => SignedIsDecode(w, v.i, b);
    case TUint(w) => UnsignedIsDecode(w, v.i, b);
  }

  lemma DecRunOnWire(t: Type, v: Value, b: seq<byte>, d: Value, data: Data, index: nat)
    requires t.TSlice? || t.TString?
    requires HasType(d, t) && Wire(Reader, t, v, b) && StandsAt(b, data, index)
    ensures Decodes(t, v, b, d, data, index)
  {
    hide Decode, Pow2, D.SliceEnd, Word64;
    DecodeLong(b[..8]);
    D.SliceEndExact(data, index + 8, |b| - 8);
    assert data[index..index + 8] == b[..8] && data[index + 8..index + |b|] == b[8..];
    if t.TSlice? {
      assert D.OfBytes(b[8..]) == v.elems;
    }
  }

  /** Decoding what stands for v, anywhere in data and whatever follows, succeeds exactly if the destination has a
      pointer wherever v does; it then gives v and the index behind it, and otherwise an error. */
  lemma {:induction false} DecOnWire(t: Type, v: Value, b: seq<byte>, d: Value, data: Data, index: nat)
    requires HasType(d, t) && Wire(Reader, t, v, b) && StandsAt(b, data, index)
    ensures Decodes(t, v, b, d, data, index)
    decreases Depth(t), 1, 0
  {
    match t
    case TArray(n, e) => DecSeqOnWire(Repeat(n, e), v.elems, b, d.elems, data, index);
    case TStruct(fs) => DecSeqOnWire(fs, v.fields, b, d.fields, data, index);
    case TPtr(_) => DecPtrOnWire(t, v, b, d, data, index);
    case TSlice(_) => DecRunOnWire(t, v, b, d, data, index);
    case TString => DecRunOnWire(t, v, b, d, data, index);
    case TOther =>
    case _ => DecScalarOnWire(t, v, b, d, data, index);
  }

  lemma {:induction false} DecPtrOnWire(t: Type, v: Value, b: seq<byte>, d: Value, data: Data, index: nat)
    requires t.TPtr?
    requires HasType(d, t) && Wire(Reader, t, v, b) && StandsAt(b, data, index)
    ensures Decodes(t, v, b, d, data, index)
    decreases Depth(t), 0, 0
  {
    assert data[index] == b[0];
    if v.VPtr? && d.VPtr? {
      assert b == [b[0]] + b[1..];
      StandsSplit([b[0]], b[1..], data, index);
      DecOnWire(t.elem, v.target, b[1..], d.target, data, index + 1);
    }
  }

  lemma {:induction false} DecSeqOnWire(ts: seq<Type>, vs: seq<Value>, b: seq<byte>, ds: seq<Value>, data: Data,
                                        index: nat)
    requires HaveTypes(ds, ts) && WireSeq(Reader, ts, vs, b) && StandsAt(b, data, index)
    ensures var r := D.DecSeq(data, ts, ds, index);
      if CoversSeq(vs, ds) then r == D.DecodedSeq(vs, D.At(index + |b|)) else r.status == D.Error
    decreases DepthSeq(ts), 2, |ts|
  {
    hide HasType, Wire, Covers, D.Dec, StandsAt;
    StandsInside(b, data, index);
    if ts != [] {
      var k := Split(Reader, ts, vs, b);
      StandsSplit(b[..k], b[k..], data, index);
      StandsInside(b[..k], data, index);
      DecOnWire(ts[0], vs[0], b[..k], ds[0], data, index);
      if Covers(vs[0], ds[0]) {
        DecSeqOnWire(ts[1..], vs[1..], b[k..], ds[1..], data, index + k);
        assert vs == [vs[0]] + vs[1..];
      }
    }
  }

  lemma StandsInside(b: seq<byte>, data: seq<byte>, index: nat)
    requires StandsAt(b, data, index)
    ensures index + |b| <= |data| && data[index..index + |b|] == b
  {}

  /** What was consumed stands for what was decoded. */
  ghost predicate Consumes(t: Type, d: Value, data: Data, index: nat)
    requires HasType(d, t) && index <= |data| && D.Dec(data, t, d, index).status.At?
  {
    var r := D.Dec(data, t, d, index);
    Wire(Reader, t, r.dst, data[index..r.status.index]) && Covers(r.dst, d)
  }

  lemma ScalarIsWire(t: Type, d: Value, data: Data, index: nat)
    requires t.TBool? || t.TInt? || t.TUint?
    requires HasType(d, t) && index <= |data| && D.Dec(data, t, d, index).status.At?
    ensures Consumes(t, d, data, index)
  {
    hide Decode, Pow2, D.Signed, SignedOnWire, UnsignedOnWire;
    var b := data[index..D.Dec(data, t, d, index).status.index];
    match t
    case TBool => assert b == [data[index]];
    case TInt(w) => SignedIsDecode(w, D.Signed(Decode(b), w), b);
    case TUint(w) => UnsignedIsDecode(w, Decode(b), b);
  }

  lemma RunIsWire(t: Type, d: Value, data: Data, index: nat)
    requires t.TSlice? || t.TString?
    requires HasType(d, t) && index <= |data| && D.Dec(data, t, d, index).status.At?
    ensures Consumes(t, d, data, index)
  {
    hide Decode, Pow2, D.SliceEnd, Word64;
    var end := D.Dec(data, t, d, index).status.index;
    assert index + 8 <= end <= |data|;
    var b := data[index..end];
    assert b[..8] == data[index..index + 8];
    assert b[8..] == data[index + 8..end];
    DecodeLong(b[..8]);
    EncodeDecode(b[..8]);
    Pow2Widths();
    D.SliceEndExact(data, index + 8, Decode(b[..8]));
  }

  /** A successful decode has consumed bytes that stand for its value, and had the pointers for it. */
  lemma {:induction false} DecodedIsWire(t: Type, d: Value, data: Data, index: nat)
    requires HasType(d, t) && index <= |data| && D.Dec(data, t, d, index).status.At?
    ensures Consumes(t, d, data, index)
    decreases Depth(t), 1, 0
  {
    match t
    case TArray(n, e) => DecodedSeqIsWire(Repeat(n, e), d.elems, data, index);
    case TStruct(fs) => DecodedSeqIsWire(fs, d.fields, data, index);
    case TPtr(e) =>
      var b := data[index..D.Dec(data, t, d, index).status.index];
      assert b[0] == data[index];
      if data[index] != 0 {
        DecodedIsWire(e, d.target, data, index + 1);
        assert b[1..] == data[index + 1..D.Dec(data, t, d, index).status.index];
      } else {
        assert b == [0];
      }
    case TSlice(_) => RunIsWire(t, d, data, index);
    case TString => RunIsWire(t, d, data, index);
    case TOther =>
    case _ => ScalarIsWire(t, d, data, index);
  }

  lemma {:induction false} DecodedSeqIsWire(ts: seq<Type>, ds: seq<Value>, data: Data, index: nat)
    requires HaveTypes(ds, ts) && index <= |data| && D.DecSeq(data, ts, ds, index).status.At?
    ensures var r := D.DecSeq(data, ts, ds, index);
      WireSeq(Reader, ts, r.dsts, data[index..r.status.index]) && CoversSeq(r.dsts, ds)
    decreases DepthSeq(ts), 2, |ts|
  {
    hide HasType, Wire, Covers, D.Dec;
    if ts != [] {
      var first := D.Dec(data, ts[0], ds[0], index);
      DecodedIsWire(ts[0], ds[0], data, index);
      DecodedSeqIsWire(ts[1..], ds[1..], data, first.status.index);
      var r := D.DecSeq(data, ts, ds, index);
      assert r.dsts[0] == first.dst && r.dsts[1..] == D.DecSeq(data, ts[1..], ds[1..], first.status.index).dsts;
      var x, y := data[index..first.status.index], data[first.status.index..r.status.index];
      Joined(Reader, ts, r.dsts, x, y);
      assert x + y == data[index..r.status.index];
    }
  }

  /** So the decoder is exact: it yields v and ends at j if and only if the bytes up to j stand for v, and the
      destination has the pointers for it. */
  lemma DecExact(data: Data, t: Type, d: Value, index: nat, v: Value, j: nat)
    requires HasType(d, t) && index <= |data|
    ensures D.Dec(data, t, d, index) == D.Decoded(v, D.At(j)) <==>
      index <= j <= |data| && Wire(Reader, t, v, data[index..j]) && Covers(v, d)
  {
    hide HasType, Wire, Covers, D.Dec;
    if index <= j <= |data| && Wire(Reader, t, v, data[index..j]) && Covers(v, d) {
      DecOnWire(t, v, data[index..j], d, data, index);
    }
    if D.Dec(data, t, d, index).status.At? {
      DecodedIsWire(t, d, data, index);
    }
  }

  /** What bytes stand for is a value of the type. */
  lemma {:induction false} WireHasType(t: Type, v: Value, b: seq<byte>)
    requires Wire(Reader, t, v, b) && |b| < MAX_LEN
    ensures HasType(v, t)
    decreases Depth(t), 1, 0
  {
    hide Pow2, Decode, Word64, Word32;
    match t
    case TArray(n, e) => WireSeqHasTypes(Repeat(n, e), v.elems, b);
    case TStruct(fs) => WireSeqHasTypes(fs, v.fields, b);
    case TPtr(e) =>
      if v.VPtr? {
        WireHasType(e, v.target, b[1..]);
      }
    case TSlice(_) => AreBytesHaveTypes(v.elems, b[8..]);
    case TInt(w) => SignedIsDecode(w, v.i, b); D.SignedHasType(b, w);
    case TUint(w) => UnsignedIsDecode(w, v.i, b); EncodeDecode(b);
    case _ =>
  }

  lemma {:induction false} WireSeqHasTypes(ts: seq<Type>, vs: seq<Value>, b: seq<byte>)
    requires WireSeq(Reader, ts, vs, b) && |b| < MAX_LEN
    ensures HaveTypes(vs, ts)
    decreases DepthSeq(ts), 2, |ts|
  {
    hide HasType, Wire;
    if ts != [] {
      var k := Split(Reader, ts, vs, b);
      WireHasType(ts[0], vs[0], b[..k]);
      WireSeqHasTypes(ts[1..], vs[1..], b[k..]);
    }
  }

  lemma AreBytesHaveTypes(vs: seq<Value>, b: seq<byte>)
    requires AreBytes(vs, b)
    ensures HaveTypes(vs, Repeat(|vs|, TUint(W8)))
  {
    hide HaveTypes;
    D.OfBytesHaveTypes(b);
    assert vs == D.OfBytes(b);
  }

  // Failures

  /** Data that end inside what stands for v: the decoder panics. */
  lemma {:induction false} DecTruncated(t: Type, v: Value, b: seq<byte>, d: Value, data: Data, index: nat)
    requires HasType(d, t) && Wire(Reader, t, v, b) && Covers(v, d)
    requires index <= |data| && data[index..] < b
    ensures D.Dec(data, t, d, index).status == D.Panic
    decreases Depth(t), 1, 0
  {
    match t
    case TArray(n, e) => DecSeqTruncated(Repeat(n, e), v.elems, b, d.elems, data, index);
    case TStruct(fs) => DecSeqTruncated(fs, v.fields, b, d.fields, data, index);
    case TPtr(e) =>
      if v.VPtr? && index < |data| {
        assert data[index] == data[index..][0] == b[0];
        assert data[index + 1..] == data[index..][1..];
        DecTruncated(e, v.target, b[1..], d.target, data, index + 1);
      }
    case TSlice(_) => DecRunTruncated(t, b, d, data, index);
    case TString => DecRunTruncated(t, b, d, data, index);
    case _ =>
  }

  lemma DecRunTruncated(t: Type, b: seq<byte>, d: Value, data: Data, index: nat)
    requires t.TSlice? || t.TString?
    requires HasType(d, t) && IsRun(b) && index <= |data| && data[index..] < b
    ensures D.Dec(data, t, d, index).status == D.Panic
  {
    hide Decode, Pow2, D.SliceEnd, Word64, HasType;
    if index + 8 <= |data| {
      assert data[index..index + 8] == data[index..][..8] == b[..8];
      DecodeLong(b[..8]);
      EncodeDecode(b[..8]);
      Pow2Widths();
      D.SliceEndExact(data, index + 8, Decode(b[..8]));
    }
  }

  lemma {:induction false} DecSeqTruncated(ts: seq<Type>, vs: seq<Value>, b: seq<byte>, ds: seq<Value>, data: Data,
                                           index: nat)
    requires HaveTypes(ds, ts) && WireSeq(Reader, ts, vs, b) && CoversSeq(vs, ds)
    requires index <= |data| && data[index..] < b
    ensures D.DecSeq(data, ts, ds, index).status == D.Panic
    decreases DepthSeq(ts), 2, |ts|
  {
    hide HasType, Wire, Covers, D.Dec;
    var k := Split(Reader, ts, vs, b);
    var rest := data[index..];
    if |rest| < k {
      assert rest < b[..k];
      DecTruncated(ts[0], vs[0], b[..k], ds[0], data, index);
    } else {
      assert data[index..index + k] == rest[..k] == b[..k];
      assert data[index + k..] == rest[k..] && rest[k..] < b[k..];
      DecOnWire(ts[0], vs[0], b[..k], ds[0], data, index);
      DecSeqTruncated(ts[1..], vs[1..], b[k..], ds[1..], data, index + k);
    }
  }

  /** What both refuse, with the error or panic they give: of slices only bytes, of arrays the encoder only bytes, and
      no other kind at all. A pointer that is needed and missing is an error. */
  lemma Refusals(t: Type, v: Value, data: Data, index: nat)
    requires HasType(v, t) && index <= |data|
    ensures t.TOther? ==> Enc(t, v) == Error && D.Dec(data, t, v, index) == D.Decoded(v, D.Error)
    ensures t.TSlice? && t.elem != TUint(W8) ==> Enc(t, v) == Panic && D.Dec(data, t, v, index) == D.Decoded(v, D.Panic)
    ensures t.TArray? && t.elem != TUint(W8) ==> Enc(t, v) == Panic
    ensures t.TPtr? && v.VNil? && index < |data| && data[index] != 0 ==>
      D.Dec(data, t, v, index) == D.Decoded(v, D.Error)
  {}

  /** A struct encodes up to its first field that fails, and fails as that one does. */
  lemma {:induction false} EncStops(ts: seq<Type>, vs: seq<Value>, i: nat)
    requires HaveTypes(vs, ts) && i < |ts|
    ensures |vs| == |ts| && HaveTypes(vs[..i], ts[..i]) && HasType(vs[i], ts[i])
    ensures EncSeq(ts[..i], vs[..i]).Bytes? && !Enc(ts[i], vs[i]).Bytes? ==> EncSeq(ts, vs) == Enc(ts[i], vs[i])
    decreases i
  {
    hide HasType, Enc;
    TailTypes(vs, ts, i);
    if i > 0 {
      EncStops(ts[1..], vs[1..], i - 1);
      assert ts[..i][1..] == ts[1..][..i - 1] && vs[..i][1..] == vs[1..][..i - 1];
    }
  }

  lemma DecFirst(data: Data, ts: seq<Type>, ds: seq<Value>, index: nat)
    requires HaveTypes(ds, ts) && ts != [] && index <= |data|
    ensures HasType(ds[0], ts[0]) && HaveTypes(ds[1..], ts[1..])
    ensures var r := D.Dec(data, ts[0], ds[0], index);
      D.DecSeq(data, ts, ds, index) ==
        if r.status.At? then
          var rest := D.DecSeq(data, ts[1..], ds[1..], r.status.index);
          D.DecodedSeq([r.dst] + rest.dsts, rest.status)
        else D.DecodedSeq([r.dst] + ds[1..], r.status)
  {
    hide HasType, D.Dec;
  }

  lemma AllBefore(ts: seq<Type>, vs: seq<Value>, b: seq<byte>, i: nat)
    requires i < |ts| && WireSeq(Reader, ts[..i], vs, b)
    ensures i == 0 ==> vs == [] && b == []
    ensures i > 0 ==> ts[..i][0] == ts[0] && ts[..i][1..] == ts[1..][..i - 1]
  {
    hide Wire;
  }

  /** So does decoding; the fields before are then decoded, and those behind as they were. */
  lemma {:induction false} DecStops(data: Data, ts: seq<Type>, ds: seq<Value>, index: nat, i: nat, vs: seq<Value>,
                                    b: seq<byte>)
    requires HaveTypes(ds, ts) && i < |ts|
    requires WireSeq(Reader, ts[..i], vs, b) && StandsAt(b, data, index) && CoversSeq(vs, ds)
    ensures |ds| == |ts| && HasType(ds[i], ts[i]) && index + |b| <= |data|
    ensures var r := D.Dec(data, ts[i], ds[i], index + |b|);
      !r.status.At? ==> D.DecSeq(data, ts, ds, index) == D.DecodedSeq(vs + ([r.dst] + ds[i + 1..]), r.status)
    decreases i
  {
    hide HasType, HaveTypes, Wire, WireSeq, Covers, D.Dec, D.DecSeq, StandsAt;
    TailTypes(ds, ts, i);
    StandsInside(b, data, index);
    AllBefore(ts, vs, b, i);
    DecFirst(data, ts, ds, index);
    if i > 0 {
      var k := Split(Reader, ts[..i], vs, b);
      StandsSplit(b[..k], b[k..], data, index);
      StandsInside(b[..k], data, index);
      DecOnWire(ts[0], vs[0], b[..k], ds[0], data, index);
      DecStops(data, ts[1..], ds[1..], index + k, i - 1, vs[1..], b[k..]);
      assert ds[1..][i - 1 + 1..] == ds[i + 1..];
      assert vs == [vs[0]] + vs[1..];
    }
  }
}
