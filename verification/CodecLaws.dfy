/** What the encoder and the decoder promise together. */
module CodecLaws {
  import opened LittleEndian
  import opened GoValues
  import opened Serialize
  import opened WireFormat
  import opened WireLaws
  import D = Deserialize

  /** Decoding at index yields v and the index behind its encoding if the destination d covers v, else an error. */
  ghost predicate RoundTrips(t: Type, v: Value, d: Value, data: Data, index: nat)
    requires HasType(v, t) && HasType(d, t) && Enc(t, v).Bytes? && index <= |data|
  {
    var r := D.Dec(data, t, d, index);
    if Covers(v, d) then r == D.Decoded(v, D.At(index + |Enc(t, v).b|)) else r.status == D.Error
  }

  /** Round trip: decoding the encoding of v, wherever it stands in data, succeeds exactly when the destination has
      a pointer wherever v does; it then yields v and the index behind the encoding, and otherwise an error. */
  lemma RoundTrip(t: Type, v: Value, d: Value, data: Data, index: nat)
    requires HasType(v, t) && HasType(d, t) && Enc(t, v).Bytes? && StandsAt(Enc(t, v).b, data, index)
    ensures RoundTrips(t, v, d, data, index)
  {
    hide HasType, Enc, Wire, Covers, D.Dec;
    EncOnWire(t, v, Enc(t, v).b);
    ReaderTakes(t, v, Enc(t, v).b);
    DecOnWire(t, v, Enc(t, v).b, d, data, index);
  }

  lemma RoundTripSeq(ts: seq<Type>, vs: seq<Value>, ds: seq<Value>, data: Data, index: nat)
    requires HaveTypes(vs, ts) && HaveTypes(ds, ts) && EncSeq(ts, vs).Bytes? && StandsAt(EncSeq(ts, vs).b, data, index)
    ensures var r := D.DecSeq(data, ts, ds, index);
      if CoversSeq(vs, ds) then r == D.DecodedSeq(vs, D.At(index + |EncSeq(ts, vs).b|)) else r.status == D.Error
  {
    hide HaveTypes, EncSeq, WireSeq, CoversSeq, D.DecSeq;
    EncSeqOnWire(ts, vs, EncSeq(ts, vs).b);
    ReaderTakesSeq(ts, vs, EncSeq(ts, vs).b);
    DecSeqOnWire(ts, vs, EncSeq(ts, vs).b, ds, data, index);
  }

  // Consequences of the round trip

  lemma {:induction false} CoversSelf(v: Value)
    ensures Covers(v, v)
    decreases v
  {
    match v
    case VPtr(x) => CoversSelf(x);
    case VArray(es) => CoversSelfSeq(es);
    case VStruct(fs) => CoversSelfSeq(fs);
    case _ =>
  }

  lemma {:induction false} CoversSelfSeq(vs: seq<Value>)
    ensures CoversSeq(vs, vs)
    decreases vs
  {
    if vs != [] {
      CoversSelf(vs[0]);
      CoversSelfSeq(vs[1..]);
    }
  }

  /** No bytes that stand for a value of a type are a proper prefix of others. */
  lemma OneReading(t: Type, v: Value, b: seq<byte>, w: Value, c: seq<byte>)
    requires Wire(Reader, t, v, b) && Wire(Reader, t, w, c) && |b| < MAX_LEN && |c| < MAX_LEN
    requires b <= c
    ensures b == c && v == w
  {
    hide HasType, Wire, Covers, D.Dec;
    var data: Data := c;
    assert data[0..|c|] == c && data[0..|b|] == b;
    WireHasType(t, w, c);
    CoversSelf(w);
    DecOnWire(t, w, c, w, data, 0);
    DecOnWire(t, v, b, w, data, 0);
  }

  /** No encoding of a type is a proper prefix of another, and equal encodings come from equal values. */
  lemma PrefixFree(t: Type, v: Value, w: Value)
    requires HasType(v, t) && HasType(w, t) && Enc(t, v).Bytes? && Enc(t, w).Bytes?
    requires Enc(t, v).b <= Enc(t, w).b && |Enc(t, w).b| < MAX_LEN
    ensures v == w
  {
    hide HasType, Enc, Wire;
    EncOnWire(t, v, Enc(t, v).b);
    EncOnWire(t, w, Enc(t, w).b);
    ReaderTakes(t, v, Enc(t, v).b);
    ReaderTakes(t, w, Enc(t, w).b);
    OneReading(t, v, Enc(t, v).b, w, Enc(t, w).b);
  }

  /** No non-nil pointer anywhere in v outside slices. */
  predicate PointerFree(v: Value) {
    match v
    case VPtr(_) => false
    case VArray(es) => PointerFreeSeq(es)
    case VStruct(fs) => PointerFreeSeq(fs)
    case _ => true
  }

  predicate PointerFreeSeq(vs: seq<Value>) {
    vs == [] || (PointerFree(vs[0]) && PointerFreeSeq(vs[1..]))
  }

  /** A zero-valued destination covers exactly the values without non-nil pointers. */
  lemma {:induction false} ZeroCovers(t: Type, v: Value)
    requires HasType(v, t)
    ensures Covers(v, Zero(t)) <==> PointerFree(v)
    decreases Depth(t), 1, 0
  {
    match t
    case TArray(n, e) => ZeroCoversSeq(Repeat(n, e), v.elems);
    case TStruct(fs) => ZeroCoversSeq(fs, v.fields);
    case _ =>
  }

  lemma {:induction false} ZeroCoversSeq(ts: seq<Type>, vs: seq<Value>)
    requires HaveTypes(vs, ts)
    ensures CoversSeq(vs, Zeros(ts)) <==> PointerFreeSeq(vs)
    decreases DepthSeq(ts), 2, |ts|
  {
    hide HasType, Covers, PointerFree;
    if ts != [] {
      ZeroCovers(ts[0], vs[0]);
      ZeroCoversSeq(ts[1..], vs[1..]);
    }
  }

  /** Decoding into a fresh variable works exactly for values without non-nil pointers. */
  lemma FreshRoundTrip(t: Type, v: Value, data: Data, index: nat)
    requires HasType(v, t) && Enc(t, v).Bytes? && StandsAt(Enc(t, v).b, data, index)
    ensures HasType(Zero(t), t)
    ensures var r := D.Dec(data, t, Zero(t), index);
      if PointerFree(v) then r == D.Decoded(v, D.At(index + |Enc(t, v).b|)) else r.status == D.Error
  {
    hide HasType, Enc, Covers, D.Dec, PointerFree;
    ZeroHasType(t);
    ZeroCovers(t, v);
    RoundTrip(t, v, Zero(t), data, index);
  }

  // The inverse the other way

  /** Types that both functions support. */
  predicate Encodable(t: Type)
    decreases Depth(t), 1, 0
  {
    match t
    case TSlice(e) => e == U8
    case TArray(_, e) => e == U8
    case TPtr(e) => Encodable(e)
    case TStruct(fs) => EncodableSeq(fs)
    case TOther => false
    case _ => true
  }

  predicate EncodableSeq(ts: seq<Type>)
    decreases DepthSeq(ts), 2, |ts|
  {
    ts == [] || (Encodable(ts[0]) && EncodableSeq(ts[1..]))
  }

  /** Every bool byte and pointer tag consumed is 0 or 1. */
  ghost predicate Canonical(data: Data, t: Type, d: Value, index: nat)
    requires HasType(d, t) && index <= |data| && D.Dec(data, t, d, index).status.At?
    decreases Depth(t), 1, 0
  {
    match t
    case TBool => data[index] <= 1
    case TPtr(e) => data[index] == 0 || (data[index] == 1 && Canonical(data, e, d.target, index + 1))
    case TStruct(fs) => CanonicalSeq(data, fs, d.fields, index)
    case _ => true
  }

  ghost predicate CanonicalSeq(data: Data, ts: seq<Type>, ds: seq<Value>, index: nat)
    requires HaveTypes(ds, ts) && index <= |data| && D.DecSeq(data, ts, ds, index).status.At?
    decreases DepthSeq(ts), 2, |ts|
  {
    ts == [] ||
    (Canonical(data, ts[0], ds[0], index) &&
     CanonicalSeq(data, ts[1..], ds[1..], D.Dec(data, ts[0], ds[0], index).status.index))
  }

  lemma {:induction false} EncOfBytes(b: seq<byte>)
    ensures HaveTypes(D.OfBytes(b), Repeat(|b|, U8))
    ensures EncSeq(Repeat(|b|, U8), D.OfBytes(b)) == Bytes(b)
  {
    hide HasType, Enc;
    D.OfBytesHaveTypes(b);
    if b != [] {
      ByteOf(D.OfBytes(b)[0]);
      EncOfBytes(b[1..]);
      assert D.OfBytes(b)[1..] == D.OfBytes(b[1..]);
      assert b == [b[0]] + b[1..];
    }
  }

  /** A successful decode at index: the result re-encodes, to exactly as many bytes as were consumed, and to
      those very bytes exactly when they were canonical. */
  ghost predicate Reencodes(data: Data, t: Type, d: Value, index: nat)
    requires HasType(d, t) && index <= |data| && D.Dec(data, t, d, index).status.At?
  {
    var r := D.Dec(data, t, d, index);
    && HasType(r.dst, t)
    && Enc(t, r.dst).Bytes?
    && |Enc(t, r.dst).b| == r.status.index - index
    && (Enc(t, r.dst).b == data[index..r.status.index] <==> Canonical(data, t, d, index))
  }

  ghost predicate ReencodesSeq(data: Data, ts: seq<Type>, ds: seq<Value>, index: nat)
    requires HaveTypes(ds, ts) && index <= |data| && D.DecSeq(data, ts, ds, index).status.At?
  {
    var r := D.DecSeq(data, ts, ds, index);
    && HaveTypes(r.dsts, ts)
    && EncSeq(ts, r.dsts).Bytes?
    && |EncSeq(ts, r.dsts).b| == r.status.index - index
    && (EncSeq(ts, r.dsts).b == data[index..r.status.index] <==> CanonicalSeq(data, ts, ds, index))
  }

  lemma ReencodeBool(data: Data, t: Type, d: Value, index: nat)
    requires t.TBool?
    requires HasType(d, t) && index <= |data| && D.Dec(data, t, d, index).status.At?
    ensures Reencodes(data, t, d, index)
  {
    var consumed := data[index..index + 1];
    assert consumed == [data[index]];
  }

  lemma ReencodeInt(data: Data, t: Type, d: Value, index: nat)
    requires t.TInt? || t.TUint?
    requires HasType(d, t) && index <= |data| && D.Dec(data, t, d, index).status.At?
    ensures Reencodes(data, t, d, index)
  {
    hide Pow2, Encode, Decode, TwosComplement, D.Signed;
    D.DecKeepsType(data, t, d, index);
    var consumed := data[index..index + t.w.Bytes()];
    EncodeDecode(consumed);
    if t.TInt? {
      TwosSigned(Decode(consumed), t.w);
    }
  }

  /** A length-prefixed run that was accepted at index is its prefix followed by the run, which the
      encoder would write the same way. */
  lemma AcceptedRun(data: Data, index: nat, end: int)
    requires index + 8 <= |data|
    requires end == D.SliceEnd(index + 8, Decode(data[index..index + 8])) && D.InRange(data, index + 8, end)
    ensures data[index..end] == Encode(end - index - 8, 8) + data[index + 8..end]
  {
    var prefix := data[index..index + 8];
    EncodeDecode(prefix);
    Pow2Widths();
    hide Pow2, Encode, Decode, D.SliceEnd;
    D.SliceEndExact(data, index + 8, Decode(prefix));
    assert data[index..end] == prefix + data[index + 8..end];
  }

  lemma ReencodeRun(data: Data, t: Type, d: Value, index: nat)
    requires t.TSlice? || t.TString?
    requires HasType(d, t) && index <= |data| && D.Dec(data, t, d, index).status.At?
    ensures Reencodes(data, t, d, index)
  {
    hide Pow2, Encode, Decode, D.SliceEnd;
    D.DecKeepsType(data, t, d, index);
    var end := D.Dec(data, t, d, index).status.index;
    AcceptedRun(data, index, end);
    if t.TSlice? {
      EncOfBytes(data[index + 8..end]);
    }
  }

  lemma {:induction false} ReencodePtr(data: Data, t: Type, d: Value, index: nat)
    requires t.TPtr? && Encodable(t)
    requires HasType(d, t) && index <= |data| && D.Dec(data, t, d, index).status.At?
    ensures Reencodes(data, t, d, index)
    decreases Depth(t), 0, 0
  {
    D.DecKeepsType(data, t, d, index);
    var r := D.Dec(data, t, d, index);
    if data[index] == 0 {
      assert data[index..r.status.index] == [0];
    } else {
      Reencode(data, t.elem, d.target, index + 1);
      var b := Enc(t.elem, r.dst.target).b;
      var consumed := data[index..r.status.index];
      assert consumed == [data[index]] + data[index + 1..r.status.index];
      assert ([1] + b)[0] == 1 && ([1] + b)[1..] == b && consumed[1..] == data[index + 1..r.status.index];
    }
  }

  lemma {:induction false} ReencodeArray(data: Data, t: Type, d: Value, index: nat)
    requires t.TArray? && t.elem == U8
    requires HasType(d, t) && index <= |data| && D.Dec(data, t, d, index).status.At?
    ensures Reencodes(data, t, d, index)
    decreases Depth(t), 0, 0
  {
    var ts := Repeat(t.len, t.elem);
    EncodableBytes(t.len);
    ReencodeSeq(data, ts, d.elems, index);
    CanonicalBytes(data, t.len, d.elems, index);
  }

  lemma {:induction false} EncodableBytes(n: nat)
    ensures EncodableSeq(Repeat(n, U8))
  {
    if n > 0 {
      EncodableBytes(n - 1);
    }
  }

  lemma {:induction false} CanonicalBytes(data: Data, n: nat, ds: seq<Value>, index: nat)
    requires HaveTypes(ds, Repeat(n, U8)) && index <= |data| && D.DecSeq(data, Repeat(n, U8), ds, index).status.At?
    ensures CanonicalSeq(data, Repeat(n, U8), ds, index)
  {
    if n > 0 {
      assert Repeat(n, U8)[1..] == Repeat(n - 1, U8);
      CanonicalBytes(data, n - 1, ds[1..], D.Dec(data, U8, ds[0], index).status.index);
    }
  }

  /** Inverse the other way, for types that both functions support. */
  lemma {:induction false} Reencode(data: Data, t: Type, d: Value, index: nat)
    requires Encodable(t)
    requires HasType(d, t) && index <= |data| && D.Dec(data, t, d, index).status.At?
    ensures Reencodes(data, t, d, index)
    decreases Depth(t), 1, 0
  {
    match t
    case TArray(_, _) => ReencodeArray(data, t, d, index);
    case TPtr(_) => ReencodePtr(data, t, d, index);
    case TStruct(fs) => ReencodeSeq(data, fs, d.fields, index);
    case TSlice(_) => ReencodeRun(data, t, d, index);
    case TString => ReencodeRun(data, t, d, index);
    case TBool => ReencodeBool(data, t, d, index);
    case _ => ReencodeInt(data, t, d, index);
  }

  lemma {:induction false} ReencodeSeq(data: Data, ts: seq<Type>, ds: seq<Value>, index: nat)
    requires EncodableSeq(ts)
    requires HaveTypes(ds, ts) && index <= |data| && D.DecSeq(data, ts, ds, index).status.At?
    ensures ReencodesSeq(data, ts, ds, index)
    decreases DepthSeq(ts), 2, |ts|
  {
    hide HasType, Enc, D.Dec, Canonical, Encodable;
    if ts != [] {
      var first := D.Dec(data, ts[0], ds[0], index);
      var next := first.status.index;
      Reencode(data, ts[0], ds[0], index);
      ReencodeSeq(data, ts[1..], ds[1..], next);
      var r := D.DecSeq(data, ts, ds, index);
      assert r.dsts[0] == first.dst && r.dsts[1..] == D.DecSeq(data, ts[1..], ds[1..], next).dsts;
      SplitEqual(Enc(ts[0], first.dst).b, EncSeq(ts[1..], r.dsts[1..]).b, data, index, next, r.status.index);
    }
  }

  /** A concatenation fills a stretch of data exactly when its two parts fill the two pieces. */
  lemma SplitEqual(a: seq<byte>, b: seq<byte>, data: seq<byte>, lo: nat, mid: nat, hi: nat)
    requires lo <= mid <= hi <= |data| && |a| == mid - lo && |b| == hi - mid
    ensures a + b == data[lo..hi] <==> a == data[lo..mid] && b == data[mid..hi]
  {
    assert data[lo..hi] == data[lo..mid] + data[mid..hi];
    assert (a + b)[..|a|] == a && (a + b)[|a|..] == b;
    assert data[lo..hi][..|a|] == data[lo..mid] && data[lo..hi][|a|..] == data[mid..hi];
  }
}
