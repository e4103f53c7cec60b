/** The framed reader of the stateless example: a moving offset over embedded bytes. */
module WitnessReader {
  import opened LittleEndian
  import opened GoValues
  import opened GoMemory
  import S = Serialize
  import D = Deserialize
  import opened WireFormat
  import opened WireLaws
  import opened CodecLaws
  import opened SharedPointers

  /** A value, or a panic. */
  datatype Result<T> = Ok(value: T) | Panicked

  /** The first eight bytes of a frame give the length of the rest. */
  function Frame(e: seq<byte>): seq<byte> {
    Encode(|e|, 8) + e
  }

  /** What Read[T] returns at an offset, and the offset it leaves behind: a failed length read moves nothing, any
      later failure has already consumed what was read. */
  ghost function ReadAt(embedded: Data, t: Type, offset: nat): (r: (Result<Value>, nat))
    requires offset <= |embedded|
    ensures offset <= r.1 <= |embedded|
  {
    ZeroHasType(t);
    if offset + 8 > |embedded| then (Panicked, offset) else
    var length := Decode(embedded[offset..offset + 8]);
    if offset + 8 + length > |embedded| then (Panicked, offset + 8) else
    var data := embedded[offset + 8..offset + 8 + length];
    var d := D.Dec(data, t, Zero(t), 0);
    (if d.status == D.At(|data|) then Ok(d.dst) else Panicked, offset + 8 + length)
  }

  /** The or/shift loop of Read: uint64 or and shift give the little-endian value. */
  method LengthOf(b: seq<byte>) returns (length: nat)
    requires |b| == 8
    ensures length == Decode(b)
  {
    length := 0;
    for i := 0 to 8
      invariant length == Decode(b[..i])
    {
      OrByte(b, i);
      length := BitOr(length, (b[i] * Pow2(8 * i)) % Pow2(64));
    }
    assert b[..8] == b;
  }

  class Reader {
    const embedded: Data
    var offset: nat

    ghost predicate Valid()
      reads this
    {
      offset <= |embedded|
    }

    constructor (bytes: Data)
      ensures embedded == bytes && offset == 0 && Valid()
    {
      embedded, offset := bytes, 0;
    }

    /** UnsafeReadFromEmbedded. The guard and the slice bound add in wrapping int arithmetic; a request the guard
        lets through by wrapping, or a negative one, still panics in make or in the slice expression. */
    method UnsafeRead(n: int) returns (r: Result<seq<byte>>)
      requires Valid() && -MAX_LEN <= n < MAX_LEN
      modifies this
      ensures Valid()
      ensures r.Ok? <==> 0 <= n && old(offset) + n <= |embedded|
      ensures r.Ok? ==> r.value == embedded[old(offset)..old(offset) + n] && offset == old(offset) + n
      ensures r.Panicked? ==> offset == old(offset)
    {
      var end := D.Int64(offset + n);
      if end > |embedded| {
        return Panicked;
      }
      if n < 0 || !(offset <= end) {
        return Panicked;
      }
      r := Ok(embedded[offset..end]);
      offset := offset + n;
    }

    /** Read[T]: the length with its or/shift loop, then the payload, decoded into a zero value of T. */
    method Read(t: Type) returns (r: Result<Value>)
      requires Valid()
      modifies this
      ensures Valid()
      ensures (r, offset) == ReadAt(embedded, t, old(offset))
    {
      hide Decode, HasType, Zero, D.Dec, D.DecIn, D.Int64, Typed, PlaceOf, Unshared, Flat;
      ZeroHasType(t);
      var lengthBytes := UnsafeRead(8);
      if lengthBytes.Panicked? {
        return Panicked;
      }
      var b := lengthBytes.value;
      var length := LengthOf(b);
      LengthFits(b);
      var payload := UnsafeRead(D.Int64(length));
      if payload.Panicked? {
        return Panicked;
      }
      var data: Data := payload.value;
      NewVariable(t);
      UnsharedRefines(data, Flat(t), t, ZeroCells(t), 0, 0);
      var zero := ZeroCells(t);
      var result := new Cell[|zero|](i requires 0 <= i < |zero| => zero[i]);
      assert result[..] == zero;
      var ok := D.DeserializeData(data, Flat(t), t, result, 0);
      r := if ok then Ok(ValueAt(Flat(t), result[..], t, 0)) else Panicked;
    }
  }

  /** One turn of the or/shift loop appends a byte to the little-endian value; nothing is shifted out. */
  lemma OrByte(b: seq<byte>, i: nat)
    requires |b| == 8 && i < 8
    ensures BitOr(Decode(b[..i]), (b[i] * Pow2(8 * i)) % Pow2(64)) == Decode(b[..i + 1])
  {
    hide Decode, Encode, BitOr, Pow2;
    assert |b[..i]| == i && |b[..i + 1]| == i + 1;
    EncodeDecode(b[..i]);
    EncodeDecode(b[..i + 1]);
    DecodeSnoc(b[..i], b[i]);
    assert b[..i + 1] == b[..i] + [b[i]];
    Pow2Monotone(8 * (i + 1), 64);
    OrIsSum(Decode(b[..i]), b[i], 8 * i);
    SmallMod(b[i] * Pow2(8 * i), Pow2(64));
  }

  lemma SmallMod(x: nat, m: nat)
    requires x < m
    ensures x % m == x
  {}

  lemma Pow2Monotone(j: nat, k: nat)
    requires j <= k
    ensures Pow2(j) <= Pow2(k)
  {
    if j < k {
      Pow2Monotone(j, k - 1);
    }
  }

  lemma LengthFits(b: seq<byte>)
    requires |b| == 8
    ensures Decode(b) < 2 * MAX_LEN
    ensures -MAX_LEN <= D.Int64(Decode(b)) < MAX_LEN
    ensures Decode(b) < MAX_LEN ==> D.Int64(Decode(b)) == Decode(b)
    ensures Decode(b) >= MAX_LEN ==> D.Int64(Decode(b)) < 0
  {
    EncodeDecode(b);
    Pow2Widths();
  }

  // One frame

  /** A frame is a word of eight bytes that gives the length of the rest, least significant byte first. */
  lemma FrameIsRun(payload: seq<byte>)
    requires |payload| < MAX_LEN
    ensures IsRun(Frame(payload)) && Frame(payload)[8..] == payload
  {
    hide IsRun;
    RunEncodes(payload, Frame(payload));
  }

  lemma FrameSplit(embedded: Data, payload: seq<byte>, offset: nat)
    requires StandsAt(Frame(payload), embedded, offset)
    ensures offset + 8 + |payload| <= |embedded|
    ensures Decode(embedded[offset..offset + 8]) == |payload|
    ensures embedded[offset + 8..offset + 8 + |payload|] == payload
  {
    hide Encode, Decode, Pow2, StandsAt;
    var prefix := Encode(|payload|, 8);
    StandsSplit(prefix, payload, embedded, offset);
    StandsInside(prefix, embedded, offset);
    StandsInside(payload, embedded, offset + 8);
    Pow2Widths();
    DecodeEncode(|payload|, 8);
  }

  lemma ReadPayload(embedded: Data, t: Type, payload: Data, offset: nat)
    requires StandsAt(Frame(payload), embedded, offset)
    ensures HasType(Zero(t), t)
    ensures var d := D.Dec(payload, t, Zero(t), 0);
      ReadAt(embedded, t, offset) ==
        (if d.status == D.At(|payload|) then Ok(d.dst) else Panicked, offset + 8 + |payload|)
  {
    hide HasType, D.Dec, Zero, Decode, StandsAt, Frame;
    FrameSplit(embedded, payload, offset);
    ZeroHasType(t);
  }

  /** Reading a frame leaves the offset behind it. It returns v exactly if the payload, all of it, stands for v and v
      has no non-nil pointer, and panics if there is no such v. */
  lemma ReadExact(embedded: Data, t: Type, payload: Data, offset: nat, v: Value)
    requires StandsAt(Frame(payload), embedded, offset)
    ensures ReadAt(embedded, t, offset).1 == offset + 8 + |payload|
    ensures ReadAt(embedded, t, offset).0 == Ok(v) <==> Wire(Reader, t, v, payload) && PointerFree(v)
  {
    hide HasType, Wire, Covers, D.Dec, Zero, PointerFree, Frame, StandsAt, ReadAt;
    assert payload[0..|payload|] == payload;
    ReadPayload(embedded, t, payload, offset);
    DecExact(payload, t, Zero(t), 0, v, |payload|);
    if Wire(Reader, t, v, payload) {
      WireHasType(t, v, payload);
      ZeroCovers(t, v);
    }
  }

  /** So a frame that holds more than what stands for a value panics, and so does one that holds less. */
  lemma ReadWrongSize(embedded: Data, t: Type, v: Value, b: seq<byte>, payload: Data, offset: nat)
    requires StandsAt(Frame(payload), embedded, offset)
    requires Wire(Reader, t, v, b) && |b| < MAX_LEN && (b < payload || payload < b)
    ensures ReadAt(embedded, t, offset) == (Panicked, offset + 8 + |payload|)
  {
    hide HasType, Wire, Covers, D.Dec, PointerFree, Encode, Decode, Pow2, ReadAt;
    ReadExact(embedded, t, payload, offset, v);
    var r := ReadAt(embedded, t, offset).0;
    if r.Ok? {
      ReadExact(embedded, t, payload, offset, r.value);
      if b < payload {
        OneReading(t, v, b, r.value, payload);
      } else {
        OneReading(t, r.value, payload, v, b);
      }
    }
  }

  /** The stream ends before a length, or before the payload it announces: a panic, with the length consumed if there
      was one. */
  lemma ReadShort(embedded: Data, t: Type, offset: nat)
    requires offset <= |embedded|
    ensures offset + 8 > |embedded| ==> ReadAt(embedded, t, offset) == (Panicked, offset)
    ensures offset + 8 <= |embedded| < offset + 8 + Word64(embedded[offset..offset + 8]) ==>
      ReadAt(embedded, t, offset) == (Panicked, offset + 8)
  {
    hide Decode, Word64, D.Dec;
    if offset + 8 <= |embedded| {
      DecodeLong(embedded[offset..offset + 8]);
    }
  }

  // Streams of frames

  /** The frames of the values vs, one after the other. */
  ghost function Frames(ts: seq<Type>, vs: seq<Value>): seq<byte>
    requires HaveTypes(vs, ts) && AllEncode(ts, vs)
  {
    if ts == [] then [] else Frame(S.Enc(ts[0], vs[0]).b) + Frames(ts[1..], vs[1..])
  }

  ghost predicate AllEncode(ts: seq<Type>, vs: seq<Value>)
    requires HaveTypes(vs, ts)
  {
    ts == [] || (S.Enc(ts[0], vs[0]).Bytes? && AllEncode(ts[1..], vs[1..]))
  }

  /** Successive Read calls, one per type, up to the first panic. */
  ghost function ReadAll(embedded: Data, ts: seq<Type>, offset: nat): (r: (Result<seq<Value>>, nat))
    requires offset <= |embedded|
    ensures offset <= r.1 <= |embedded|
  {
    if ts == [] then (Ok([]), offset) else
    var first := ReadAt(embedded, ts[0], offset);
    if first.0.Panicked? then (Panicked, first.1) else
    var rest := ReadAll(embedded, ts[1..], first.1);
    (if rest.0.Ok? then Ok([first.0.value] + rest.0.value) else Panicked, rest.1)
  }

  /** A frame read at its place returns the value it was made from, exactly if that value has no non-nil
      pointers; either way the offset is left behind the frame. */
  lemma ReadFrame(embedded: Data, t: Type, v: Value, offset: nat)
    requires HasType(v, t) && S.Enc(t, v).Bytes?
    requires StandsAt(Frame(S.Enc(t, v).b), embedded, offset)
    ensures ReadAt(embedded, t, offset) ==
      (if PointerFree(v) then Ok(v) else Panicked, offset + 8 + |S.Enc(t, v).b|)
  {
    hide HasType, S.Enc, Wire, PointerFree, ReadAt;
    var e: Data := S.Enc(t, v).b;
    EncOnWire(t, v, e);
    ReaderTakes(t, v, e);
    ReadExact(embedded, t, e, offset, v);
    if ReadAt(embedded, t, offset).0.Ok? {
      var w := ReadAt(embedded, t, offset).0.value;
      ReadExact(embedded, t, e, offset, w);
      OneReading(t, v, e, w, e);
    }
  }

  /** The bytes of the frames that are consumed: all, or those up to the first value with a non-nil pointer. */
  ghost function Consumed(ts: seq<Type>, vs: seq<Value>): (n: nat)
    requires HaveTypes(vs, ts) && AllEncode(ts, vs)
    ensures n <= |Frames(ts, vs)|
    ensures PointerFreeSeq(vs) ==> n == |Frames(ts, vs)|
  {
    if ts == [] then 0 else
    var rest := Consumed(ts[1..], vs[1..]);
    |Frame(S.Enc(ts[0], vs[0]).b)| + if PointerFree(vs[0]) then rest else 0
  }

  /** n Read calls over the frames of n values, wherever they stand: without non-nil pointers they return the values in
      order and leave the offset right behind the last frame. Otherwise they panic at the first value with one, and
      leave the offset right behind its frame. */
  lemma {:induction false} ReadFrames(embedded: Data, ts: seq<Type>, vs: seq<Value>, offset: nat)
    requires HaveTypes(vs, ts) && AllEncode(ts, vs)
    requires StandsAt(Frames(ts, vs), embedded, offset)
    ensures ReadAll(embedded, ts, offset) ==
      (if PointerFreeSeq(vs) then Ok(vs) else Panicked, offset + Consumed(ts, vs))
    decreases |ts|
  {
    hide HasType, S.Enc, ReadAt, PointerFree;
    if ts != [] {
      var e := S.Enc(ts[0], vs[0]).b;
      StandsSplit(Frame(e), Frames(ts[1..], vs[1..]), embedded, offset);
      ReadFrame(embedded, ts[0], vs[0], offset);
      ReadFrames(embedded, ts[1..], vs[1..], offset + |Frame(e)|);
      assert vs == [vs[0]] + vs[1..];
    }
  }
}
