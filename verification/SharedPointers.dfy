/** Destinations whose pointers may share targets: when the tree view of decoding is right, and exactly when a value
    survives the round trip. */
module SharedPointers {
  import opened LittleEndian
  import opened GoValues
  import opened GoMemory
  import opened Serialize
  import opened WireFormat
  import opened WireLaws
  import D = Deserialize

  // What decoding can touch

  /** Decoding writes only to what the destination reaches, and never makes a pointer. */
  lemma {:induction false} DecFrame(data: Data, ht: seq<Type>, t: Type, m: seq<Cell>, a: nat, index: nat)
    requires Typed(ht, m) && PlaceOf(ht, t, a) && index <= |data|
    ensures var m' := D.DecIn(data, ht, t, m, a, index).mem;
      && PointersShrink(m, m')
      && forall i :: 0 <= i < |m| && i !in Reach(ht, m, t, a) ==> m'[i] == m[i]
    decreases Depth(t), 1, 0
  {
    hide D.Dec, HasType;
    match t
    case TArray(n, e) => DecFrameSeq(data, ht, Repeat(n, e), m, a, index);
    case TStruct(fs) => DecFrameSeq(data, ht, fs, m, a, index);
    case TPtr(e) =>
      LeafCell(ht, m, t, a);
      if index < |data| && data[index] != 0 && m[a].Ref? {
        DecFrame(data, ht, e, m, m[a].target, index + 1);
      }
    case _ => LeafCell(ht, m, t, a);
  }

  lemma {:induction false} DecFrameSeq(data: Data, ht: seq<Type>, ts: seq<Type>, m: seq<Cell>, a: nat, index: nat)
    requires Typed(ht, m) && PlacesOf(ht, ts, a) && index <= |data|
    ensures var m' := D.DecInSeq(data, ht, ts, m, a, index).mem;
      && PointersShrink(m, m')
      && forall i :: 0 <= i < |m| && i !in ReachSeq(ht, m, ts, a) ==> m'[i] == m[i]
    decreases DepthSeq(ts), 2, |ts|
  {
    hide D.DecIn, Reach, Flat, Typed, PlaceOf, PlacesOf;
    if ts != [] {
      PlacesSplit(ht, ts, a);
      DecFrame(data, ht, ts[0], m, a, index);
      var first := D.DecIn(data, ht, ts[0], m, a, index);
      if first.status.At? {
        var next := a + |Flat(ts[0])|;
        DecFrameSeq(data, ht, ts[1..], first.mem, next, first.status.index);
        ReachSeqShrinks(ht, m, first.mem, ts[1..], next);
      }
    }
  }

  /** Refinement: where no cell is reached twice, decoding in memory is decoding of the value held there, for every
      byte string and every outcome. */
  lemma {:induction false} UnsharedRefines(data: Data, ht: seq<Type>, t: Type, m: seq<Cell>, a: nat, index: nat)
    requires Typed(ht, m) && PlaceOf(ht, t, a) && index <= |data| && Unshared(ht, m, t, a)
    ensures HasType(ValueAt(ht, m, t, a), t)
    ensures var r := D.DecIn(data, ht, t, m, a, index);
      D.Decoded(ValueAt(ht, r.mem, t, a), r.status) == D.Dec(data, t, ValueAt(ht, m, t, a), index)
    decreases Depth(t), 1, 0
  {
    ValueHasType(ht, m, t, a);
    match t
    case TArray(n, e) => UnsharedRefinesSeq(data, ht, Repeat(n, e), m, a, index);
    case TStruct(fs) => UnsharedRefinesSeq(data, ht, fs, m, a, index);
    case TPtr(e) =>
      LeafCell(ht, m, t, a);
      if index < |data| && data[index] != 0 && m[a].Ref? {
        DecFrame(data, ht, e, m, m[a].target, index + 1);
        UnsharedRefines(data, ht, e, m, m[a].target, index + 1);
      }
    case _ => LeafCell(ht, m, t, a);
  }

  lemma {:induction false} UnsharedRefinesSeq(data: Data, ht: seq<Type>, ts: seq<Type>, m: seq<Cell>, a: nat,
                                              index: nat)
    requires Typed(ht, m) && PlacesOf(ht, ts, a) && index <= |data| && UnsharedSeq(ht, m, ts, a)
    ensures HaveTypes(ValuesAt(ht, m, ts, a), ts)
    ensures var r := D.DecInSeq(data, ht, ts, m, a, index);
      D.DecodedSeq(ValuesAt(ht, r.mem, ts, a), r.status) == D.DecSeq(data, ts, ValuesAt(ht, m, ts, a), index)
    decreases DepthSeq(ts), 2, |ts|
  {
    hide D.DecIn, D.Dec, Reach, Unshared, ValueAt, Flat, Typed, PlaceOf, PlacesOf, HasType;
    ValuesHaveTypes(ht, m, ts, a);
    if ts != [] {
      PlacesSplit(ht, ts, a);
      var next := a + |Flat(ts[0])|;
      DecFrame(data, ht, ts[0], m, a, index);
      UnsharedRefines(data, ht, ts[0], m, a, index);
      var first := D.DecIn(data, ht, ts[0], m, a, index);
      AgreeSeq(ht, m, first.mem, ts[1..], next);
      if first.status.At? {
        UnsharedRefinesSeq(data, ht, ts[1..], first.mem, next, first.status.index);
        DecFrameSeq(data, ht, ts[1..], first.mem, next, first.status.index);
        ReachShrinks(ht, m, first.mem, ts[0], a);
        var rest := D.DecInSeq(data, ht, ts[1..], first.mem, next, first.status.index);
        Agree(ht, first.mem, rest.mem, ts[0], a);
      }
    }
  }

  // Exactly when a value survives

  /** A cell and what has to be in it. */
  datatype Use = Use(cell: nat, content: Cell)

  /** What it takes for the place at a to hold v: its leaves, and the pointers on the way to them as they are. */
  ghost function Uses(ht: seq<Type>, m: seq<Cell>, t: Type, a: nat, v: Value): set<Use>
    requires Typed(ht, m) && PlaceOf(ht, t, a) && HasType(v, t) && Covers(v, ValueAt(ht, m, t, a))
    decreases Depth(t), 1, 0
  {
    match t
    case TArray(n, e) => UsesSeq(ht, m, Repeat(n, e), a, v.elems)
    case TStruct(fs) => UsesSeq(ht, m, fs, a, v.fields)
    case TPtr(e) =>
      LeafCell(ht, m, t, a);
      if v.VNil? then {Use(a, Nil)} else {Use(a, m[a])} + Uses(ht, m, e, m[a].target, v.target)
    case _ => {Use(a, Leaf(v))}
  }

  ghost function UsesSeq(ht: seq<Type>, m: seq<Cell>, ts: seq<Type>, a: nat, vs: seq<Value>): set<Use>
    requires Typed(ht, m) && PlacesOf(ht, ts, a) && HaveTypes(vs, ts) && CoversSeq(vs, ValuesAt(ht, m, ts, a))
    decreases DepthSeq(ts), 2, |ts|
  {
    if ts == [] then {} else
    PlacesSplit(ht, ts, a);
    Uses(ht, m, ts[0], a, vs[0]) + UsesSeq(ht, m, ts[1..], a + |Flat(ts[0])|, vs[1..])
  }

  /** No cell has to hold two different things. */
  ghost predicate Consistent(us: set<Use>) {
    forall x, y :: x in us && y in us && x.cell == y.cell ==> x.content == y.content
  }

  ghost predicate Holds(us: set<Use>, m: seq<Cell>) {
    forall u :: u in us ==> u.cell < |m| && m[u.cell] == u.content
  }

  /** The pointers on the way are as before. */
  ghost predicate KeepsPointers(us: set<Use>, m: seq<Cell>) {
    forall u :: u in us && u.content.Ref? ==> u.cell < |m| && m[u.cell] == u.content
  }

  lemma {:induction false} UsesStable(ht: seq<Type>, m: seq<Cell>, m': seq<Cell>, t: Type, a: nat, v: Value)
    requires Typed(ht, m) && PlaceOf(ht, t, a) && HasType(v, t) && Covers(v, ValueAt(ht, m, t, a))
    requires Typed(ht, m') && KeepsPointers(Uses(ht, m, t, a, v), m')
    ensures Covers(v, ValueAt(ht, m', t, a)) && Uses(ht, m', t, a, v) == Uses(ht, m, t, a, v)
    decreases Depth(t), 1, 0
  {
    match t
    case TArray(n, e) => UsesSeqStable(ht, m, m', Repeat(n, e), a, v.elems);
    case TStruct(fs) => UsesSeqStable(ht, m, m', fs, a, v.fields);
    case TPtr(e) =>
      LeafCell(ht, m, t, a);
      if v.VPtr? {
        assert Use(a, m[a]) in Uses(ht, m, t, a, v);
        UsesStable(ht, m, m', e, m[a].target, v.target);
      }
    case _ =>
  }

  lemma {:induction false} UsesSeqStable(ht: seq<Type>, m: seq<Cell>, m': seq<Cell>, ts: seq<Type>, a: nat,
                                         vs: seq<Value>)
    requires Typed(ht, m) && PlacesOf(ht, ts, a) && HaveTypes(vs, ts) && CoversSeq(vs, ValuesAt(ht, m, ts, a))
    requires Typed(ht, m') && KeepsPointers(UsesSeq(ht, m, ts, a, vs), m')
    ensures CoversSeq(vs, ValuesAt(ht, m', ts, a)) && UsesSeq(ht, m', ts, a, vs) == UsesSeq(ht, m, ts, a, vs)
    decreases DepthSeq(ts), 2, |ts|
  {
    hide ValueAt, Uses, Covers, Flat, Typed, PlaceOf, PlacesOf, HasType;
    if ts != [] {
      PlacesSplit(ht, ts, a);
      UsesStable(ht, m, m', ts[0], a, vs[0]);
      UsesSeqStable(ht, m, m', ts[1..], a + |Flat(ts[0])|, vs[1..]);
    }
  }

  /** A memory in which all uses of v hold has v there. */
  lemma {:induction false} HoldsValue(ht: seq<Type>, m: seq<Cell>, m': seq<Cell>, t: Type, a: nat, v: Value)
    requires Typed(ht, m) && PlaceOf(ht, t, a) && HasType(v, t) && Covers(v, ValueAt(ht, m, t, a))
    requires Typed(ht, m') && Holds(Uses(ht, m, t, a, v), m')
    ensures ValueAt(ht, m', t, a) == v
    decreases Depth(t), 1, 0
  {
    match t
    case TArray(n, e) => HoldsValues(ht, m, m', Repeat(n, e), a, v.elems);
    case TStruct(fs) => HoldsValues(ht, m, m', fs, a, v.fields);
    case TPtr(e) =>
      LeafCell(ht, m, t, a);
      if v.VPtr? {
        assert Use(a, m[a]) in Uses(ht, m, t, a, v);
        HoldsValue(ht, m, m', e, m[a].target, v.target);
      } else {
        assert Use(a, Nil) in Uses(ht, m, t, a, v);
      }
    case _ => assert Use(a, Leaf(v)) in Uses(ht, m, t, a, v);
  }

  lemma {:induction false} HoldsValues(ht: seq<Type>, m: seq<Cell>, m': seq<Cell>, ts: seq<Type>, a: nat,
                                       vs: seq<Value>)
    requires Typed(ht, m) && PlacesOf(ht, ts, a) && HaveTypes(vs, ts) && CoversSeq(vs, ValuesAt(ht, m, ts, a))
    requires Typed(ht, m') && Holds(UsesSeq(ht, m, ts, a, vs), m')
    ensures ValuesAt(ht, m', ts, a) == vs
    decreases DepthSeq(ts), 2, |ts|
  {
    hide ValueAt, Uses, Covers, Flat, Typed, PlaceOf, PlacesOf, HasType;
    if ts != [] {
      PlacesSplit(ht, ts, a);
      HoldsValue(ht, m, m', ts[0], a, vs[0]);
      HoldsValues(ht, m, m', ts[1..], a + |Flat(ts[0])|, vs[1..]);
      assert vs == [vs[0]] + vs[1..];
    }
  }

  /** Losing pointers covers no more values; and if v is there afterwards, all its uses hold. */
  lemma {:induction false} Shrinks(ht: seq<Type>, m: seq<Cell>, m': seq<Cell>, t: Type, a: nat, v: Value)
    requires Typed(ht, m) && Typed(ht, m') && PlaceOf(ht, t, a) && HasType(v, t) && PointersShrink(m, m')
    ensures Covers(v, ValueAt(ht, m', t, a)) ==> Covers(v, ValueAt(ht, m, t, a))
    ensures ValueAt(ht, m', t, a) == v ==> Covers(v, ValueAt(ht, m, t, a)) && Holds(Uses(ht, m, t, a, v), m')
    decreases Depth(t), 1, 0
  {
    match t
    case TArray(n, e) => ShrinksSeq(ht, m, m', Repeat(n, e), a, v.elems);
    case TStruct(fs) => ShrinksSeq(ht, m, m', fs, a, v.fields);
    case TPtr(e) =>
      LeafCell(ht, m, t, a);
      if v.VPtr? && m'[a].Ref? {
        Shrinks(ht, m, m', e, m[a].target, v.target);
      }
    case _ => LeafCell(ht, m', t, a);
  }

  lemma {:induction false} ShrinksSeq(ht: seq<Type>, m: seq<Cell>, m': seq<Cell>, ts: seq<Type>, a: nat,
                                      vs: seq<Value>)
    requires Typed(ht, m) && Typed(ht, m') && PlacesOf(ht, ts, a) && HaveTypes(vs, ts) && PointersShrink(m, m')
    ensures CoversSeq(vs, ValuesAt(ht, m', ts, a)) ==> CoversSeq(vs, ValuesAt(ht, m, ts, a))
    ensures ValuesAt(ht, m', ts, a) == vs ==>
      CoversSeq(vs, ValuesAt(ht, m, ts, a)) && Holds(UsesSeq(ht, m, ts, a, vs), m')
    decreases DepthSeq(ts), 2, |ts|
  {
    hide ValueAt, Uses, Covers, Flat, Typed, PlaceOf, PlacesOf, HasType;
    if ts != [] {
      PlacesSplit(ht, ts, a);
      Shrinks(ht, m, m', ts[0], a, vs[0]);
      ShrinksSeq(ht, m, m', ts[1..], a + |Flat(ts[0])|, vs[1..]);
      var vs' := ValuesAt(ht, m', ts, a);
      assert vs' == vs ==> vs'[0] == vs[0] && vs'[1..] == vs[1..];
      assert vs'[1..] == ValuesAt(ht, m', ts[1..], a + |Flat(ts[0])|);
    }
  }

  lemma DecLeaf(data: Data, ht: seq<Type>, t: Type, m: seq<Cell>, a: nat, v: Value, b: seq<byte>, index: nat)
    requires Typed(ht, m) && PlaceOf(ht, t, a) && HasType(v, t) && IsLeaf(t) && !t.TPtr?
    requires Wire(Reader, t, v, b) && StandsAt(b, data, index)
    ensures Covers(v, ValueAt(ht, m, t, a)) && a < |m|
    ensures D.DecIn(data, ht, t, m, a, index) == D.Stored(m[a := Leaf(v)], D.At(index + |b|))
  {
    LeafCell(ht, m, t, a);
    DecOnWire(t, v, b, m[a].v, data, index);
  }

  /** Decoding an encoding ends right behind it, if the destination has the pointers it needs, or in an error. */
  lemma {:induction false} DecCovers(data: Data, ht: seq<Type>, t: Type, m: seq<Cell>, a: nat, v: Value,
                                     b: seq<byte>, index: nat)
    requires Typed(ht, m) && PlaceOf(ht, t, a) && HasType(v, t)
    requires Wire(Reader, t, v, b) && StandsAt(b, data, index)
    ensures var r := D.DecIn(data, ht, t, m, a, index);
      (r.status == D.At(index + |b|) && Covers(v, ValueAt(ht, m, t, a))) || r.status == D.Error
    decreases Depth(t), 1, 0
  {
    hide D.Dec, D.SliceEnd, D.OfBytes, StandsAt, Typed, Encode, Pow2;
    match t
    case TArray(n, e) => DecCoversSeq(data, ht, Repeat(n, e), m, a, v.elems, b, index);
    case TStruct(fs) => DecCoversSeq(data, ht, fs, m, a, v.fields, b, index);
    case TPtr(_) => DecCoversPtr(data, ht, t, m, a, v, b, index);
    case TOther =>
    case _ => DecLeaf(data, ht, t, m, a, v, b, index);
  }

  lemma {:induction false} DecCoversPtr(data: Data, ht: seq<Type>, t: Type, m: seq<Cell>, a: nat, v: Value,
                                        b: seq<byte>, index: nat)
    requires t.TPtr?
    requires Typed(ht, m) && PlaceOf(ht, t, a) && HasType(v, t)
    requires Wire(Reader, t, v, b) && StandsAt(b, data, index)
    ensures var r := D.DecIn(data, ht, t, m, a, index);
      (r.status == D.At(index + |b|) && Covers(v, ValueAt(ht, m, t, a))) || r.status == D.Error
    decreases Depth(t), 0, 0
  {
    LeafCell(ht, m, t, a);
    assert data[index] == b[0];
    if v.VPtr? && m[a].Ref? {
      assert b == [b[0]] + b[1..];
      StandsSplit([b[0]], b[1..], data, index);
      DecCovers(data, ht, t.elem, m, m[a].target, v.target, b[1..], index + 1);
    }
  }

  lemma {:induction false} DecCoversSeq(data: Data, ht: seq<Type>, ts: seq<Type>, m: seq<Cell>, a: nat,
                                        vs: seq<Value>, b: seq<byte>, index: nat)
    requires Typed(ht, m) && PlacesOf(ht, ts, a) && HaveTypes(vs, ts)
    requires WireSeq(Reader, ts, vs, b) && StandsAt(b, data, index)
    ensures var r := D.DecInSeq(data, ht, ts, m, a, index);
      (r.status == D.At(index + |b|) && CoversSeq(vs, ValuesAt(ht, m, ts, a))) || r.status == D.Error
    decreases DepthSeq(ts), 2, |ts|
  {
    hide ValueAt, Wire, StandsAt, D.DecIn, Covers, Flat, Typed, PlaceOf, PlacesOf, HasType;
    StandsInside(b, data, index);
    if ts != [] {
      PlacesSplit(ht, ts, a);
      var next := a + |Flat(ts[0])|;
      var k := Split(Reader, ts, vs, b);
      StandsSplit(b[..k], b[k..], data, index);
      DecCovers(data, ht, ts[0], m, a, vs[0], b[..k], index);
      var first := D.DecIn(data, ht, ts[0], m, a, index);
      if first.status.At? {
        DecCoversSeq(data, ht, ts[1..], first.mem, next, vs[1..], b[k..], index + k);
        DecFrame(data, ht, ts[0], m, a, index);
        ShrinksSeq(ht, m, first.mem, ts[1..], next, vs[1..]);
      }
    }
  }

  /** Only uses are written. */
  ghost predicate WritesOnly(us: set<Use>, m: seq<Cell>, m': seq<Cell>) {
    |m'| == |m| && forall i :: 0 <= i < |m| ==> m'[i] == m[i] || Use(i, m'[i]) in us
  }

  lemma ConsistentParts(us0: set<Use>, us1: set<Use>)
    requires Consistent(us0 + us1)
    ensures Consistent(us0) && Consistent(us1)
  {
    forall x, y | (x in us0 && y in us0) || (x in us1 && y in us1) ensures x.cell == y.cell ==> x.content == y.content {
      assert x in us0 + us1 && y in us0 + us1;
    }
  }

  lemma StillInPlace(us0: set<Use>, us1: set<Use>, m: seq<Cell>, m0: seq<Cell>)
    requires Consistent(us0 + us1) && WritesOnly(us0, m, m0) && KeepsPointers(us1, m)
    ensures KeepsPointers(us1, m0)
  {}

  lemma NothingInPlace(m: seq<Cell>)
    ensures Holds({}, m) && WritesOnly({}, m, m)
  {}

  lemma BothInPlace(us0: set<Use>, us1: set<Use>, m: seq<Cell>, m0: seq<Cell>, m1: seq<Cell>)
    requires Consistent(us0 + us1)
    requires Holds(us0, m0) && WritesOnly(us0, m, m0) && Holds(us1, m1) && WritesOnly(us1, m0, m1)
    ensures Holds(us0 + us1, m1) && WritesOnly(us0 + us1, m, m1)
  {}

  lemma DecUsesLeaf(data: Data, ht: seq<Type>, t: Type, m: seq<Cell>, a: nat, v: Value, b: seq<byte>, index: nat)
    requires Typed(ht, m) && PlaceOf(ht, t, a) && HasType(v, t) && IsLeaf(t) && !t.TPtr?
    requires Wire(Reader, t, v, b) && StandsAt(b, data, index)
    ensures Covers(v, ValueAt(ht, m, t, a))
    ensures var r, us := D.DecIn(data, ht, t, m, a, index), Uses(ht, m, t, a, v);
      r.status == D.At(index + |b|) && Holds(us, r.mem) && WritesOnly(us, m, r.mem)
  {
    DecLeaf(data, ht, t, m, a, v, b, index);
  }

  /** If v needs no cell to hold two different things, decoding its encoding puts every use in place. */
  lemma {:induction false} DecUses(data: Data, ht: seq<Type>, t: Type, m: seq<Cell>, a: nat, v: Value,
                                   b: seq<byte>, index: nat)
    requires Typed(ht, m) && PlaceOf(ht, t, a) && HasType(v, t)
    requires Wire(Reader, t, v, b) && StandsAt(b, data, index)
    requires Covers(v, ValueAt(ht, m, t, a)) && Consistent(Uses(ht, m, t, a, v))
    ensures var r, us := D.DecIn(data, ht, t, m, a, index), Uses(ht, m, t, a, v);
      r.status == D.At(index + |b|) && Holds(us, r.mem) && WritesOnly(us, m, r.mem)
    decreases Depth(t), 1, 0
  {
    hide D.Dec, D.SliceEnd, D.OfBytes, Consistent, Holds, WritesOnly, StandsAt, Typed, Encode, Pow2;
    match t
    case TArray(n, e) => DecUsesSeq(data, ht, Repeat(n, e), m, a, v.elems, b, index);
    case TStruct(fs) => DecUsesSeq(data, ht, fs, m, a, v.fields, b, index);
    case TPtr(_) => DecUsesPtr(data, ht, t, m, a, v, b, index);
    case TOther =>
    case _ => DecUsesLeaf(data, ht, t, m, a, v, b, index);
  }

  lemma {:induction false} DecUsesPtr(data: Data, ht: seq<Type>, t: Type, m: seq<Cell>, a: nat, v: Value,
                                      b: seq<byte>, index: nat)
    requires t.TPtr?
    requires Typed(ht, m) && PlaceOf(ht, t, a) && HasType(v, t)
    requires Wire(Reader, t, v, b) && StandsAt(b, data, index)
    requires Covers(v, ValueAt(ht, m, t, a)) && Consistent(Uses(ht, m, t, a, v))
    ensures var r, us := D.DecIn(data, ht, t, m, a, index), Uses(ht, m, t, a, v);
      r.status == D.At(index + |b|) && Holds(us, r.mem) && WritesOnly(us, m, r.mem)
    decreases Depth(t), 0, 0
  {
    LeafCell(ht, m, t, a);
    assert data[index] == b[0];
    if v.VPtr? {
      assert b == [b[0]] + b[1..];
      StandsSplit([b[0]], b[1..], data, index);
      var us := Uses(ht, m, t, a, v);
      assert Use(a, m[a]) in us;
      DecUses(data, ht, t.elem, m, m[a].target, v.target, b[1..], index + 1);
    }
  }

  lemma {:induction false} DecUsesSeq(data: Data, ht: seq<Type>, ts: seq<Type>, m: seq<Cell>, a: nat,
                                      vs: seq<Value>, b: seq<byte>, index: nat)
    requires Typed(ht, m) && PlacesOf(ht, ts, a) && HaveTypes(vs, ts)
    requires WireSeq(Reader, ts, vs, b) && StandsAt(b, data, index)
    requires CoversSeq(vs, ValuesAt(ht, m, ts, a)) && Consistent(UsesSeq(ht, m, ts, a, vs))
    ensures var r, us := D.DecInSeq(data, ht, ts, m, a, index), UsesSeq(ht, m, ts, a, vs);
      r.status == D.At(index + |b|) && Holds(us, r.mem) && WritesOnly(us, m, r.mem)
    decreases DepthSeq(ts), 2, |ts|
  {
    hide ValueAt, Uses, Wire, D.DecIn, Covers, Flat, Typed, PlaceOf, PlacesOf, HasType;
    hide Consistent, Holds, WritesOnly, KeepsPointers, StandsAt;
    StandsInside(b, data, index);
    if ts == [] {
      NothingInPlace(m);
    } else {
      PlacesSplit(ht, ts, a);
      var next := a + |Flat(ts[0])|;
      var k := Split(Reader, ts, vs, b);
      StandsSplit(b[..k], b[k..], data, index);
      var us0, us1 := Uses(ht, m, ts[0], a, vs[0]), UsesSeq(ht, m, ts[1..], next, vs[1..]);
      ConsistentParts(us0, us1);
      DecUses(data, ht, ts[0], m, a, vs[0], b[..k], index);
      var m0 := D.DecIn(data, ht, ts[0], m, a, index).mem;
      UsesInPlace(ht, m, ts[1..], next, vs[1..]);
      StillInPlace(us0, us1, m, m0);
      UsesSeqStable(ht, m, m0, ts[1..], next, vs[1..]);
      DecUsesSeq(data, ht, ts[1..], m0, next, vs[1..], b[k..], index + k);
      var r := D.DecInSeq(data, ht, ts[1..], m0, next, index + k);
      BothInPlace(us0, us1, m, m0, r.mem);
      assert UsesSeq(ht, m, ts, a, vs) == us0 + us1;
      assert D.DecInSeq(data, ht, ts, m, a, index) == r;
    }
  }

  /** The pointers in uses are those in memory. */
  lemma {:induction false} UseInPlace(ht: seq<Type>, m: seq<Cell>, t: Type, a: nat, v: Value)
    requires Typed(ht, m) && PlaceOf(ht, t, a) && HasType(v, t) && Covers(v, ValueAt(ht, m, t, a))
    ensures KeepsPointers(Uses(ht, m, t, a, v), m)
    decreases Depth(t), 1, 0
  {
    match t
    case TArray(n, e) => UsesInPlace(ht, m, Repeat(n, e), a, v.elems);
    case TStruct(fs) => UsesInPlace(ht, m, fs, a, v.fields);
    case TPtr(e) =>
      LeafCell(ht, m, t, a);
      if v.VPtr? {
        UseInPlace(ht, m, e, m[a].target, v.target);
      }
    case _ =>
  }

  lemma {:induction false} UsesInPlace(ht: seq<Type>, m: seq<Cell>, ts: seq<Type>, a: nat, vs: seq<Value>)
    requires Typed(ht, m) && PlacesOf(ht, ts, a) && HaveTypes(vs, ts) && CoversSeq(vs, ValuesAt(ht, m, ts, a))
    ensures KeepsPointers(UsesSeq(ht, m, ts, a, vs), m)
    decreases DepthSeq(ts), 2, |ts|
  {
    hide ValueAt, Uses, Covers, Flat, Typed, PlaceOf, PlacesOf, HasType;
    if ts != [] {
      PlacesSplit(ht, ts, a);
      UseInPlace(ht, m, ts[0], a, vs[0]);
      UsesInPlace(ht, m, ts[1..], a + |Flat(ts[0])|, vs[1..]);
    }
  }

  /** The destination has a pointer wherever v does, and no cell would have to hold two different things. */
  ghost predicate Fits(ht: seq<Type>, m: seq<Cell>, t: Type, a: nat, v: Value)
    requires Typed(ht, m) && PlaceOf(ht, t, a) && HasType(v, t)
  {
    Covers(v, ValueAt(ht, m, t, a)) && Consistent(Uses(ht, m, t, a, v))
  }

  /** Decoding into destinations of any shape, with pointers that share targets or point into each other: after decoding
      what stands for v, v is there exactly if it fits the destination. Decoding then ends right behind it. If a pointer
      is missing it is an error; if v asks two things of a cell it is an error, or another value is there. */
  lemma DecodesExact(data: Data, ht: seq<Type>, t: Type, m: seq<Cell>, a: nat, v: Value, b: seq<byte>, index: nat)
    requires Typed(ht, m) && PlaceOf(ht, t, a) && HasType(v, t)
    requires Wire(Reader, t, v, b) && StandsAt(b, data, index)
    ensures var r := D.DecIn(data, ht, t, m, a, index);
      && (ValueAt(ht, r.mem, t, a) == v <==> Fits(ht, m, t, a, v))
      && (Fits(ht, m, t, a, v) ==> r.status == D.At(index + |b|))
      && (!Covers(v, ValueAt(ht, m, t, a)) ==> r.status == D.Error)
      && (r.status == D.At(index + |b|) || r.status == D.Error)
  {
    hide ValueAt, Uses, Wire, D.DecIn, Covers, Typed, PlaceOf, HasType, StandsAt;
    StandsInside(b, data, index);
    var m' := D.DecIn(data, ht, t, m, a, index).mem;
    DecCovers(data, ht, t, m, a, v, b, index);
    DecFrame(data, ht, t, m, a, index);
    Shrinks(ht, m, m', t, a, v);
    if Fits(ht, m, t, a, v) {
      DecUses(data, ht, t, m, a, v, b, index);
      HoldsValue(ht, m, m', t, a, v);
    }
  }

  /** Round trip: the same for the encoding of v. */
  lemma RoundTripExact(data: Data, ht: seq<Type>, t: Type, m: seq<Cell>, a: nat, v: Value, index: nat)
    requires Typed(ht, m) && PlaceOf(ht, t, a) && HasType(v, t)
    requires Enc(t, v).Bytes? && StandsAt(Enc(t, v).b, data, index)
    ensures var r := D.DecIn(data, ht, t, m, a, index);
      && (ValueAt(ht, r.mem, t, a) == v <==> Fits(ht, m, t, a, v))
      && (Fits(ht, m, t, a, v) ==> r.status == D.At(index + |Enc(t, v).b|))
      && (!Covers(v, ValueAt(ht, m, t, a)) ==> r.status == D.Error)
      && (r.status == D.At(index + |Enc(t, v).b|) || r.status == D.Error)
  {
    hide ValueAt, Uses, Enc, Wire, D.DecIn, Covers, Typed, PlaceOf, HasType, Fits;
    EncOnWire(t, v, Enc(t, v).b);
    ReaderTakes(t, v, Enc(t, v).b);
    DecodesExact(data, ht, t, m, a, v, Enc(t, v).b, index);
  }

  /** Without sharing, a value fits wherever its pointers are covered. */
  lemma UnsharedFits(ht: seq<Type>, m: seq<Cell>, t: Type, a: nat, v: Value)
    requires Typed(ht, m) && PlaceOf(ht, t, a) && HasType(v, t) && Unshared(ht, m, t, a)
    ensures Fits(ht, m, t, a, v) <==> Covers(v, ValueAt(ht, m, t, a))
  {
    if Covers(v, ValueAt(ht, m, t, a)) {
      UnsharedIsConsistent(ht, m, t, a, v);
    }
  }

  /** The cells of the uses are reached, and each in one way. */
  lemma {:induction false} UnsharedIsConsistent(ht: seq<Type>, m: seq<Cell>, t: Type, a: nat, v: Value)
    requires Typed(ht, m) && PlaceOf(ht, t, a) && HasType(v, t) && Covers(v, ValueAt(ht, m, t, a))
    requires Unshared(ht, m, t, a)
    ensures forall u :: u in Uses(ht, m, t, a, v) ==> u.cell in Reach(ht, m, t, a)
    ensures Consistent(Uses(ht, m, t, a, v))
    decreases Depth(t), 1, 0
  {
    match t
    case TArray(n, e) => UnsharedSeqIsConsistent(ht, m, Repeat(n, e), a, v.elems);
    case TStruct(fs) => UnsharedSeqIsConsistent(ht, m, fs, a, v.fields);
    case TPtr(e) =>
      LeafCell(ht, m, t, a);
      if v.VPtr? {
        UnsharedIsConsistent(ht, m, e, m[a].target, v.target);
      }
    case _ =>
  }

  lemma {:induction false} UnsharedSeqIsConsistent(ht: seq<Type>, m: seq<Cell>, ts: seq<Type>, a: nat, vs: seq<Value>)
    requires Typed(ht, m) && PlacesOf(ht, ts, a) && HaveTypes(vs, ts) && CoversSeq(vs, ValuesAt(ht, m, ts, a))
    requires UnsharedSeq(ht, m, ts, a)
    ensures forall u :: u in UsesSeq(ht, m, ts, a, vs) ==> u.cell in ReachSeq(ht, m, ts, a)
    ensures Consistent(UsesSeq(ht, m, ts, a, vs))
    decreases DepthSeq(ts), 2, |ts|
  {
    hide ValueAt, Uses, Reach, Unshared, Covers, Flat, Typed, PlaceOf, PlacesOf, HasType;
    if ts != [] {
      PlacesSplit(ht, ts, a);
      UnsharedIsConsistent(ht, m, ts[0], a, vs[0]);
      UnsharedSeqIsConsistent(ht, m, ts[1..], a + |Flat(ts[0])|, vs[1..]);
    }
  }

  // What goes wrong with sharing

  const BYTE_PTR := TPtr(U8)
  const PAIR := TStruct([BYTE_PTR, BYTE_PTR])
  const PAIR_CELLS := [BYTE_PTR, BYTE_PTR, U8]

  /** A pair of pointers to the same byte behind them. */
  function SharedPair(b: byte): seq<Cell> {
    [Ref(2), Ref(2), Leaf(VInt(b))]
  }

  function PairOf(x: byte, y: byte): Value {
    VStruct([VPtr(VInt(x)), VPtr(VInt(y))])
  }

  lemma PairPlaces(b: byte)
    ensures Typed(PAIR_CELLS, SharedPair(b))
    ensures PlaceOf(PAIR_CELLS, PAIR, 0) && PlacesOf(PAIR_CELLS, [BYTE_PTR, BYTE_PTR], 0)
    ensures PlaceOf(PAIR_CELLS, BYTE_PTR, 1) && PlaceOf(PAIR_CELLS, U8, 2) && |Flat(BYTE_PTR)| == 1
  {
    var ts := [BYTE_PTR, BYTE_PTR];
    assert ts[1..] == [BYTE_PTR] && ts[1..][1..] == [];
    assert FlatSeq(ts[1..]) == [BYTE_PTR] + FlatSeq([]);
    assert FlatSeq(ts) == [BYTE_PTR] + FlatSeq(ts[1..]);
    U8Range(VInt(b));
  }

  lemma BytePtrEncodes(x: byte)
    ensures HasType(VPtr(VInt(x)), BYTE_PTR) && Enc(BYTE_PTR, VPtr(VInt(x))) == Bytes([1, x])
  {
    hide Pow2, Encode;
    U8Range(VInt(x));
    ByteOf(VInt(x));
  }

  lemma PairEncodes(x: byte, y: byte)
    ensures HasType(PairOf(x, y), PAIR) && Enc(PAIR, PairOf(x, y)) == Bytes([1, x, 1, y])
  {
    BytePtrsEncode(x, y);
    assert PAIR.fields == [BYTE_PTR, BYTE_PTR];
  }

  lemma BytePtrsEncode(x: byte, y: byte)
    ensures var ts, vs := [BYTE_PTR, BYTE_PTR], PairOf(x, y).fields;
      HaveTypes(vs, ts) && EncSeq(ts, vs) == Bytes([1, x, 1, y])
  {
    hide HasType, Enc;
    var ts, vs := [BYTE_PTR, BYTE_PTR], PairOf(x, y).fields;
    BytePtrEncodes(x);
    BytePtrEncodes(y);
    assert ts[1..] == [BYTE_PTR] && vs[1..] == [VPtr(VInt(y))];
    assert HaveTypes([], []);
    assert HaveTypes(vs[1..], ts[1..]);
    assert EncSeq(ts[1..], vs[1..]) == Bytes([1, y] + []);
  }

  lemma DecShared(data: Data, p: nat, b: byte, index: nat)
    requires p < 2 && index + 2 <= |data| && data[index] != 0
    ensures Typed(PAIR_CELLS, SharedPair(b)) && PlaceOf(PAIR_CELLS, BYTE_PTR, p)
    ensures D.DecIn(data, PAIR_CELLS, BYTE_PTR, SharedPair(b), p, index) ==
      D.Stored(SharedPair(data[index + 1]), D.At(index + 2))
  {
    var next := data[index + 1];
    PairPlaces(b);
    PlacesSplit(PAIR_CELLS, PAIR.fields, 0);
    EncodeDecode(data[index + 1..index + 2]);
    assert Decode(data[index + 1..index + 2]) == next;
    hide Typed, PlaceOf, HasType, Decode;
    assert SharedPair(b)[2 := Leaf(VInt(next))] == SharedPair(next);
    assert D.DecIn(data, PAIR_CELLS, U8, SharedPair(b), 2, index + 1) == D.Stored(SharedPair(next), D.At(index + 2));
  }

  /** Two pointers to one byte: of the encoding of x and y only the last survives, without any error. */
  lemma SharedTarget(b: byte, x: byte, y: byte)
    ensures Typed(PAIR_CELLS, SharedPair(b)) && PlaceOf(PAIR_CELLS, PAIR, 0)
    ensures HasType(PairOf(x, y), PAIR) && Enc(PAIR, PairOf(x, y)) == Bytes([1, x, 1, y])
    ensures D.DecIn([1, x, 1, y], PAIR_CELLS, PAIR, SharedPair(b), 0, 0) == D.Stored(SharedPair(y), D.At(4))
  {
    hide Typed, PlaceOf, HasType, Enc, Flat, D.Dec;
    PairPlaces(b);
    PairEncodes(x, y);
    DecSharedPair([1, x, 1, y], b);
  }

  lemma DecSharedPair(data: Data, b: byte)
    requires |data| == 4 && data[0] == data[2] == 1
    ensures Typed(PAIR_CELLS, SharedPair(b)) && PlacesOf(PAIR_CELLS, [BYTE_PTR, BYTE_PTR], 0)
    ensures D.DecInSeq(data, PAIR_CELLS, [BYTE_PTR, BYTE_PTR], SharedPair(b), 0, 0) ==
      D.Stored(SharedPair(data[3]), D.At(4))
  {
    hide Typed, PlaceOf, PlacesOf, Flat, D.DecIn;
    var ht, ts := PAIR_CELLS, [BYTE_PTR, BYTE_PTR];
    assert ts[1..] == [BYTE_PTR] && ts[1..][1..] == [];
    PairPlaces(b);
    DecShared(data, 0, b, 0);
    DecShared(data, 1, data[1], 2);
    PlacesSplit(ht, ts, 0);
    assert D.DecInSeq(data, ht, ts[1..], SharedPair(data[1]), 1, 2) == D.Stored(SharedPair(data[3]), D.At(4));
  }

  /** So exactly the pairs of equal bytes fit that destination. */
  lemma SharedPairFits(b: byte, x: byte, y: byte)
    ensures Typed(PAIR_CELLS, SharedPair(b)) && PlaceOf(PAIR_CELLS, PAIR, 0) && HasType(PairOf(x, y), PAIR)
    ensures Fits(PAIR_CELLS, SharedPair(b), PAIR, 0, PairOf(x, y)) <==> x == y
  {
    var data: Data := [1, x, 1, y];
    assert data[0..4] == data;
    SharedTarget(b, x, y);
    SharedPairValue(y);
    hide Typed, PlaceOf, HasType, Enc, ValueAt, Fits;
    RoundTripExact(data, PAIR_CELLS, PAIR, SharedPair(b), 0, PairOf(x, y), 0);
    assert x != y ==> PairOf(x, y).fields[0] != PairOf(y, y).fields[0];
  }

  lemma SharedPairValue(b: byte)
    ensures Typed(PAIR_CELLS, SharedPair(b)) && PlaceOf(PAIR_CELLS, PAIR, 0)
    ensures ValueAt(PAIR_CELLS, SharedPair(b), PAIR, 0) == PairOf(b, b)
  {
    var ht, m, ts := PAIR_CELLS, SharedPair(b), [BYTE_PTR, BYTE_PTR];
    assert ts[1..] == [BYTE_PTR] && ts[1..][1..] == [] && PAIR.fields == ts;
    PairPlaces(b);
    PlacesSplit(ht, ts, 0);
    PlacesSplit(ht, ts[1..], 1);
    assert ValueAt(ht, m, BYTE_PTR, 0) == VPtr(VInt(b)) && ValueAt(ht, m, BYTE_PTR, 1) == VPtr(VInt(b));
    assert ValuesAt(ht, m, ts[1..], 1) == [VPtr(VInt(b))] + [];
  }
}
