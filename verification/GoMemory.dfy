/** The memory that a destination lives in: typed cells with addresses, so that pointers may share their targets. */
module GoMemory {
  import opened GoValues

  /** One cell: a value without addressable parts, or a pointer. */
  datatype Cell = Leaf(v: Value) | Nil | Ref(target: nat)

  predicate IsLeaf(t: Type) {
    !t.TArray? && !t.TStruct?
  }

  /** The types of the cells of a variable of type t: structs and arrays lie flat. */
  function Flat(t: Type): (ts: seq<Type>)
    ensures IsLeaf(t) ==> ts == [t]
    decreases Depth(t), 1, 0
  {
    match t
    case TArray(n, e) => FlatSeq(Repeat(n, e))
    case TStruct(fs) => FlatSeq(fs)
    case _ => [t]
  }

  function FlatSeq(ts: seq<Type>): seq<Type>
    decreases DepthSeq(ts), 2, |ts|
  {
    if ts == [] then [] else Flat(ts[0]) + FlatSeq(ts[1..])
  }

  /** In a memory of the cell types ht the cells from a on hold a variable of type t. */
  predicate PlaceOf(ht: seq<Type>, t: Type, a: nat) {
    a <= |ht| && Flat(t) <= ht[a..]
  }

  /** They hold variables of the types ts, one after the other. */
  predicate PlacesOf(ht: seq<Type>, ts: seq<Type>, a: nat) {
    a <= |ht| && FlatSeq(ts) <= ht[a..]
  }

  /** A pointer is nil or points to a place of its element type, which may lie inside another variable. */
  ghost predicate CellHasType(ht: seq<Type>, c: Cell, t: Type) {
    if t.TPtr? then c.Nil? || (c.Ref? && PlaceOf(ht, t.elem, c.target)) else c.Leaf? && HasType(c.v, t)
  }

  ghost predicate Typed(ht: seq<Type>, m: seq<Cell>) {
    |m| == |ht| && forall i :: 0 <= i < |m| ==> CellHasType(ht, m[i], ht[i])
  }

  lemma LeafPlace(ht: seq<Type>, t: Type, a: nat)
    requires IsLeaf(t) && PlaceOf(ht, t, a)
    ensures a < |ht| && ht[a] == t
  {
    assert Flat(t)[0] == t;
  }

  lemma LeafCell(ht: seq<Type>, m: seq<Cell>, t: Type, a: nat)
    requires Typed(ht, m) && IsLeaf(t) && PlaceOf(ht, t, a)
    ensures a < |m| && CellHasType(ht, m[a], t)
  {
    LeafPlace(ht, t, a);
  }

  /** A struct or array is a place for each of its parts. */
  lemma Parts(ht: seq<Type>, t: Type, a: nat)
    requires PlaceOf(ht, t, a)
    ensures t.TArray? ==> PlacesOf(ht, Repeat(t.len, t.elem), a)
    ensures t.TStruct? ==> PlacesOf(ht, t.fields, a)
  {}

  lemma PlacesSplit(ht: seq<Type>, ts: seq<Type>, a: nat)
    requires PlacesOf(ht, ts, a) && ts != []
    ensures PlaceOf(ht, ts[0], a) && PlacesOf(ht, ts[1..], a + |Flat(ts[0])|)
  {
    var x, y := Flat(ts[0]), FlatSeq(ts[1..]);
    assert (x + y)[..|x|] == x && (x + y)[|x|..] == y;
  }

  lemma TypedUpdate(ht: seq<Type>, m: seq<Cell>, t: Type, a: nat, c: Cell)
    requires Typed(ht, m) && IsLeaf(t) && PlaceOf(ht, t, a) && CellHasType(ht, c, t)
    ensures a < |m| && Typed(ht, m[a := c])
  {
    hide CellHasType;
    LeafPlace(ht, t, a);
  }

  /** The value that the place at a holds. */
  function ValueAt(ghost ht: seq<Type>, m: seq<Cell>, t: Type, a: nat): (v: Value)
    requires Typed(ht, m) && PlaceOf(ht, t, a)
    decreases Depth(t), 1, 0
  {
    match t
    case TArray(n, e) => VArray(ValuesAt(ht, m, Repeat(n, e), a))
    case TStruct(fs) => VStruct(ValuesAt(ht, m, fs, a))
    case TPtr(e) => LeafCell(ht, m, t, a); if m[a].Nil? then VNil else VPtr(ValueAt(ht, m, e, m[a].target))
    case _ => LeafCell(ht, m, t, a); m[a].v
  }

  function ValuesAt(ghost ht: seq<Type>, m: seq<Cell>, ts: seq<Type>, a: nat): (vs: seq<Value>)
    requires Typed(ht, m) && PlacesOf(ht, ts, a)
    ensures |vs| == |ts|
    decreases DepthSeq(ts), 2, |ts|
  {
    if ts == [] then [] else
    PlacesSplit(ht, ts, a);
    [ValueAt(ht, m, ts[0], a)] + ValuesAt(ht, m, ts[1..], a + |Flat(ts[0])|)
  }

  lemma {:induction false} ValueHasType(ht: seq<Type>, m: seq<Cell>, t: Type, a: nat)
    requires Typed(ht, m) && PlaceOf(ht, t, a)
    ensures HasType(ValueAt(ht, m, t, a), t)
    decreases Depth(t), 1, 0
  {
    match t
    case TArray(n, e) => ValuesHaveTypes(ht, m, Repeat(n, e), a);
    case TStruct(fs) => ValuesHaveTypes(ht, m, fs, a);
    case TPtr(e) =>
      LeafCell(ht, m, t, a);
      if m[a].Ref? {
        ValueHasType(ht, m, e, m[a].target);
      }
    case _ => LeafCell(ht, m, t, a);
  }

  lemma {:induction false} ValuesHaveTypes(ht: seq<Type>, m: seq<Cell>, ts: seq<Type>, a: nat)
    requires Typed(ht, m) && PlacesOf(ht, ts, a)
    ensures HaveTypes(ValuesAt(ht, m, ts, a), ts)
    decreases DepthSeq(ts), 2, |ts|
  {
    hide HasType;
    if ts != [] {
      PlacesSplit(ht, ts, a);
      ValueHasType(ht, m, ts[0], a);
      ValuesHaveTypes(ht, m, ts[1..], a + |Flat(ts[0])|);
    }
  }

  /** The cells that a place of type t at a consists of, with all that its pointers lead to. */
  ghost function Reach(ht: seq<Type>, m: seq<Cell>, t: Type, a: nat): set<nat>
    requires Typed(ht, m) && PlaceOf(ht, t, a)
    decreases Depth(t), 1, 0
  {
    match t
    case TArray(n, e) => ReachSeq(ht, m, Repeat(n, e), a)
    case TStruct(fs) => ReachSeq(ht, m, fs, a)
    case TPtr(e) => LeafCell(ht, m, t, a); {a} + if m[a].Nil? then {} else Reach(ht, m, e, m[a].target)
    case _ => {a}
  }

  ghost function ReachSeq(ht: seq<Type>, m: seq<Cell>, ts: seq<Type>, a: nat): set<nat>
    requires Typed(ht, m) && PlacesOf(ht, ts, a)
    decreases DepthSeq(ts), 2, |ts|
  {
    if ts == [] then {} else
    PlacesSplit(ht, ts, a);
    Reach(ht, m, ts[0], a) + ReachSeq(ht, m, ts[1..], a + |Flat(ts[0])|)
  }

  /** No cell is reached in two ways. */
  ghost predicate Unshared(ht: seq<Type>, m: seq<Cell>, t: Type, a: nat)
    requires Typed(ht, m) && PlaceOf(ht, t, a)
    decreases Depth(t), 1, 0
  {
    match t
    case TArray(n, e) => UnsharedSeq(ht, m, Repeat(n, e), a)
    case TStruct(fs) => UnsharedSeq(ht, m, fs, a)
    case TPtr(e) =>
      LeafCell(ht, m, t, a);
      m[a].Ref? ==> a !in Reach(ht, m, e, m[a].target) && Unshared(ht, m, e, m[a].target)
    case _ => true
  }

  ghost predicate UnsharedSeq(ht: seq<Type>, m: seq<Cell>, ts: seq<Type>, a: nat)
    requires Typed(ht, m) && PlacesOf(ht, ts, a)
    decreases DepthSeq(ts), 2, |ts|
  {
    ts == [] ||
    (PlacesSplit(ht, ts, a);
     var next := a + |Flat(ts[0])|;
     && Unshared(ht, m, ts[0], a) && UnsharedSeq(ht, m, ts[1..], next)
     && Reach(ht, m, ts[0], a) !! ReachSeq(ht, m, ts[1..], next))
  }

  /** Only what is reached matters. */
  lemma {:induction false} Agree(ht: seq<Type>, m: seq<Cell>, m': seq<Cell>, t: Type, a: nat)
    requires Typed(ht, m) && Typed(ht, m') && PlaceOf(ht, t, a)
    requires forall i :: 0 <= i < |m| && i in Reach(ht, m, t, a) ==> m'[i] == m[i]
    ensures ValueAt(ht, m', t, a) == ValueAt(ht, m, t, a) && Reach(ht, m', t, a) == Reach(ht, m, t, a)
    ensures Unshared(ht, m', t, a) == Unshared(ht, m, t, a)
    decreases Depth(t), 1, 0
  {
    match t
    case TArray(n, e) => AgreeSeq(ht, m, m', Repeat(n, e), a);
    case TStruct(fs) => AgreeSeq(ht, m, m', fs, a);
    case TPtr(e) =>
      LeafCell(ht, m, t, a);
      if m[a].Ref? {
        Agree(ht, m, m', e, m[a].target);
      }
    case _ => LeafCell(ht, m, t, a);
  }

  lemma {:induction false} AgreeSeq(ht: seq<Type>, m: seq<Cell>, m': seq<Cell>, ts: seq<Type>, a: nat)
    requires Typed(ht, m) && Typed(ht, m') && PlacesOf(ht, ts, a)
    requires forall i :: 0 <= i < |m| && i in ReachSeq(ht, m, ts, a) ==> m'[i] == m[i]
    ensures ValuesAt(ht, m', ts, a) == ValuesAt(ht, m, ts, a) && ReachSeq(ht, m', ts, a) == ReachSeq(ht, m, ts, a)
    ensures UnsharedSeq(ht, m', ts, a) == UnsharedSeq(ht, m, ts, a)
    decreases DepthSeq(ts), 2, |ts|
  {
    hide ValueAt, Unshared, Reach, Typed, PlaceOf, PlacesOf, Flat;
    if ts != [] {
      PlacesSplit(ht, ts, a);
      Agree(ht, m, m', ts[0], a);
      AgreeSeq(ht, m, m', ts[1..], a + |Flat(ts[0])|);
    }
  }

  /** Pointers are kept or have become nil. */
  ghost predicate PointersShrink(m: seq<Cell>, m': seq<Cell>) {
    |m'| == |m| && forall i :: 0 <= i < |m| && m'[i].Ref? ==> m[i] == m'[i]
  }

  lemma {:induction false} ReachShrinks(ht: seq<Type>, m: seq<Cell>, m': seq<Cell>, t: Type, a: nat)
    requires Typed(ht, m) && Typed(ht, m') && PlaceOf(ht, t, a) && PointersShrink(m, m')
    ensures Reach(ht, m', t, a) <= Reach(ht, m, t, a)
    decreases Depth(t), 1, 0
  {
    match t
    case TArray(n, e) => ReachSeqShrinks(ht, m, m', Repeat(n, e), a);
    case TStruct(fs) => ReachSeqShrinks(ht, m, m', fs, a);
    case TPtr(e) =>
      LeafCell(ht, m, t, a);
      if m'[a].Ref? {
        ReachShrinks(ht, m, m', e, m[a].target);
      }
    case _ =>
  }

  lemma {:induction false} ReachSeqShrinks(ht: seq<Type>, m: seq<Cell>, m': seq<Cell>, ts: seq<Type>, a: nat)
    requires Typed(ht, m) && Typed(ht, m') && PlacesOf(ht, ts, a) && PointersShrink(m, m')
    ensures ReachSeq(ht, m', ts, a) <= ReachSeq(ht, m, ts, a)
    decreases DepthSeq(ts), 2, |ts|
  {
    hide Reach, Typed, PlaceOf, PlacesOf, Flat;
    if ts != [] {
      PlacesSplit(ht, ts, a);
      ReachShrinks(ht, m, m', ts[0], a);
      ReachSeqShrinks(ht, m, m', ts[1..], a + |Flat(ts[0])|);
    }
  }

  // A new variable

  /** The cells of a zero-valued variable. */
  function ZeroCells(t: Type): (m: seq<Cell>)
    ensures |m| == |Flat(t)|
    decreases Depth(t), 1, 0
  {
    match t
    case TArray(n, e) => ZeroCellsSeq(Repeat(n, e))
    case TStruct(fs) => ZeroCellsSeq(fs)
    case TPtr(_) => [Nil]
    case _ => [Leaf(Zero(t))]
  }

  function ZeroCellsSeq(ts: seq<Type>): (m: seq<Cell>)
    ensures |m| == |FlatSeq(ts)|
    decreases DepthSeq(ts), 2, |ts|
  {
    if ts == [] then [] else ZeroCells(ts[0]) + ZeroCellsSeq(ts[1..])
  }

  lemma {:induction false} ZeroCellsHaveTypes(ht: seq<Type>, t: Type)
    ensures forall i :: 0 <= i < |Flat(t)| ==> CellHasType(ht, ZeroCells(t)[i], Flat(t)[i])
    decreases Depth(t), 1, 0
  {
    match t
    case TArray(n, e) => ZeroCellsSeqHaveTypes(ht, Repeat(n, e));
    case TStruct(fs) => ZeroCellsSeqHaveTypes(ht, fs);
    case _ => ZeroHasType(t);
  }

  lemma {:induction false} ZeroCellsSeqHaveTypes(ht: seq<Type>, ts: seq<Type>)
    ensures forall i :: 0 <= i < |FlatSeq(ts)| ==> CellHasType(ht, ZeroCellsSeq(ts)[i], FlatSeq(ts)[i])
    decreases DepthSeq(ts), 2, |ts|
  {
    hide CellHasType;
    if ts != [] {
      ZeroCellsHaveTypes(ht, ts[0]);
      ZeroCellsSeqHaveTypes(ht, ts[1..]);
    }
  }

  lemma {:induction false} ZeroAt(ht: seq<Type>, m: seq<Cell>, t: Type, a: nat)
    requires Typed(ht, m) && PlaceOf(ht, t, a) && ZeroCells(t) <= m[a..]
    ensures ValueAt(ht, m, t, a) == Zero(t) && Unshared(ht, m, t, a)
    ensures forall i :: i in Reach(ht, m, t, a) ==> a <= i < a + |Flat(t)|
    decreases Depth(t), 1, 0
  {
    match t
    case TArray(n, e) => ZerosAt(ht, m, Repeat(n, e), a);
    case TStruct(fs) => ZerosAt(ht, m, fs, a);
    case _ => assert ZeroCells(t)[0] == m[a];
  }

  lemma PrefixSplit(x: seq<Cell>, y: seq<Cell>, m: seq<Cell>, a: nat)
    requires a <= |m| && x + y <= m[a..]
    ensures a + |x| <= |m| && x <= m[a..] && y <= m[a + |x|..]
  {
    assert (x + y)[..|x|] == x && (x + y)[|x|..] == y;
  }

  lemma {:induction false} ZerosAt(ht: seq<Type>, m: seq<Cell>, ts: seq<Type>, a: nat)
    requires Typed(ht, m) && PlacesOf(ht, ts, a) && ZeroCellsSeq(ts) <= m[a..]
    ensures ValuesAt(ht, m, ts, a) == Zeros(ts) && UnsharedSeq(ht, m, ts, a)
    ensures forall i :: i in ReachSeq(ht, m, ts, a) ==> a <= i < a + |FlatSeq(ts)|
    decreases DepthSeq(ts), 2, |ts|
  {
    hide ValueAt, Unshared, Reach, Zero, CellHasType, PlaceOf, ZeroCells;
    if ts != [] {
      PlacesSplit(ht, ts, a);
      PrefixSplit(ZeroCells(ts[0]), ZeroCellsSeq(ts[1..]), m, a);
      ZeroAt(ht, m, ts[0], a);
      ZerosAt(ht, m, ts[1..], a + |Flat(ts[0])|);
    }
  }

  /** A new variable in a memory of its own holds the zero value, and shares nothing. */
  lemma NewVariable(t: Type)
    ensures Typed(Flat(t), ZeroCells(t)) && PlaceOf(Flat(t), t, 0)
    ensures ValueAt(Flat(t), ZeroCells(t), t, 0) == Zero(t) && IsZero(Zero(t))
    ensures Unshared(Flat(t), ZeroCells(t), t, 0)
  {
    ZeroIsZero(t);
    ZeroCellsHaveTypes(Flat(t), t);
    ZeroAt(Flat(t), ZeroCells(t), t, 0);
  }
}
