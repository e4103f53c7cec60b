/** The heap against what ISO C asks of it: a calloc that zeroes (7.22.3.2), a memset that always fills (7.24.6.1). */
module HeapReference {
  import opened Words
  import opened MemSpec
  import opened Memlib
  import opened HeapRuns
  import opened HeapZeroing

  lemma GrantInHeap(S: nat, w: World, nmemb: nat, size: nat)
    requires Laid(S, w) && Allowed(S, w, DoCalloc(nmemb, size)) && Calloc(S, nmemb, size) != NULL
    ensures HEAP_START <= Calloc(S, nmemb, size) && Calloc(S, nmemb, size) + nmemb * size <= HEAP_END
  {
    CallocPlaces(S, w, nmemb, size);
    PlacedInHeap(S, KindOf(S, size), Block(Calloc(S, nmemb, size), nmemb * size));
  }

  /** Memory after a call as the standard has it. */
  ghost function RefMem(S: nat, w: World, op: Op): (m: seq<bv8>)
    requires Laid(S, w) && Allowed(S, w, op)
    ensures |m| == HEAP_END
  {
    match op
    case DoCalloc(nmemb, size) =>
      var ptr := Calloc(S, nmemb, size);
      if ptr == NULL then w.mem else GrantInHeap(S, w, nmemb, size); Filled(w.mem, ptr, 0, nmemb * size)
    case DoMemset(dst, ch, n) => LiveRange(S, w, dst, n); Filled(w.mem, dst, Byte(ch, 0), n)
    case _ => MemAfter(S, w, op)
  }

  ghost function RefStep(S: nat, w: World, op: Op): World
    requires Laid(S, w) && Allowed(S, w, op)
  {
    World(RefMem(S, w, op), BlocksAfter(S, w, op), w.stored + Stores(op))
  }

  /** The calls that leave bytes alone which the standard sets to zero find zeros there. */
  ghost predicate FindsZeros(S: nat, w: World, op: Op)
    requires Laid(S, w) && Allowed(S, w, op)
  {
    match op
    case DoCalloc(nmemb, size) =>
      var ptr := Calloc(S, nmemb, size);
      ptr != NULL ==> (GrantInHeap(S, w, nmemb, size); ZeroIn(w.mem, ptr, nmemb * size))
    case DoMemset(dst, ch, n) => SkipsFill(ch, n) ==> (LiveRange(S, w, dst, n); ZeroIn(w.mem, dst, n))
    case _ => true
  }

  /** A zero fill changes nothing exactly if it meets zeros. */
  lemma FillZeros(m: seq<bv8>, a: nat, n: nat)
    requires a + n <= |m|
    ensures Filled(m, a, 0, n) == m <==> ZeroIn(m, a, n)
  {
    var f := Filled(m, a, 0, n);
    if f == m {
      forall i {:trigger m[i]} | a <= i < a + n ensures m[i] == 0 {
        assert f[i] == 0;
      }
    }
    if ZeroIn(m, a, n) {
      assert f == m;
    }
  }

  /** One call does what the standard asks exactly if it finds zeros. */
  lemma StepExact(S: nat, w: World, op: Op)
    requires Laid(S, w) && Allowed(S, w, op)
    ensures Step(S, w, op) == RefStep(S, w, op) <==> FindsZeros(S, w, op)
    ensures Step(S, w, op).mem == RefStep(S, w, op).mem <==> FindsZeros(S, w, op)
  {
    match op
    case DoCalloc(nmemb, size) =>
      if Calloc(S, nmemb, size) != NULL {
        GrantInHeap(S, w, nmemb, size);
        FillZeros(w.mem, Calloc(S, nmemb, size), nmemb * size);
      }
    case DoMemset(dst, ch, n) =>
      LiveRange(S, w, dst, n);
      if SkipsFill(ch, n) {
        FillZeros(w.mem, dst, n);
      }
    case _ =>
  }

  lemma RefChanges(S: nat, w: World, op: Op, a: int)
    requires Laid(S, w) && Allowed(S, w, op) && 0 <= a < HEAP_END && !Targets(op, a)
    ensures RefMem(S, w, op)[a] == w.mem[a] || RefMem(S, w, op)[a] == 0
  {
    hide Byte;
    match op
    case DoCalloc(nmemb, size) =>
      if Calloc(S, nmemb, size) != NULL {
        GrantInHeap(S, w, nmemb, size);
      }
    case DoMemset(dst, _, n) => LiveRange(S, w, dst, n);
    case _ => OnlyTargetsChange(S, w, op, a);
  }

  lemma RefStepKeepsLaid(S: nat, w: World, op: Op)
    requires Laid(S, w) && Allowed(S, w, op)
    ensures Laid(S, RefStep(S, w, op))
  {
    BlocksStayPlaced(S, w, op);
    var m := RefMem(S, w, op);
    forall a {:trigger m[a]} | HEAP_START <= a < HEAP_END && a !in w.stored + Stores(op) ensures m[a] == 0 {
      RefChanges(S, w, op, a);
    }
    hide RefMem, BlocksAfter, Targets, Placed;
  }

  // Whole runs

  ghost predicate RefAllowed(S: nat, w: World, ops: seq<Op>)
    requires Laid(S, w)
    decreases |ops|
  {
    ops == [] ||
    (Allowed(S, w, ops[0]) && (RefStepKeepsLaid(S, w, ops[0]); RefAllowed(S, RefStep(S, w, ops[0]), ops[1..])))
  }

  ghost function RefRun(S: nat, w: World, ops: seq<Op>): World
    requires Laid(S, w) && RefAllowed(S, w, ops)
    decreases |ops|
  {
    if ops == [] then w else
    RefStepKeepsLaid(S, w, ops[0]);
    RefRun(S, RefStep(S, w, ops[0]), ops[1..])
  }

  /** What a client may do does not depend on the bytes in memory: both allow the same runs, with the same blocks. */
  lemma {:induction false} SameRuns(S: nat, w: World, v: World, ops: seq<Op>)
    requires Laid(S, w) && Laid(S, v) && w.blocks == v.blocks
    ensures AllowedRun(S, w, ops) <==> RefAllowed(S, v, ops)
    ensures AllowedRun(S, w, ops) ==> Run(S, w, ops).blocks == RefRun(S, v, ops).blocks
    decreases |ops|
  {
    if ops != [] {
      assert |w.mem| == |v.mem|;
      assert Allowed(S, w, ops[0]) <==> Allowed(S, v, ops[0]);
      if Allowed(S, w, ops[0]) {
        StepKeepsLaid(S, w, ops[0]);
        RefStepKeepsLaid(S, v, ops[0]);
        assert Step(S, w, ops[0]).blocks == RefStep(S, v, ops[0]).blocks;
        hide Laid, Allowed, Step, RefStep;
        SameRuns(S, Step(S, w, ops[0]), RefStep(S, v, ops[0]), ops[1..]);
      }
    }
  }

  ghost predicate FindsZerosRun(S: nat, w: World, ops: seq<Op>)
    requires Laid(S, w) && AllowedRun(S, w, ops)
    decreases |ops|
  {
    ops == [] ||
    (FindsZeros(S, w, ops[0]) && (StepKeepsLaid(S, w, ops[0]); FindsZerosRun(S, Step(S, w, ops[0]), ops[1..])))
  }

  /** The run ends with the memory that the standard asks for. */
  ghost predicate AsReference(S: nat, w: World, ops: seq<Op>)
    requires Laid(S, w)
  {
    SameRuns(S, w, w, ops);
    AllowedRun(S, w, ops) && Run(S, w, ops).mem == RefRun(S, w, ops).mem
  }

  /** A call that does what the standard asks, before a run. */
  lemma AsReferenceCons(S: nat, w: World, op: Op, ops: seq<Op>)
    requires Laid(S, w) && Allowed(S, w, op) && FindsZeros(S, w, op)
    ensures Laid(S, Step(S, w, op))
    ensures AsReference(S, w, [op] + ops) <==> AsReference(S, Step(S, w, op), ops)
  {
    StepKeepsLaid(S, w, op);
    StepExact(S, w, op);
    SameRuns(S, w, w, [op] + ops);
    SameRuns(S, Step(S, w, op), Step(S, w, op), ops);
    hide Laid, Allowed, Step, RefStep, FindsZeros;
    assert ([op] + ops)[1..] == ops;
  }

  lemma AsReferenceOne(S: nat, w: World, op: Op)
    requires Laid(S, w) && Allowed(S, w, op)
    ensures AsReference(S, w, [op]) <==> FindsZeros(S, w, op)
  {
    StepKeepsLaid(S, w, op);
    RefStepKeepsLaid(S, w, op);
    StepExact(S, w, op);
    SameRuns(S, w, w, [op]);
    hide Laid, Allowed, Step, RefStep, FindsZeros;
    assert [op][1..] == [];
  }

  /** Refinement: memory is what the standard asks for after every call of a run, exactly if every granted calloc and
      every skipped fill of the run finds zeros. */
  lemma {:induction false} RunRefines(S: nat, w: World, ops: seq<Op>)
    requires Laid(S, w) && AllowedRun(S, w, ops)
    ensures FindsZerosRun(S, w, ops) <==> forall k :: 0 <= k <= |ops| ==> AsReference(S, w, ops[..k])
    decreases |ops|
  {
    hide Laid, Allowed, Step, RefStep, FindsZeros;
    assert ops[..0] == [];
    if ops != [] {
      var op, rest := ops[0], ops[1..];
      StepKeepsLaid(S, w, op);
      RefStepKeepsLaid(S, w, op);
      StepExact(S, w, op);
      RunRefines(S, Step(S, w, op), rest);
      if FindsZeros(S, w, op) {
        var w' := Step(S, w, op);
        forall k | 0 < k <= |ops| ensures AsReference(S, w, ops[..k]) <==> AsReference(S, w', rest[..k - 1]) {
          AsReferenceCons(S, w, op, rest[..k - 1]);
          assert ops[..k] == [op] + rest[..k - 1];
        }
        if forall k :: 0 <= k <= |ops| ==> AsReference(S, w, ops[..k]) {
          forall k | 0 <= k <= |rest| ensures AsReference(S, w', rest[..k]) {
            assert AsReference(S, w, ops[..k + 1]);
          }
        }
      } else {
        AsReferenceOne(S, w, op);
        assert ops[..1] == [op];
      }
    }
  }

  // A client for which this always holds

  /** Each kind is allocated once, realloc only grows, and a fill large enough to be skipped covers only bytes the
      client has not written before, as the zero fill of a grown memory does. */
  predicate FirstUse(S: nat, w: World, op: Op) {
    && OnceAndGrowing(S, w, op)
    && (op.DoMemset? && SkipsFill(op.ch, op.n) ==> forall a :: op.dst <= a < op.dst + op.n ==> a !in w.stored)
  }

  lemma FirstUseFindsZeros(S: nat, w: World, op: Op)
    requires Laid(S, w) && Tidy(w) && Allowed(S, w, op) && FirstUse(S, w, op)
    ensures FindsZeros(S, w, op)
  {
    match op
    case DoCalloc(nmemb, size) =>
      var ptr, n := Calloc(S, nmemb, size), nmemb * size;
      if ptr != NULL {
        GrantInHeap(S, w, nmemb, size);
        CallocPlaces(S, w, nmemb, size);
        forall a {:trigger w.mem[a]} | ptr <= a < ptr + n ensures w.mem[a] == 0 {
          OthersDoNotHold(S, w, KindOf(S, size), Block(ptr, n), a);
        }
      }
    case DoMemset(dst, _, n) => LiveRange(S, w, dst, n);
    case _ =>
  }

  ghost predicate FirstUseRun(S: nat, w: World, ops: seq<Op>)
    requires Laid(S, w)
    decreases |ops|
  {
    ops == [] ||
    (Allowed(S, w, ops[0]) && FirstUse(S, w, ops[0]) &&
     (StepKeepsLaid(S, w, ops[0]); FirstUseRun(S, Step(S, w, ops[0]), ops[1..])))
  }

  lemma {:induction false} FirstUseRunFindsZeros(S: nat, w: World, ops: seq<Op>)
    requires Laid(S, w) && Tidy(w) && FirstUseRun(S, w, ops)
    ensures AllowedRun(S, w, ops) && FindsZerosRun(S, w, ops)
    decreases |ops|
  {
    hide Laid, Allowed, Step, Tidy, DropsOnlyZeros, OnceAndGrowing, FindsZeros;
    if ops != [] {
      FirstUseFindsZeros(S, w, ops[0]);
      StepKeepsLaid(S, w, ops[0]);
      GrowingDropsNothing(S, w, ops[0]);
      TidyExact(S, w, ops[0]);
      FirstUseRunFindsZeros(S, Step(S, w, ops[0]), ops[1..]);
    }
  }

  /** Over every such run from a fresh heap the allocator that never zeroes and the memset that skips large zero fills
      cannot be told from the standard ones. */
  lemma FirstUseRefines(S: nat, w0: World, ops: seq<Op>)
    requires Fresh(S, w0) && FirstUseRun(S, w0, ops)
    ensures AllowedRun(S, w0, ops)
    ensures forall k :: 0 <= k <= |ops| ==> AsReference(S, w0, ops[..k])
  {
    FirstUseRunFindsZeros(S, w0, ops);
    RunRefines(S, w0, ops);
  }
}
