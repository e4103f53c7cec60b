/** Why the heap needs no zeroing: what stays zero in a run, and exactly what a client must not leave behind. */
module HeapZeroing {
  import opened MemSpec
  import opened Memlib
  import opened HeapRuns

  /** Every heap byte outside the live blocks is zero. */
  ghost predicate Tidy(w: World)
    requires |w.mem| == HEAP_END
  {
    forall a {:trigger w.mem[a]} :: HEAP_START <= a < HEAP_END && !w.Live(a) ==> w.mem[a] == 0
  }

  /** The call takes a from the client: by shrinking the block it is in, or by granting another in its place. */
  ghost predicate Drops(S: nat, w: World, op: Op, a: int)
    requires Laid(S, w) && Allowed(S, w, op)
  {
    w.Live(a) && !Step(S, w, op).Live(a)
  }

  /** The call takes no byte from the client that is not zero. */
  ghost predicate DropsOnlyZeros(S: nat, w: World, op: Op)
    requires Laid(S, w) && Allowed(S, w, op)
  {
    forall a {:trigger w.mem[a]} :: HEAP_START <= a < HEAP_END && Drops(S, w, op, a) ==> w.mem[a] == 0
  }

  /** A call writes only to bytes that are live before and after it. */
  lemma TargetsAreLive(S: nat, w: World, op: Op, a: int)
    requires Laid(S, w) && Allowed(S, w, op) && Targets(op, a)
    ensures w.Live(a) && Step(S, w, op).Live(a)
  {
    var n := if op.DoStore? then 1 else op.n;
    var k :| k in w.blocks && w.blocks[k].Covers(op.dst, n);
    assert w.blocks[k].Holds(a);
    assert Step(S, w, op).blocks == w.blocks;
  }

  /** The heap stays tidy exactly if the call drops only zeros. */
  lemma TidyExact(S: nat, w: World, op: Op)
    requires Laid(S, w) && Allowed(S, w, op) && Tidy(w)
    ensures |Step(S, w, op).mem| == HEAP_END
    ensures Tidy(Step(S, w, op)) <==> DropsOnlyZeros(S, w, op)
  {
    var w' := Step(S, w, op);
    forall a | HEAP_START <= a < HEAP_END && !w'.Live(a) ensures w'.mem[a] == w.mem[a] {
      if Targets(op, a) {
        TargetsAreLive(S, w, op, a);
      }
      OnlyTargetsChange(S, w, op, a);
    }
    hide Step, Laid, Allowed;
  }

  /** Enough for that: the client has stored nothing to the bytes it drops. */
  lemma UnstoredDropsAreZero(S: nat, w: World, op: Op)
    requires Laid(S, w) && Allowed(S, w, op)
    requires forall a :: a in w.stored ==> !Drops(S, w, op, a)
    ensures DropsOnlyZeros(S, w, op)
  {
    hide Step;
  }

  /** The discipline of a client that never goes back: each kind is allocated once, and realloc only grows. */
  predicate OnceAndGrowing(S: nat, w: World, op: Op) {
    match op
    case DoCalloc(_, size) => KindOf(S, size) !in w.blocks
    case DoRealloc(k, newSize) => k in w.blocks && w.blocks[k].size <= newSize
    case _ => true
  }

  /** Such a call drops nothing. */
  lemma GrowingDropsNothing(S: nat, w: World, op: Op)
    requires Laid(S, w) && Allowed(S, w, op) && OnceAndGrowing(S, w, op)
    ensures DropsOnlyZeros(S, w, op)
  {
    forall a | w.Live(a) ensures Step(S, w, op).Live(a) {
      var k :| k in w.blocks && w.blocks[k].Holds(a);
      assert k in BlocksAfter(S, w, op) && BlocksAfter(S, w, op)[k].Holds(a);
    }
  }

  /** A call of a client that keeps this discipline, or at least drops no byte it has stored to. */
  ghost predicate Careful(S: nat, w: World, op: Op)
    requires Laid(S, w) && Allowed(S, w, op)
  {
    OnceAndGrowing(S, w, op) || forall a :: a in w.stored ==> !Drops(S, w, op, a)
  }

  // Runs

  /** A run in which no call drops a byte that is not zero. */
  ghost predicate TidyRun(S: nat, w: World, ops: seq<Op>)
    requires Laid(S, w)
    decreases |ops|
  {
    ops == [] ||
    (Allowed(S, w, ops[0]) && DropsOnlyZeros(S, w, ops[0]) &&
     (StepKeepsLaid(S, w, ops[0]); TidyRun(S, Step(S, w, ops[0]), ops[1..])))
  }

  ghost predicate CarefulRun(S: nat, w: World, ops: seq<Op>)
    requires Laid(S, w)
    decreases |ops|
  {
    ops == [] ||
    (Allowed(S, w, ops[0]) && Careful(S, w, ops[0]) &&
     (StepKeepsLaid(S, w, ops[0]); CarefulRun(S, Step(S, w, ops[0]), ops[1..])))
  }

  /** What a client can see to by keeping book of its own stores is enough. */
  lemma {:induction false} CarefulRunIsTidy(S: nat, w: World, ops: seq<Op>)
    requires Laid(S, w) && CarefulRun(S, w, ops)
    ensures TidyRun(S, w, ops)
    decreases |ops|
  {
    hide Laid, Step, Allowed, DropsOnlyZeros, OnceAndGrowing;
    if ops != [] {
      StepKeepsLaid(S, w, ops[0]);
      if OnceAndGrowing(S, w, ops[0]) {
        GrowingDropsNothing(S, w, ops[0]);
      } else {
        UnstoredDropsAreZero(S, w, ops[0]);
      }
      CarefulRunIsTidy(S, Step(S, w, ops[0]), ops[1..]);
    }
  }

  lemma {:induction false} TidyRunKeepsTidy(S: nat, w: World, ops: seq<Op>)
    requires Laid(S, w) && Tidy(w) && TidyRun(S, w, ops)
    ensures AllowedRun(S, w, ops)
    ensures Laid(S, Run(S, w, ops)) && Tidy(Run(S, w, ops))
    decreases |ops|
  {
    hide Laid, Step, Allowed, Tidy, DropsOnlyZeros;
    if ops != [] {
      StepKeepsLaid(S, w, ops[0]);
      TidyExact(S, w, ops[0]);
      TidyRunKeepsTidy(S, Step(S, w, ops[0]), ops[1..]);
    }
  }

  /** Over such a run from zero memory every heap byte outside the live blocks is still zero. */
  lemma RunIsTidy(S: nat, w0: World, ops: seq<Op>)
    requires Fresh(S, w0) && TidyRun(S, w0, ops)
    ensures AllowedRun(S, w0, ops)
    ensures |Run(S, w0, ops).mem| == HEAP_END && Tidy(Run(S, w0, ops)) && Separate(Run(S, w0, ops))
  {
    TidyRunKeepsTidy(S, w0, ops);
    LaidIsSeparate(S, Run(S, w0, ops));
  }

  ghost predicate ZeroIn(m: seq<bv8>, a: int, n: nat)
    requires 0 <= a && a + n <= |m|
  {
    forall i {:trigger m[i]} :: a <= i < a + n ==> m[i] == 0
  }

  /** The calloc that never zeroes returns zeroed memory at any point of such a run, exactly if the block of that kind
      it replaces, if there is one, holds only zeros where the two overlap. */
  lemma CallocIsZeroed(S: nat, w0: World, ops: seq<Op>, nmemb: nat, size: nat)
    requires Fresh(S, w0) && TidyRun(S, w0, ops)
    ensures AllowedRun(S, w0, ops)
    ensures var w := Run(S, w0, ops); var ptr, n, k := Calloc(S, nmemb, size), nmemb * size, KindOf(S, size);
      Allowed(S, w, DoCalloc(nmemb, size)) && ptr != NULL ==>
        && HEAP_START <= ptr && ptr + n <= HEAP_END == |w.mem|
        && (ZeroIn(w.mem, ptr, n) <==>
            (k in w.blocks ==> forall a :: ptr <= a < ptr + n && w.blocks[k].Holds(a) ==> w.mem[a] == 0))
        && (k !in w.blocks ==> ZeroIn(w.mem, ptr, n))
  {
    TidyRunKeepsTidy(S, w0, ops);
    var w := Run(S, w0, ops);
    hide Run, AllowedRun, TidyRun;
    var ptr, n, k := Calloc(S, nmemb, size), nmemb * size, KindOf(S, size);
    if Allowed(S, w, DoCalloc(nmemb, size)) && ptr != NULL {
      CallocPlaces(S, w, nmemb, size);
      PlacedInHeap(S, k, Block(ptr, n));
      forall a | ptr <= a < ptr + n && (k in w.blocks ==> !w.blocks[k].Holds(a)) ensures w.mem[a] == 0 {
        OthersDoNotHold(S, w, k, Block(ptr, n), a);
      }
    }
  }

  /** A byte at the place of one kind is in no block of another kind. */
  lemma OthersDoNotHold(S: nat, w: World, k: AllocType, b: Block, a: int)
    requires Laid(S, w) && Placed(S, k, b) && b.Holds(a) && (k in w.blocks ==> !w.blocks[k].Holds(a))
    ensures !w.Live(a)
  {
    forall j | j in w.blocks ensures !w.blocks[j].Holds(a) {
      assert Placed(S, j, w.blocks[j]);
    }
  }

  // The skipped fills

  /** Skipping a large zero fill is invisible exactly when the range was zero already. */
  lemma SkipExact(m: seq<bv8>, b: nat, len: nat)
    requires b + len <= |m|
    ensures MemsetEffect(m, b, 0, len) == Filled(m, b, 0, len) <==> len <= 0x10_0000 || ZeroIn(m, b, len)
  {
    var f := Filled(m, b, 0, len);
    if len > TABLE_BUF {
      if MemsetEffect(m, b, 0, len) == f {
        forall a | b <= a < b + len ensures m[a] == 0 {
          assert m[a] == f[a];
        }
      }
      if ZeroIn(m, b, len) {
        assert m == f;
      }
    }
  }

  /** Bytes between the end of the data block and the table reserve are zero in a tidy world. */
  lemma BehindDataIsZero(S: nat, w: World, n: nat)
    requires Laid(S, w) && Tidy(w) && DataAlloc in w.blocks && w.blocks[DataAlloc].size <= n && DataFits(S, n)
    ensures ZeroIn(w.mem, HEAP_START + S + w.blocks[DataAlloc].size, n - w.blocks[DataAlloc].size)
  {
    var size := w.blocks[DataAlloc].size;
    forall a | HEAP_START + S + size <= a < HEAP_START + S + n ensures w.mem[a] == 0 {
      OthersDoNotHold(S, w, DataAlloc, Block(HEAP_START + S, n), a);
    }
  }

  lemma TwoReallocs(S: nat, w: World, low: nat, high: nat)
    requires Laid(S, w) && DataAlloc in w.blocks && low <= high && DataFits(S, high)
    ensures AllowedRun(S, w, [DoRealloc(DataAlloc, low), DoRealloc(DataAlloc, high)])
    ensures Run(S, w, [DoRealloc(DataAlloc, low), DoRealloc(DataAlloc, high)])
         == w.(blocks := w.blocks[DataAlloc := Block(HEAP_START + S, high)])
  {
    var op1, op2 := DoRealloc(DataAlloc, low), DoRealloc(DataAlloc, high);
    RequestsExact(S, w, DataAlloc, low);
    StepKeepsLaid(S, w, op1);
    var w1 := Step(S, w, op1);
    RequestsExact(S, w1, DataAlloc, high);
    StepKeepsLaid(S, w1, op2);
    assert Placed(S, DataAlloc, w.blocks[DataAlloc]);
    hide Step, Laid;
    RunCons(S, w1, op2, []);
    RunCons(S, w, op1, [op2]);
    assert [op2] + [] == [op2] && [op1] + [op2] == [op1, op2];
  }

  /** In a tidy world the data block is shrunk to low bytes and grown again to high. A zero fill of the regrown part,
      skipped or not, then has the effect of the full fill exactly if it is small or the client left only zeros past
      low. With low == size this is the plain growth of memory.grow, which is always exact. */
  lemma RegrownFillExact(S: nat, w: World, low: nat, high: nat)
    requires Laid(S, w) && Tidy(w) && DataAlloc in w.blocks
    requires low <= w.blocks[DataAlloc].size && low <= high && DataFits(S, high)
    ensures AllowedRun(S, w, [DoRealloc(DataAlloc, low), DoRealloc(DataAlloc, high)])
    ensures var w' := Run(S, w, [DoRealloc(DataAlloc, low), DoRealloc(DataAlloc, high)]);
      var from, size := HEAP_START + S + low, w.blocks[DataAlloc].size;
      && w' == w.(blocks := w.blocks[DataAlloc := Block(HEAP_START + S, high)])
      && (MemsetEffect(w'.mem, from, 0, high - low) == Filled(w'.mem, from, 0, high - low) <==>
          high - low <= TABLE_BUF || ZeroIn(w.mem, from, (if size < high then size else high) - low))
      && (low == size ==> ZeroIn(w.mem, from, high - low))
  {
    TwoReallocs(S, w, low, high);
    var from, size := HEAP_START + S + low, w.blocks[DataAlloc].size;
    hide Run, AllowedRun, MemsetEffect, Filled;
    SkipExact(w.mem, from, high - low);
    if size < high {
      BehindDataIsZero(S, w, high);
      hide Laid;
      ZeroJoins(w.mem, from, size - low, high - size);
    }
  }

  lemma ZeroJoins(m: seq<bv8>, a: int, n: nat, k: nat)
    requires 0 <= a && a + n + k <= |m| && ZeroIn(m, a + n, k)
    ensures ZeroIn(m, a, n + k) <==> ZeroIn(m, a, n)
  {}

  /** So the freshly grown part may be zero-filled by a skipped fill at any point of a tidy run. */
  lemma GrownFillIsExact(S: nat, w0: World, ops: seq<Op>, newSize: nat)
    requires Fresh(S, w0) && TidyRun(S, w0, ops)
    ensures AllowedRun(S, w0, ops)
    ensures var w := Run(S, w0, ops);
      DataAlloc in w.blocks && w.blocks[DataAlloc].size <= newSize && DataFits(S, newSize) ==>
        var from, n := HEAP_START + S + w.blocks[DataAlloc].size, newSize - w.blocks[DataAlloc].size;
        && from + n <= HEAP_END == |w.mem|
        && MemsetEffect(w.mem, from, 0, n) == Filled(w.mem, from, 0, n)
  {
    TidyRunKeepsTidy(S, w0, ops);
    var w := Run(S, w0, ops);
    hide Run, AllowedRun, TidyRun, MemsetEffect, Filled;
    if DataAlloc in w.blocks && w.blocks[DataAlloc].size <= newSize && DataFits(S, newSize) {
      BehindDataIsZero(S, w, newSize);
      SkipExact(w.mem, HEAP_START + S + w.blocks[DataAlloc].size, newSize - w.blocks[DataAlloc].size);
    }
  }

  // What goes wrong otherwise

  /** A store to the data block, or a zero fill in it that is skipped. */
  lemma WriteData(S: nat, w: World, op: Op) returns (w': World)
    requires Laid(S, w) && DataAlloc in w.blocks
    requires (op.DoStore? && w.blocks[DataAlloc].Covers(op.dst, 1))
          || (op.DoMemset? && w.blocks[DataAlloc].Covers(op.dst, op.n) && SkipsFill(op.ch, op.n))
    ensures Allowed(S, w, op) && w' == Step(S, w, op) && Laid(S, w')
    ensures w'.blocks == w.blocks && |w.mem| == HEAP_END
    ensures op.DoStore? ==> op.dst < HEAP_END && w'.mem == w.mem[op.dst := op.value]
    ensures op.DoMemset? ==> w'.mem == w.mem
  {
    LiveRange(S, w, op.dst, if op.DoStore? then 1 else op.n);
    StepKeepsLaid(S, w, op);
    w' := Step(S, w, op);
  }

  /** Shrinking, growing again and zero-filling the regrown part by a skipped fill touches no byte at all. */
  lemma SkippedRegrowth(S: nat, w: World, low: nat, high: nat)
    requires Laid(S, w) && DataAlloc in w.blocks && DataFits(S, high) && low + TABLE_BUF < high
    ensures var ops := [DoRealloc(DataAlloc, low), DoRealloc(DataAlloc, high),
                        DoMemset(HEAP_START + S + low, 0, high - low)];
      && AllowedRun(S, w, ops)
      && Run(S, w, ops).mem == w.mem
      && Run(S, w, ops).blocks == w.blocks[DataAlloc := Block(HEAP_START + S, high)]
  {
    var down, up := DoRealloc(DataAlloc, low), DoRealloc(DataAlloc, high);
    var fill := DoMemset(HEAP_START + S + low, 0, high - low);
    hide Step, Laid, Allowed;
    var w1 := ResizeData(S, w, low);
    var w2 := ResizeData(S, w1, high);
    var w3 := WriteData(S, w2, fill);
    RunCons(S, w2, fill, []);
    RunCons(S, w1, up, [fill]);
    RunCons(S, w, down, [up, fill]);
    assert [down] + ([up] + ([fill] + [])) == [down, up, fill];
  }

  /** Storing past the kept size before a shrink: three MiB of data, a byte stored at two, shrunk to one and grown to
      three again. The zero fill of the regrown two MiB is skipped, and the byte is still there. */
  lemma DirtyRegrowth(S: nat, w0: World)
    requires Fresh(S, w0) && DataFits(S, 0x30_0000)
    ensures var data := HEAP_START + S;
      var ops := [DoCalloc(0x30_0000, 1), DoStore(data + 0x20_0000, 1)] +
                 [DoRealloc(DataAlloc, 0x10_0000), DoRealloc(DataAlloc, 0x30_0000),
                  DoMemset(data + 0x10_0000, 0, 0x20_0000)];
      && AllowedRun(S, w0, ops)
      && Run(S, w0, ops).blocks == map[DataAlloc := Block(data, 0x30_0000)]
      && |Run(S, w0, ops).mem| == HEAP_END && Run(S, w0, ops).mem[data + 0x20_0000] == 1
  {
    var data := HEAP_START + S;
    var get, put := DoCalloc(0x30_0000, 1), DoStore(data + 0x20_0000, 1);
    var rest := [DoRealloc(DataAlloc, 0x10_0000), DoRealloc(DataAlloc, 0x30_0000),
                 DoMemset(data + 0x10_0000, 0, 0x20_0000)];
    assert w0.blocks == map[];
    hide Step, Laid, Allowed, Fresh, Run, AllowedRun;
    var w1 := GetData(S, w0, 0x30_0000);
    var w2 := WriteData(S, w1, put);
    SkippedRegrowth(S, w2, 0x10_0000, 0x30_0000);
    RunCons(S, w1, put, rest);
    RunCons(S, w0, get, [put] + rest);
    assert [get] + ([put] + rest) == [get, put] + rest;
  }

  /** Allocating data a second time over a byte that was stored to: calloc returns memory that is not zero. */
  lemma DirtyReallocation(S: nat, w0: World)
    requires Fresh(S, w0) && DataFits(S, 1)
    ensures var data := HEAP_START + S;
      var ops := [DoCalloc(1, 1), DoStore(data, 1), DoCalloc(1, 1)];
      && AllowedRun(S, w0, ops)
      && Run(S, w0, ops).blocks == map[DataAlloc := Block(data, 1)]
      && |Run(S, w0, ops).mem| == HEAP_END && Run(S, w0, ops).mem[data] == 1
  {
    var get, put := DoCalloc(1, 1), DoStore(HEAP_START + S, 1);
    assert w0.blocks == map[];
    hide Step, Laid, Allowed, Fresh;
    var w1 := GetData(S, w0, 1);
    var w2 := WriteData(S, w1, put);
    var w3 := GetData(S, w2, 1);
    RunCons(S, w2, get, []);
    RunCons(S, w1, put, [get]);
    RunCons(S, w0, get, [put, get]);
    assert [get] + ([put] + ([get] + [])) == [get, put, get];
  }
}
