/** Runs of calls and client stores over the three-block heap: where the blocks are. */
module HeapRuns {
  import opened Words
  import opened Machine
  import opened MemSpec
  import opened Memlib
  import Forward

  datatype Block = Block(start: nat, size: nat) {
    predicate Holds(a: int) {
      start <= a < start + size
    }

    /** The n bytes at a lie in this block. */
    predicate Covers(a: int, n: nat) {
      start <= a && a + n <= start + size
    }

    predicate Disjoint(other: Block) {
      size == 0 || other.size == 0 || start + size <= other.start || other.start + other.size <= start
    }
  }

  /** Memory, the last block granted of each kind, and every address the client has stored to. */
  datatype World = World(mem: seq<bv8>, blocks: map<AllocType, Block>, stored: set<int>) {
    predicate Live(a: int) {
      exists k :: k in blocks && blocks[k].Holds(a)
    }

    predicate InOneBlock(a: int, n: nat) {
      exists k :: k in blocks && blocks[k].Covers(a, n)
    }
  }

  datatype Op =
    | DoCalloc(nmemb: nat, size: nat)
    | DoRealloc(kind: AllocType, newSize: nat)
    | DoFree(ptr: nat)
    | DoStore(dst: nat, value: bv8)
    | DoMemset(dst: nat, ch: bv64, n: nat)
    | DoMemcpy(dst: nat, src: nat, n: nat)
    | DoMemmove(dst: nat, src: nat, n: nat)

  /** What the client promises, in any order and any number of times: requests do not wrap size_t, struct requests
      are for at most one struct, table requests stay below the reserve (a realloc of the table below its end), and
      writes stay inside live blocks. A copy may come from anywhere in memory. */
  predicate Allowed(S: nat, w: World, op: Op) {
    match op
    case DoCalloc(nmemb, size) =>
      (match KindOf(S, size)
       case StructAlloc => nmemb * size <= S
       case TableAlloc => nmemb * size < TABLE_BUF
       case DataAlloc => HEAP_START + S + TABLE_BUF + nmemb < ADDRESS_SPACE)
    case DoRealloc(k, newSize) =>
      && k in w.blocks
      && HEAP_START + S + TABLE_BUF + newSize < ADDRESS_SPACE
      && (k.StructAlloc? ==> newSize <= S)
      && (k.TableAlloc? ==> w.blocks[k].start + newSize <= HEAP_END)
    case DoFree(_) => true
    case DoStore(dst, _) => w.InOneBlock(dst, 1)
    case DoMemset(dst, _, n) => w.InOneBlock(dst, n)
    case DoMemcpy(dst, src, n) =>
      w.InOneBlock(dst, n) && src + n <= |w.mem| && Forward.SafeUp(dst, dst + n, src - dst)
    case DoMemmove(dst, src, n) => w.InOneBlock(dst, n) && src + n <= |w.mem|
  }

  /** The bytes a call may write. */
  predicate Targets(op: Op, a: int) {
    match op
    case DoStore(dst, _) => a == dst
    case DoMemset(dst, _, n) => dst <= a < dst + n
    case DoMemcpy(dst, _, n) => dst <= a < dst + n
    case DoMemmove(dst, _, n) => dst <= a < dst + n
    case _ => false
  }

  /** The heap bytes among them. */
  function Stores(op: Op): set<int> {
    set a: int | HEAP_START <= a < HEAP_END && Targets(op, a)
  }

  /** The block map after a call. A refused request changes nothing; free is empty. */
  function BlocksAfter(S: nat, w: World, op: Op): map<AllocType, Block>
    requires Allowed(S, w, op)
  {
    match op
    case DoCalloc(nmemb, size) =>
      var ptr := Calloc(S, nmemb, size);
      if ptr == NULL then w.blocks else w.blocks[KindOf(S, size) := Block(ptr, nmemb * size)]
    case DoRealloc(k, newSize) =>
      var ptr := Realloc(S, w.blocks[k].start, newSize);
      if ptr == NULL then w.blocks else w.blocks[k := Block(ptr, newSize)]
    case _ => w.blocks
  }

  /** Memory after a call. */
  ghost function MemAfter(S: nat, w: World, op: Op): (m: seq<bv8>)
    requires Laid(S, w) && Allowed(S, w, op)
    ensures |m| == HEAP_END
  {
    match op
    case DoStore(dst, value) => LiveRange(S, w, dst, 1); w.mem[dst := value]
    case DoMemset(dst, ch, n) => LiveRange(S, w, dst, n); MemsetEffect(w.mem, dst, ch, n)
    case DoMemcpy(dst, src, n) => LiveRange(S, w, dst, n); Copied(w.mem, dst, src, n)
    case DoMemmove(dst, src, n) => LiveRange(S, w, dst, n); Copied(w.mem, dst, src, n)
    case _ => w.mem
  }

  ghost function Step(S: nat, w: World, op: Op): World
    requires Laid(S, w) && Allowed(S, w, op)
  {
    World(MemAfter(S, w, op), BlocksAfter(S, w, op), w.stored + Stores(op))
  }

  /** Where each kind of block lives. */
  predicate Placed(S: nat, k: AllocType, b: Block) {
    match k
    case StructAlloc => b.start == HEAP_START && b.size <= S
    case DataAlloc => b.start == HEAP_START + S && S + b.size + TABLE_BUF <= HEAP_SIZE
    case TableAlloc => HEAP_END - TABLE_BUF <= b.start && b.start + b.size <= HEAP_END
  }

  /** Every block is where the layout puts it, and a heap byte that the client never stored to is zero. */
  ghost predicate Laid(S: nat, w: World) {
    && StructSize(S)
    && |w.mem| == HEAP_END
    && (forall k :: k in w.blocks ==> Placed(S, k, w.blocks[k]))
    && (forall a {:trigger w.mem[a]} :: HEAP_START <= a < HEAP_END && a !in w.stored ==> w.mem[a] == 0)
  }

  /** A fresh process: the heap is all zero and nothing is allocated. */
  predicate Fresh(S: nat, w: World) {
    && StructSize(S) && |w.mem| == HEAP_END && w.blocks == map[] && w.stored == {}
    && forall a :: HEAP_START <= a < HEAP_END ==> w.mem[a] == 0
  }

  /** A block is where the layout puts it, inside the heap. */
  lemma PlacedInHeap(S: nat, k: AllocType, b: Block)
    requires StructSize(S) && Placed(S, k, b)
    ensures HEAP_START <= b.start && b.start + b.size <= HEAP_END
  {}

  /** A live range lies in the heap. */
  lemma LiveRange(S: nat, w: World, a: nat, n: nat)
    requires Laid(S, w) && w.InOneBlock(a, n)
    ensures HEAP_START <= a && a + n <= HEAP_END
  {
    var k :| k in w.blocks && w.blocks[k].Covers(a, n);
    PlacedInHeap(S, k, w.blocks[k]);
  }

  /** Every granted request lies at the place of its kind. */
  lemma CallocPlaces(S: nat, w: World, nmemb: nat, size: nat)
    requires StructSize(S) && Allowed(S, w, DoCalloc(nmemb, size))
    ensures var ptr := Calloc(S, nmemb, size);
      ptr == NULL || Placed(S, KindOf(S, size), Block(ptr, nmemb * size))
  {
    var n := nmemb * size;
    assert KindOf(S, size) == DataAlloc ==> n == nmemb;
    assert n < ADDRESS_SPACE && Wrap(n) == n;
    SizeOkExact(S, n);
  }

  lemma BlocksStayPlaced(S: nat, w: World, op: Op)
    requires Laid(S, w) && Allowed(S, w, op)
    ensures forall k :: k in BlocksAfter(S, w, op) ==> Placed(S, k, BlocksAfter(S, w, op)[k])
  {
    match op
    case DoCalloc(nmemb, size) => CallocPlaces(S, w, nmemb, size); hide Calloc, Placed;
    case DoRealloc(_, newSize) => SizeOkExact(S, newSize);
    case _ =>
  }

  /** A call changes no byte that it was not given. */
  lemma OnlyTargetsChange(S: nat, w: World, op: Op, a: int)
    requires Laid(S, w) && Allowed(S, w, op) && 0 <= a < HEAP_END && !Targets(op, a)
    ensures MemAfter(S, w, op)[a] == w.mem[a]
  {
    hide Byte;
    match op
    case DoStore(dst, _) => LiveRange(S, w, dst, 1);
    case DoMemset(dst, _, n) => LiveRange(S, w, dst, n);
    case DoMemcpy(dst, _, n) => LiveRange(S, w, dst, n);
    case DoMemmove(dst, _, n) => LiveRange(S, w, dst, n);
    case _ =>
  }

  lemma StepKeepsLaid(S: nat, w: World, op: Op)
    requires Laid(S, w) && Allowed(S, w, op)
    ensures Laid(S, Step(S, w, op))
  {
    BlocksStayPlaced(S, w, op);
    var m := MemAfter(S, w, op);
    forall a {:trigger m[a]} | HEAP_START <= a < HEAP_END && a !in w.stored + Stores(op) ensures m[a] == 0 {
      OnlyTargetsChange(S, w, op, a);
    }
    hide MemAfter, BlocksAfter, Targets, Placed;
  }

  // Whole runs

  ghost predicate AllowedRun(S: nat, w: World, ops: seq<Op>)
    requires Laid(S, w)
    decreases |ops|
  {
    ops == [] ||
    (Allowed(S, w, ops[0]) && (StepKeepsLaid(S, w, ops[0]); AllowedRun(S, Step(S, w, ops[0]), ops[1..])))
  }

  ghost function Run(S: nat, w: World, ops: seq<Op>): World
    requires Laid(S, w) && AllowedRun(S, w, ops)
    decreases |ops|
  {
    if ops == [] then w else
    StepKeepsLaid(S, w, ops[0]);
    Run(S, Step(S, w, ops[0]), ops[1..])
  }

  lemma {:induction false} RunKeepsLaid(S: nat, w: World, ops: seq<Op>)
    requires Laid(S, w) && AllowedRun(S, w, ops)
    ensures Laid(S, Run(S, w, ops))
    decreases |ops|
  {
    hide Laid, Step, Allowed;
    if ops != [] {
      StepKeepsLaid(S, w, ops[0]);
      RunKeepsLaid(S, Step(S, w, ops[0]), ops[1..]);
    }
  }

  lemma RunCons(S: nat, w: World, op: Op, ops: seq<Op>)
    requires Laid(S, w) && Allowed(S, w, op)
    requires Laid(S, Step(S, w, op)) && AllowedRun(S, Step(S, w, op), ops)
    ensures AllowedRun(S, w, [op] + ops) && Run(S, w, [op] + ops) == Run(S, Step(S, w, op), ops)
  {
    hide Laid, Step, Allowed;
    assert ([op] + ops)[1..] == ops;
  }

  /** All blocks are inside the heap and pairwise disjoint. */
  ghost predicate Separate(w: World) {
    && (forall k :: k in w.blocks ==>
      (HEAP_START <= w.blocks[k].start && w.blocks[k].start + w.blocks[k].size <= HEAP_END))
    && (forall j, k :: j in w.blocks && k in w.blocks && j != k ==> w.blocks[j].Disjoint(w.blocks[k]))
  }

  lemma LaidIsSeparate(S: nat, w: World)
    requires Laid(S, w)
    ensures Separate(w)
  {}

  /** Whatever the sequence of callocs, reallocs and frees, with blocks allocated again and shrunk as well: the last
      blocks granted of each kind are pairwise disjoint and inside the heap, and a heap byte the client never stored
      to is zero. */
  lemma RunIsPlaced(S: nat, w0: World, ops: seq<Op>)
    requires Fresh(S, w0) && AllowedRun(S, w0, ops)
    ensures var w := Run(S, w0, ops);
      Laid(S, w) && Separate(w)
  {
    RunKeepsLaid(S, w0, ops);
    LaidIsSeparate(S, Run(S, w0, ops));
    hide Run, AllowedRun, Separate;
  }

  /** The kind of block a request asks for. */
  function Asks(S: nat, op: Op): set<AllocType> {
    match op
    case DoCalloc(_, size) => {KindOf(S, size)}
    case DoRealloc(k, _) => {k}
    case _ => {}
  }

  /** No call changes a byte outside its target or a block of a kind it does not ask for; a request changes no memory
      at all. */
  lemma StepFrame(S: nat, w: World, op: Op)
    requires Laid(S, w) && Allowed(S, w, op)
    ensures var w' := Step(S, w, op);
      && (forall a {:trigger w'.mem[a]} :: 0 <= a < HEAP_END && !Targets(op, a) ==> w'.mem[a] == w.mem[a])
      && (forall k :: k in w.blocks && k !in Asks(S, op) ==> (k in w'.blocks && w'.blocks[k] == w.blocks[k]))
      && (Asks(S, op) != {} ==> w'.mem == w.mem)
  {
    var m := MemAfter(S, w, op);
    forall a {:trigger m[a]} | 0 <= a < HEAP_END && !Targets(op, a) ensures m[a] == w.mem[a] {
      OnlyTargetsChange(S, w, op, a);
    }
    assert Asks(S, op) != {} ==> m == w.mem;
    hide MemAfter, Targets, Laid, Calloc, Realloc;
  }

  /** realloc is in place: granted exactly if the size passes the bounds test, it then keeps the pointer and every byte,
      and refused it leaves the world as it was. calloc of data is refused by the same test, and keeps every block. */
  lemma RequestsExact(S: nat, w: World, k: AllocType, n: nat)
    requires Laid(S, w)
    ensures Allowed(S, w, DoRealloc(k, n)) ==>
      Step(S, w, DoRealloc(k, n)) ==
        if DataFits(S, n) then w.(blocks := w.blocks[k := Block(w.blocks[k].start, n)]) else w
    ensures Allowed(S, w, DoCalloc(n, 1)) ==>
      Step(S, w, DoCalloc(n, 1)) ==
        if DataFits(S, n) then w.(blocks := w.blocks[DataAlloc := Block(HEAP_START + S, n)]) else w
  {
    assert Stores(DoRealloc(k, n)) == {} && Stores(DoCalloc(n, 1)) == {};
    if HEAP_START + S + TABLE_BUF + n < ADDRESS_SPACE {
      SizeOkExact(S, n);
      assert Wrap(n * 1) == n;
    }
    if Allowed(S, w, DoRealloc(k, n)) {
      PlacedInHeap(S, k, w.blocks[k]);
    }
  }

  /** calloc tells the three requests apart by the size of an element: a request for structs gets the start of the heap,
      one for anything but structs or single bytes the end of it, and the block is recorded with all its bytes. */
  lemma CallocExact(S: nat, w: World, nmemb: nat, size: nat)
    requires Laid(S, w) && Allowed(S, w, DoCalloc(nmemb, size))
    ensures Step(S, w, DoCalloc(nmemb, size)) ==
      if size == S then w.(blocks := w.blocks[StructAlloc := Block(0xa102_0000, nmemb * size)])
      else if size != 1 then w.(blocks := w.blocks[TableAlloc := Block(0xc000_0000 - nmemb * size - 1, nmemb * size)])
      else if S + nmemb + 0x10_0000 <= 0x1efe_0000 then
        w.(blocks := w.blocks[DataAlloc := Block(0xa102_0000 + S, nmemb)])
      else w
  {
    assert Stores(DoCalloc(nmemb, size)) == {};
    assert size == 1 ==> nmemb * size == nmemb;
    assert nmemb * size < ADDRESS_SPACE && Wrap(nmemb * size) == nmemb * size;
    if size == 1 {
      SizeOkExact(S, nmemb);
    }
  }

  /** Start-up: one struct, a table of elements of another size, and some bytes of data are granted pairwise disjoint
      ranges of the heap, in any order, if the table stays below the reserve and the data fit. */
  lemma StartupDisjoint(S: nat, entries: nat, entry: nat, d: nat)
    requires StructSize(S) && entry != 1 && entry != S && entries * entry < 0x10_0000
    requires S + d + 0x10_0000 <= 0x1efe_0000
    ensures var struct, table, data := Calloc(S, 1, S), Calloc(S, entries, entry), Calloc(S, d, 1);
      && 0xa102_0000 == struct && struct + S <= data
      && data + d <= table && table + entries * entry <= 0xc000_0000
  {
    assert Wrap(1 * S) == S && Wrap(d * 1) == d && Wrap(entries * entry) == entries * entry;
  }

  lemma GetData(S: nat, w: World, n: nat) returns (w': World)
    requires Laid(S, w) && DataFits(S, n)
    ensures Allowed(S, w, DoCalloc(n, 1)) && w' == Step(S, w, DoCalloc(n, 1)) && Laid(S, w')
    ensures w' == w.(blocks := w.blocks[DataAlloc := Block(HEAP_START + S, n)])
  {
    RequestsExact(S, w, DataAlloc, n);
    StepKeepsLaid(S, w, DoCalloc(n, 1));
    w' := Step(S, w, DoCalloc(n, 1));
  }

  lemma ResizeData(S: nat, w: World, n: nat) returns (w': World)
    requires Laid(S, w) && DataFits(S, n) && DataAlloc in w.blocks
    ensures Allowed(S, w, DoRealloc(DataAlloc, n)) && w' == Step(S, w, DoRealloc(DataAlloc, n)) && Laid(S, w')
    ensures w' == w.(blocks := w.blocks[DataAlloc := Block(HEAP_START + S, n)])
  {
    RequestsExact(S, w, DataAlloc, n);
    StepKeepsLaid(S, w, DoRealloc(DataAlloc, n));
    w' := Step(S, w, DoRealloc(DataAlloc, n));
    assert Placed(S, DataAlloc, w.blocks[DataAlloc]);
  }

  // What the conditions on requests are needed for

  predicate DataFits(S: nat, d: nat) {
    S + d + TABLE_BUF <= HEAP_SIZE
  }

  /** Only the last block of a kind counts: two granted requests for data always overlap. */
  lemma DataRequestsOverlap(S: nat, n: nat, m: nat)
    requires StructSize(S) && 0 < n < ADDRESS_SPACE && 0 < m < ADDRESS_SPACE
    requires Calloc(S, n, 1) != NULL && Calloc(S, m, 1) != NULL
    ensures !Block(Calloc(S, n, 1), n).Disjoint(Block(Calloc(S, m, 1), m))
  {
    assert Wrap(n * 1) == n && Wrap(m * 1) == m;
  }

  /** The reserve protects the table from every accepted data block exactly when the request is below it. */
  lemma TableReserveExact(S: nat, n: nat)
    requires StructSize(S) && S + TABLE_BUF < HEAP_SIZE && 0 < n < HEAP_SIZE
    ensures n < TABLE_BUF <==>
      forall d :: DataFits(S, d) ==>
        Block(HEAP_START + S, d).Disjoint(Block(Malloc(S, n, TableAlloc), n))
  {
    var d := HEAP_SIZE - S - TABLE_BUF;
    assert DataFits(S, d);
    assert Malloc(S, n, TableAlloc) == HEAP_END - n - 1;
    assert Block(HEAP_START + S, d).Disjoint(Block(HEAP_END - n - 1, n)) <==> n < TABLE_BUF;
  }

  /** A struct block is disjoint from every accepted data block exactly up to the size of one struct. */
  lemma StructReserveExact(S: nat, n: nat)
    requires StructSize(S) && S + TABLE_BUF < HEAP_SIZE && n < ADDRESS_SPACE
    ensures n <= S <==>
      forall d :: DataFits(S, d) ==>
        Block(HEAP_START + S, d).Disjoint(Block(Malloc(S, n, StructAlloc), n))
  {
    assert DataFits(S, 1);
    assert Block(HEAP_START + S, 1).Disjoint(Block(HEAP_START, n)) <==> n <= S;
  }

  /** realloc answers for the table too, but only a growth by at most one byte stays inside the heap. */
  lemma TableReallocExact(S: nat, n: nat, newSize: nat)
    requires StructSize(S) && n < HEAP_SIZE && S + TABLE_BUF + newSize <= HEAP_SIZE
    ensures var table := Malloc(S, n, TableAlloc);
      && Realloc(S, table, newSize) == table
      && (table + newSize <= HEAP_END <==> newSize <= n + 1)
  {
    assert Malloc(S, n, TableAlloc) == HEAP_END - n - 1;
  }
}
