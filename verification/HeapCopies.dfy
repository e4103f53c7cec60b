/** Heap blocks as buffers of the copy routines: what their loads reach, and that they carry out the steps of a run. */
module HeapCopies {
  import opened Words
  import opened Machine
  import opened MemSpec
  import opened Memlib
  import opened HeapRuns
  import Backward

  // The heap ends where RAM ends, so the words a copy loads around its source matter

  /** A descending copy loads nothing past the end of RAM. An ascending one does exactly if it takes the unaligned
      path, the source ends in the last word of RAM, and its last turn leaves at most 8 bytes with the misalignment. */
  lemma CopyPastRamExact(dst: int, src: nat, n: nat)
    requires src + n <= HEAP_END
    ensures DownLoadHi(dst, src, n) <= HEAP_END
    ensures UpLoadHi(dst, src, n) > HEAP_END <==>
      && n >= 24 && (src - dst) % 8 != 0
      && (n - HeadUp(dst)) % 16 + (src + HeadUp(dst)) % 8 <= 8
      && src + n > HEAP_END - 8
  {
    DownFootprint(dst, src, n);
    UpOverread(dst, src, n);
    UpOverreadIsOneWord(dst, src, n);
    hide UpLoadHi, DownLoadHi;
    RoundUpFacts(src + n);
  }

  /** So only copies out of the table block can: the other two end below the reserve. */
  lemma OnlyTableCopiesPastRam(S: nat, w: World, dst: int, src: nat, n: nat)
    requires Laid(S, w) && w.InOneBlock(src, n) && UpLoadHi(dst, src, n) > HEAP_END
    ensures TableAlloc in w.blocks && w.blocks[TableAlloc].Covers(src, n)
  {
    LiveRange(S, w, src, n);
    CopyPastRamExact(dst, src, n);
    hide UpLoadHi;
    var k :| k in w.blocks && w.blocks[k].Covers(src, n);
    assert !k.TableAlloc? ==> src + n <= HEAP_END - TABLE_BUF;
  }

  /** And they do: a client with a table of sixteen two-byte elements and 64 bytes of data copies the table, by memcpy
      or by memmove, to the first aligned data address, and a word past the end of RAM is loaded. */
  lemma TableCopyPastRam(S: nat, w0: World)
    requires Fresh(S, w0) && S != 2 && DataFits(S, 64)
    ensures var ops := [DoCalloc(16, 2), DoCalloc(64, 1)];
      var dst, src := RoundUp(HEAP_START + S), HEAP_END - 33;
      && AllowedRun(S, w0, ops)
      && Run(S, w0, ops).InOneBlock(src, 32)
      && Allowed(S, Run(S, w0, ops), DoMemcpy(dst, src, 32)) && Allowed(S, Run(S, w0, ops), DoMemmove(dst, src, 32))
      && dst <= src && UpLoadHi(dst, src, 32) == HEAP_END + 8
  {
    var table, data := DoCalloc(16, 2), DoCalloc(64, 1);
    var dst, src := RoundUp(HEAP_START + S), HEAP_END - 33;
    RoundUpFacts(HEAP_START + S);
    WordPastRam(dst);
    hide UpLoadHi, RoundUp;
    var w1 := GetTable(S, w0);
    var w2 := GetData(S, w1, 64);
    assert w2.blocks[TableAlloc].Covers(src, 32) && w2.blocks[DataAlloc].Covers(dst, 32);
    assert Allowed(S, w2, DoMemcpy(dst, src, 32)) && Allowed(S, w2, DoMemmove(dst, src, 32));
    hide Step, Laid, Allowed, Fresh;
    RunCons(S, w1, data, []);
    RunCons(S, w0, table, [data]);
    assert [table] + ([data] + []) == [table, data];
  }

  lemma GetTable(S: nat, w0: World) returns (w: World)
    requires Fresh(S, w0) && S != 2
    ensures Laid(S, w0) && Allowed(S, w0, DoCalloc(16, 2)) && w == Step(S, w0, DoCalloc(16, 2)) && Laid(S, w)
    ensures w.blocks == map[TableAlloc := Block(HEAP_END - 33, 32)]
  {
    StepKeepsLaid(S, w0, DoCalloc(16, 2));
    w := Step(S, w0, DoCalloc(16, 2));
  }

  lemma WordPastRam(dst: int)
    requires dst % 8 == 0
    ensures UpLoadHi(dst, HEAP_END - 33, 32) == HEAP_END + 8
  {
    assert HeadUp(dst) == 0;
  }

  // The routines carry out the steps

  /** The ascending copy is taken, and loads a word past the end of RAM. */
  predicate CopiesPastRam(op: Op) {
    (op.DoMemcpy? || (op.DoMemmove? && op.dst <= op.src)) && UpLoadHi(op.dst, op.src, op.n) > HEAP_END
  }

  /** A call of a client on a hart whose memory starts with the RAM up to the end of the heap: the routines of memops.S,
      reached through the wrappers, have exactly the effect of the step there and none beyond. Something must answer a
      load of the word past the end of RAM if the call makes one. */
  method Execute(S: nat, ghost w: World, op: Op, h: Hart, label3: int)
    requires Laid(S, w) && Allowed(S, w, op)
    requires HEAP_END <= h.mem.Length < ADDRESS_SPACE && h.mem[..HEAP_END] == w.mem
    requires CopiesPastRam(op) ==> HEAP_END + 8 <= h.mem.Length
    modifies h.mem, h`storeCount, h`loadLo, h`loadHi
    ensures h.mem[..HEAP_END] == Step(S, w, op).mem && h.mem[HEAP_END..] == old(h.mem[HEAP_END..])
  {
    hide Byte, UpLoadHi, DownLoadHi, Copied, Filled;
    ghost var m := h.mem[..];
    assert m[..HEAP_END] == w.mem && m[HEAP_END..] == h.mem[HEAP_END..];
    match op
    case DoStore(dst, value) =>
      LiveRange(S, w, dst, 1);
      ByteExtend(value);
      h.StoreByte(dst, value as bv64);
      assert h.mem[..HEAP_END] == h.mem[..][..HEAP_END] && h.mem[HEAP_END..] == h.mem[..][HEAP_END..];
    case DoMemset(dst, ch, n) =>
      LiveRange(S, w, dst, n);
      var r := Memlib.Memset(h, dst, ch, n, label3);
      FilledBelow(m, HEAP_END, dst, Byte(ch, 0), n);
      assert h.mem[..HEAP_END] == h.mem[..][..HEAP_END] && h.mem[HEAP_END..] == h.mem[..][HEAP_END..];
    case DoMemcpy(dst, src, n) =>
      LiveRange(S, w, dst, n);
      LoadsAtMostOneWordPast(dst, src, n);
      var a0, s0, s1 := Forward.Memcpy(h, dst, src, n, 0, 0);
      CopiedBelow(m, HEAP_END, dst, src, n);
      assert h.mem[..HEAP_END] == h.mem[..][..HEAP_END] && h.mem[HEAP_END..] == h.mem[..][HEAP_END..];
    case DoMemmove(dst, src, n) =>
      LiveRange(S, w, dst, n);
      LoadsAtMostOneWordPast(dst, src, n);
      CopyPastRamExact(dst, src, n);
      var a0, s0, s1 := Backward.Memmove(h, dst, src, n, 0, 0);
      CopiedBelow(m, HEAP_END, dst, src, n);
      assert h.mem[..HEAP_END] == h.mem[..][..HEAP_END] && h.mem[HEAP_END..] == h.mem[..][HEAP_END..];
    case _ =>
  }

  lemma LoadsAtMostOneWordPast(dst: int, src: nat, n: nat)
    requires src + n <= HEAP_END
    ensures UpLoadHi(dst, src, n) <= HEAP_END + 8
  {
    UpOverreadIsOneWord(dst, src, n);
    hide UpLoadHi;
    RoundUpFacts(src + n);
  }

  lemma FilledBelow(m: seq<bv8>, e: nat, d: int, b: bv8, n: nat)
    requires e <= |m| && 0 <= d && d + n <= e
    ensures Filled(m, d, b, n)[..e] == Filled(m[..e], d, b, n) && Filled(m, d, b, n)[e..] == m[e..]
  {}

  lemma CopiedBelow(m: seq<bv8>, e: nat, d: int, s: int, n: nat)
    requires e <= |m| && 0 <= d && d + n <= e && 0 <= s && s + n <= e
    ensures Copied(m, d, s, n)[..e] == Copied(m[..e], d, s, n) && Copied(m, d, s, n)[e..] == m[e..]
  {}
}
