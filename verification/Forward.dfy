/** _memcpy: ascending copy. */
module Forward {
  import opened Words
  import opened Machine
  import opened MemSpec

  /** Copying [first, last) upwards from delta further on never overwrites a source byte still to be read. */
  predicate SafeUp(first: int, last: int, delta: int) {
    delta >= 0 || last + delta <= first
  }

  method BytesUp(h: Hart, ghost first: int, dst: int, src: int, last: int, ghost m: seq<bv8>) returns (a0: int, a1: int)
    requires |m| == h.mem.Length
    requires 0 <= first <= dst < last <= |m| && 0 <= first + (src - dst) && last + (src - dst) <= |m|
    requires SafeUp(first, last, src - dst)
    requires h.Moved(m, first, dst, src - dst)
    modifies h.mem, h`storeCount, h`loadLo, h`loadHi
    ensures a0 == last && a1 == last + (src - dst)
    ensures h.Moved(m, first, last, src - dst)
    ensures h.storeCount == old(h.storeCount) + (last - dst)
    ensures h.loadLo == Min(old(h.loadLo), src) && h.loadHi == Max(old(h.loadHi), a1)
  {
    hide Byte, Aligned;
    ghost var delta := src - dst;
    a0, a1 := dst, src;
    while true
      invariant dst <= a0 < last && a1 == a0 + delta
      invariant h.Moved(m, first, a0, delta)
      invariant h.storeCount == old(h.storeCount) + (a0 - dst)
      invariant h.loadLo == if a0 == dst then old(h.loadLo) else Min(old(h.loadLo), src)
      invariant h.loadHi == if a0 == dst then old(h.loadHi) else Max(old(h.loadHi), a1)
      decreases last - a0
    {
      var a5 := h.LoadByte(a1);
      h.StoreByte(a0, a5);
      a1 := a1 + 1;
      a0 := a0 + 1;
      if !(a0 < last) { break; }
    }
  }

  /** Store a source word at the upper end of the part already copied. */
  method StoreNext(h: Hart, ghost first: int, dst: int, w: bv64, ghost delta: int, ghost m: seq<bv8>)
    requires |m| == h.mem.Length
    requires 0 <= first <= dst && dst + 8 <= |m| && 0 <= first + delta && dst + 8 + delta <= |m|
    requires Aligned(dst)
    requires h.Moved(m, first, dst, delta)
    requires forall i :: 0 <= i < 8 ==> Byte(w, i) == m[dst + delta + i]
    modifies h.mem, h`storeCount
    ensures h.Moved(m, first, dst + 8, delta)
    ensures h.storeCount == old(h.storeCount) + 1
  {
    hide Byte, Aligned;
    h.StoreWord(dst, w);
  }

  /** A word load ahead of the copy: with [first, dst) copied and the source ending at end,
      the loaded bytes that belong to the rest of the source are those of m. */
  method LoadAhead(h: Hart, ghost first: int, ghost dst: int, a: int, ghost end: int, ghost delta: int,
        ghost m: seq<bv8>)
    returns (w: bv64)
    requires |m| == h.mem.Length
    requires 0 <= first <= dst && 0 <= first + delta && dst + delta <= end <= |m| && end - delta <= |m|
    requires SafeUp(first, end - delta, delta)
    requires 0 <= a && a + 8 <= |m| && Aligned(a)
    requires h.Moved(m, first, dst, delta)
    modifies h`loadLo, h`loadHi
    ensures forall j :: 0 <= j < 8 && dst + delta <= a + j < end ==> Byte(w, j) == m[a + j]
    ensures h.loadLo == Min(old(h.loadLo), a) && h.loadHi == Max(old(h.loadHi), a + 8)
  {
    hide Byte;
    w := h.LoadWord(a);
  }

  method WordsUp(h: Hart, ghost first: int, dst: int, src: int, last: int, ghost m: seq<bv8>) returns (a0: int, a1: int)
    requires |m| == h.mem.Length
    requires 0 <= first <= dst < last <= |m| && 0 <= first + (src - dst) && last + (src - dst) <= |m|
    requires SafeUp(first, last, src - dst)
    requires Aligned(dst) && Aligned(src) && (last - dst) % 8 == 0
    requires h.Moved(m, first, dst, src - dst)
    modifies h.mem, h`storeCount, h`loadLo, h`loadHi
    ensures a0 == last && a1 == last + (src - dst)
    ensures h.Moved(m, first, last, src - dst)
    ensures last == dst + 8 * (h.storeCount - old(h.storeCount))
    ensures h.loadLo == Min(old(h.loadLo), src) && h.loadHi == Max(old(h.loadHi), a1)
  {
    hide Byte, Aligned;
    ghost var delta := src - dst;
    a0, a1 := dst, src;
    ghost var k, n := 0, (last - dst) / 8;
    while true
      invariant a0 == dst + 8 * k && a1 == src + 8 * k && 0 <= k < n
      invariant h.Moved(m, first, a0, delta)
      invariant h.storeCount == old(h.storeCount) + k
      invariant h.loadLo == if a0 == dst then old(h.loadLo) else Min(old(h.loadLo), src)
      invariant h.loadHi == if a0 == dst then old(h.loadHi) else Max(old(h.loadHi), a1)
      decreases last - a0
    {
      AlignedStep(src, k);
      AlignedStep(dst, k);
      var a4 := LoadAhead(h, first, a0, a1, last + delta, delta, m);
      a1 := a1 + 8;
      StoreNext(h, first, a0, a4, delta, m);
      a0 := a0 + 8;
      k := k + 1;
      if !(a0 < last) { break; }
    }
  }

  /** Four loads through a4, a5, s0 and s1, then the four stores: a quarter of the unrolled loop. */
  method FourWordsUp(h: Hart, ghost first: int, dst: int, src: int, ghost m: seq<bv8>) returns (s0: bv64, s1: bv64)
    requires |m| == h.mem.Length
    requires 0 <= first <= dst && dst + 32 <= |m| && 0 <= first + (src - dst) && src + 32 <= |m|
    requires SafeUp(first, dst + 32, src - dst)
    requires Aligned(dst) && Aligned(src)
    requires h.Moved(m, first, dst, src - dst)
    modifies h.mem, h`storeCount, h`loadLo, h`loadHi
    ensures h.Moved(m, first, dst + 32, src - dst)
    ensures h.storeCount == old(h.storeCount) + 4
    ensures h.loadLo == Min(old(h.loadLo), src) && h.loadHi == Max(old(h.loadHi), src + 32)
  {
    hide Byte, Aligned;
    ghost var delta := src - dst;
    AlignedStep(src, 1); AlignedStep(src, 2); AlignedStep(src, 3);
    AlignedStep(dst, 1); AlignedStep(dst, 2); AlignedStep(dst, 3);
    var a4 := LoadAhead(h, first, dst, src, src + 32, delta, m);
    var a5 := LoadAhead(h, first, dst, src + 8, src + 32, delta, m);
    s0 := LoadAhead(h, first, dst, src + 16, src + 32, delta, m);
    s1 := LoadAhead(h, first, dst, src + 24, src + 32, delta, m);
    StoreNext(h, first, dst, a4, delta, m);
    StoreNext(h, first, dst + 8, a5, delta, m);
    StoreNext(h, first, dst + 16, s0, delta, m);
    StoreNext(h, first, dst + 24, s1, delta, m);
  }

  /** The body of the unrolled loop. */
  method SixteenWordsUp(h: Hart, ghost first: int, dst: int, src: int, ghost m: seq<bv8>) returns (s0: bv64, s1: bv64)
    requires |m| == h.mem.Length
    requires 0 <= first <= dst && dst + 128 <= |m| && 0 <= first + (src - dst) && src + 128 <= |m|
    requires SafeUp(first, dst + 128, src - dst)
    requires Aligned(dst) && Aligned(src)
    requires h.Moved(m, first, dst, src - dst)
    modifies h.mem, h`storeCount, h`loadLo, h`loadHi
    ensures h.Moved(m, first, dst + 128, src - dst)
    ensures h.storeCount == old(h.storeCount) + 16
    ensures h.loadLo == Min(old(h.loadLo), src) && h.loadHi == Max(old(h.loadHi), src + 128)
  {
    hide Byte, Aligned;
    AlignedStep(src, 4); AlignedStep(src, 8); AlignedStep(src, 12);
    AlignedStep(dst, 4); AlignedStep(dst, 8); AlignedStep(dst, 12);
    s0, s1 := FourWordsUp(h, first, dst, src, m);
    s0, s1 := FourWordsUp(h, first, dst + 32, src + 32, m);
    s0, s1 := FourWordsUp(h, first, dst + 64, src + 64, m);
    s0, s1 := FourWordsUp(h, first, dst + 96, src + 96, m);
  }

  /** The unrolled loop: sixteen words per turn. */
  method BlocksUp(h: Hart, ghost first: int, dst: int, src: int, last: int, ghost m: seq<bv8>)
    returns (a0: int, a1: int, s0: bv64, s1: bv64)
    requires |m| == h.mem.Length
    requires 0 <= first <= dst < last <= |m| && 0 <= first + (src - dst) && last + (src - dst) <= |m|
    requires SafeUp(first, last, src - dst)
    requires Aligned(dst) && Aligned(src) && (last - dst) % 128 == 0
    requires h.Moved(m, first, dst, src - dst)
    modifies h.mem, h`storeCount, h`loadLo, h`loadHi
    ensures a0 == last && a1 == last + (src - dst)
    ensures h.Moved(m, first, last, src - dst)
    ensures last == dst + 8 * (h.storeCount - old(h.storeCount))
    ensures h.loadLo == Min(old(h.loadLo), src) && h.loadHi == Max(old(h.loadHi), a1)
  {
    hide Byte, Aligned;
    ghost var delta := src - dst;
    a0, a1 := dst, src;
    ghost var k, n := 0, (last - dst) / 128;
    while true
      invariant a0 == dst + 128 * k && a1 == src + 128 * k && 0 <= k < n
      invariant h.Moved(m, first, a0, delta)
      invariant h.storeCount == old(h.storeCount) + 16 * k
      invariant h.loadLo == if a0 == dst then old(h.loadLo) else Min(old(h.loadLo), src)
      invariant h.loadHi == if a0 == dst then old(h.loadHi) else Max(old(h.loadHi), a1)
      decreases n - k
    {
      AlignedStep(dst, 16 * k);
      AlignedStep(src, 16 * k);
      s0, s1 := SixteenWordsUp(h, first, a0, a1, m);
      a0 := a0 + 128;
      a1 := a1 + 128;
      k := k + 1;
      if !(a0 < last) { break; }
    }
  }

  /** Shift two neighbouring source words (at a and a + 8) together and store the result at dst. */
  method StoreMerged(h: Hart, ghost first: int, dst: int, w0: bv64, w1: bv64, t: nat, ghost a: int, ghost m: seq<bv8>)
    returns (s: bv64)
    requires |m| == h.mem.Length && 1 <= t < 8
    requires 0 <= a && a + t + 8 <= |m| && 0 <= first <= dst && dst + 8 <= |m| && 0 <= first + (a + t - dst)
    requires Aligned(dst)
    requires h.Moved(m, first, dst, a + t - dst)
    requires forall j :: t <= j < 8 ==> Byte(w0, j) == m[a + j]
    requires forall j :: 0 <= j < t ==> Byte(w1, j) == m[a + 8 + j]
    modifies h.mem, h`storeCount
    ensures h.Moved(m, first, dst + 8, a + t - dst)
    ensures h.storeCount == old(h.storeCount) + 1
  {
    hide Byte, Merge, Aligned;
    s := Merge(w0, w1, t);
    MergedBytes(w0, w1, t, m, a);
    StoreNext(h, first, dst, s, a + t - dst, m);
  }

  /** One turn of the software-pipelined loop. Register a5 holds the word at a1 from byte t on and a4 the next
      word, both as they were in m (as far as the source reaches, which ends at end). */
  method TurnUp(h: Hart, ghost first: int, a0: int, a1: int, a4: bv64, a5: bv64, t: nat, ghost end: int,
        ghost m: seq<bv8>)
    returns (a4': bv64, a5': bv64, s0: bv64, s1: bv64)
    requires |m| == h.mem.Length && 1 <= t < 8
    requires 0 <= first <= a0 && 0 <= a1 && a1 + 32 <= |m|
    requires var delta := a1 + t - a0;
      0 <= first + delta && a0 + 16 + delta <= end <= |m| && end - delta <= |m| &&
      SafeUp(first, end - delta, delta) && h.Moved(m, first, a0, delta)
    requires Aligned(a0) && Aligned(a1)
    requires forall j :: t <= j < 8 ==> Byte(a5, j) == m[a1 + j]
    requires forall j :: 0 <= j < 8 && a1 + 8 + j < end ==> Byte(a4, j) == m[a1 + 8 + j]
    modifies h.mem, h`storeCount, h`loadLo, h`loadHi
    ensures h.Moved(m, first, a0 + 16, a1 + t - a0)
    ensures forall j :: t <= j < 8 && a1 + 16 + j < end ==> Byte(a5', j) == m[a1 + 16 + j]
    ensures forall j :: 0 <= j < 8 && a1 + 24 + j < end ==> Byte(a4', j) == m[a1 + 24 + j]
    ensures h.storeCount == old(h.storeCount) + 2
    ensures h.loadLo == Min(old(h.loadLo), a1 + 16) && h.loadHi == Max(old(h.loadHi), a1 + 32)
  {
    hide Byte, Aligned;
    ghost var delta := a1 + t - a0;
    AlignedStep(a1, 2); AlignedStep(a1, 3); AlignedStep(a0, 1);
    a5' := LoadAhead(h, first, a0, a1 + 16, end, delta, m);
    s0 := StoreMerged(h, first, a0, a5, a4, t, a1, m);
    s1 := StoreMerged(h, first, a0 + 8, a4, a5', t, a1 + 8, m);
    a4' := LoadAhead(h, first, a0 + 16, a1 + 24, end, delta, m);
  }

  /** The software-pipelined loop over n turns; base is the aligned source pointer and t its misalignment. */
  method TurnsUp(h: Hart, ghost first: int, dst: int, base: int, t: nat, a3: int, ghost n: int, ghost end: int,
        ghost m: seq<bv8>)
    returns (a0: int, a1: int, s0: bv64, s1: bv64)
    requires |m| == h.mem.Length && 1 <= t < 8 && 1 <= n && a3 == dst + 16 * n
    requires 0 <= first <= dst && 0 <= base && base + 16 * n + 16 <= |m|
    requires var delta := base + t - dst;
      0 <= first + delta && a3 + delta <= end <= |m| && end - delta <= |m| &&
      SafeUp(first, end - delta, delta) && h.Moved(m, first, dst, delta)
    requires Aligned(dst) && Aligned(base)
    modifies h.mem, h`storeCount, h`loadLo, h`loadHi
    ensures a0 == a3 && a1 == base + 16 * n
    ensures h.Moved(m, first, a3, base + t - dst)
    ensures h.storeCount == old(h.storeCount) + 2 * n
    ensures h.loadLo == Min(old(h.loadLo), base) && h.loadHi == Max(old(h.loadHi), base + 16 * n + 16)
  {
    hide Byte, Aligned;
    ghost var delta := base + t - dst;
    a0, a1 := dst, base;
    AlignedStep(base, 1);
    var a5 := LoadAhead(h, first, dst, a1, end, delta, m);
    var a4 := LoadAhead(h, first, dst, a1 + 8, end, delta, m);
    ghost var k := 0;
    while true
      invariant a0 == dst + 16 * k && a1 == base + 16 * k && 0 <= k < n
      invariant h.Moved(m, first, a0, delta)
      invariant forall j :: t <= j < 8 ==> Byte(a5, j) == m[a1 + j]
      invariant forall j :: 0 <= j < 8 && a1 + 8 + j < end ==> Byte(a4, j) == m[a1 + 8 + j]
      invariant h.storeCount == old(h.storeCount) + 2 * k
      invariant h.loadLo == Min(old(h.loadLo), base)
      invariant h.loadHi == Max(old(h.loadHi), a1 + 16)
      decreases n - k
    {
      AlignedStep(dst, 2 * k);
      AlignedStep(base, 2 * k);
      a4, a5, s0, s1 := TurnUp(h, first, a0, a1, a4, a5, t, end, m);
      a1 := a1 + 16;
      a0 := a0 + 16;
      k := k + 1;
      if !(a0 < a3) { break; }
    }
  }

  /** Mutually misaligned buffers: a0 is aligned, a1 is not, and a2 bytes are left. */
  method UnalignedUp(h: Hart, ghost first: int, dst: int, src: int, sz: int, ghost m: seq<bv8>)
    returns (a0: int, a1: int, a2: int, s0: bv64, s1: bv64)
    requires |m| == h.mem.Length
    requires 16 <= sz && 0 <= first <= dst && dst + sz <= |m| && 0 <= first + (src - dst) && src + sz <= |m|
    requires SafeUp(first, dst + sz, src - dst)
    requires Aligned(dst) && !Aligned(src)
    requires src - src % 8 + sz / 16 * 16 + 16 <= |m|
    requires h.Moved(m, first, dst, src - dst)
    modifies h.mem, h`storeCount, h`loadLo, h`loadHi
    ensures a2 == sz % 16 && a0 == dst + sz - a2 && a1 == src + sz - a2
    ensures h.Moved(m, first, a0, src - dst)
    ensures h.storeCount == old(h.storeCount) + 2 * (sz / 16)
    ensures h.loadLo == Min(old(h.loadLo), src - src % 8)
    ensures h.loadHi == Max(old(h.loadHi), src - src % 8 + sz / 16 * 16 + 16)
  {
    hide Hart.Moved, SafeUp;
    var t3 := src % 8;
    var a3 := sz - sz % 16;
    a1 := src - src % 8;
    a2 := sz % 16;
    a3 := a3 + dst;
    a0, a1, s0, s1 := TurnsUp(h, first, dst, a1, t3, a3, sz / 16, src + sz, m);
    a1 := a1 + t3;
  }

  /** 16*SZREG bytes per turn while that many are left. */
  method BlocksPart(h: Hart, ghost first: int, dst: int, src: int, sz: int, ghost m: seq<bv8>)
    returns (a0: int, a1: int, a2: int, s0: bv64, s1: bv64)
    requires |m| == h.mem.Length
    requires 8 <= sz && 0 <= first <= dst && dst + sz <= |m| && 0 <= first + (src - dst) && src + sz <= |m|
    requires SafeUp(first, dst + sz, src - dst)
    requires Aligned(dst) && Aligned(src)
    requires h.Moved(m, first, dst, src - dst)
    modifies h.mem, h`storeCount, h`loadLo, h`loadHi
    ensures a2 == sz % 128 && a0 == dst + sz - a2 && a1 == src + sz - a2 && Aligned(a0) && Aligned(a1)
    ensures h.Moved(m, first, a0, src - dst)
    ensures sz == a2 + 8 * (h.storeCount - old(h.storeCount))
    ensures h.loadLo == if sz < 128 then old(h.loadLo) else Min(old(h.loadLo), src)
    ensures h.loadHi == if sz < 128 then old(h.loadHi) else Max(old(h.loadHi), a1)
  {
    AlignedStep(dst, 16 * (sz / 128)); AlignedStep(src, 16 * (sz / 128));
    hide Hart.Moved, Aligned;
    a0, a1, a2, s0, s1 := dst, src, sz, *, *;
    if a2 >= 128 {
      var a3 := a0;
      a3 := a3 + a2;
      a2 := a2 % 128;
      a3 := a3 - a2;
      a0, a1, s0, s1 := BlocksUp(h, first, a0, a1, a3, m);
    }
  }

  /** One word per turn while a whole word is left. */
  method WordsPart(h: Hart, ghost first: int, dst: int, src: int, sz: nat, ghost m: seq<bv8>)
    returns (a0: int, a1: int, a2: int)
    requires |m| == h.mem.Length
    requires 0 <= first <= dst && dst + sz <= |m| && 0 <= first + (src - dst) && src + sz <= |m|
    requires SafeUp(first, dst + sz, src - dst)
    requires Aligned(dst) && Aligned(src)
    requires h.Moved(m, first, dst, src - dst)
    modifies h.mem, h`storeCount, h`loadLo, h`loadHi
    ensures a2 == sz % 8 && a0 == dst + sz - a2 && a1 == src + sz - a2
    ensures h.Moved(m, first, a0, src - dst)
    ensures sz == a2 + 8 * (h.storeCount - old(h.storeCount))
    ensures h.loadLo == if sz < 8 then old(h.loadLo) else Min(old(h.loadLo), src)
    ensures h.loadHi == if sz < 8 then old(h.loadHi) else Max(old(h.loadHi), a1)
  {
    hide Aligned;
    a0, a1, a2 := dst, src, sz;
    var a3 := a0 + a2;
    a3 := a3 - a3 % 8;
    RoundDown(dst, sz);
    if a3 != a0 {
      a2 := a2 % 8;
      a0, a1 := WordsUp(h, first, a0, a1, a3, m);
    }
  }

  /** Mutually aligned buffers: both pointers are aligned and sz bytes are left. */
  method AlignedUp(h: Hart, ghost first: int, dst: int, src: int, sz: int, ghost m: seq<bv8>)
    returns (a0: int, a1: int, a2: int, s0: bv64, s1: bv64)
    requires |m| == h.mem.Length
    requires 8 <= sz && 0 <= first <= dst && dst + sz <= |m| && 0 <= first + (src - dst) && src + sz <= |m|
    requires SafeUp(first, dst + sz, src - dst)
    requires Aligned(dst) && Aligned(src)
    requires h.Moved(m, first, dst, src - dst)
    modifies h.mem, h`storeCount, h`loadLo, h`loadHi
    ensures a2 == sz % 8 && a0 == dst + sz - a2 && a1 == src + sz - a2
    ensures h.Moved(m, first, a0, src - dst)
    ensures sz == a2 + 8 * (h.storeCount - old(h.storeCount))
    ensures h.loadLo == Min(old(h.loadLo), src) && h.loadHi == Max(old(h.loadHi), a1)
  {
    hide Hart.Moved, Aligned;
    a0, a1, a2, s0, s1 := BlocksPart(h, first, dst, src, sz, m);
    a0, a1, a2 := WordsPart(h, first, a0, a1, a2, m);
  }

  /** Bytewise copying until the destination is aligned. */
  method AlignHead(h: Hart, dst: int, src: int, sz: nat, ghost m: seq<bv8>) returns (a0: int, a1: int, a2: int)
    requires m == h.mem[..] && 24 <= sz
    requires 0 <= dst && dst + sz <= |m| && 0 <= src && src + sz <= |m|
    requires SafeUp(dst, dst + sz, src - dst)
    modifies h.mem, h`storeCount, h`loadLo, h`loadHi
    ensures a0 == dst + HeadUp(dst) && a1 == src + HeadUp(dst) && a2 == sz - HeadUp(dst)
    ensures Aligned(a0) && a2 > 16
    ensures h.Moved(m, dst, a0, src - dst)
    ensures h.storeCount == old(h.storeCount) + HeadUp(dst)
    ensures h.loadLo == if a0 == dst then old(h.loadLo) else Min(old(h.loadLo), src)
    ensures h.loadHi == if a0 == dst then old(h.loadHi) else Max(old(h.loadHi), a1)
  {
    a0, a1, a2 := dst, src, sz;
    var a3 := a0 % 8;
    if a3 != 0 {
      a3 := a3 - 8;
      a2 := a2 + a3;
      a3 := a0 - a3;
      a0, a1 := BytesUp(h, dst, a0, a1, a3, m);
    }
  }

  /** The bytes that are left after the word loops. */
  method Tail(h: Hart, ghost first: int, dst: int, src: int, sz: nat, ghost m: seq<bv8>)
    requires |m| == h.mem.Length
    requires 0 <= first <= dst && dst + sz <= |m| && 0 <= first + (src - dst) && src + sz <= |m|
    requires SafeUp(first, dst + sz, src - dst)
    requires h.Moved(m, first, dst, src - dst)
    modifies h.mem, h`storeCount, h`loadLo, h`loadHi
    ensures h.Moved(m, first, dst + sz, src - dst)
    ensures h.storeCount == old(h.storeCount) + sz
    ensures h.loadLo == if sz == 0 then old(h.loadLo) else Min(old(h.loadLo), src)
    ensures h.loadHi == if sz == 0 then old(h.loadHi) else Max(old(h.loadHi), src + sz)
  {
    if sz != 0 {
      var a2 := sz + dst;
      var a0, a1 := BytesUp(h, first, dst, src, a2, m);
    }
  }

  /** The word loops of _memcpy, for sz bytes from an aligned destination on. */
  method Body(h: Hart, ghost first: int, dst: int, src: int, sz: int, s0: bv64, s1: bv64, ghost m: seq<bv8>)
    returns (a0: int, a1: int, a2: int, s0': bv64, s1': bv64)
    requires |m| == h.mem.Length
    requires 16 <= sz && 0 <= first <= dst && dst + sz <= |m| && 0 <= first + (src - dst) && src + sz <= |m|
    requires SafeUp(first, dst + sz, src - dst)
    requires Aligned(dst)
    requires LoopLoadHi(src, sz) <= |m|
    requires h.Moved(m, first, dst, src - dst)
    modifies h.mem, h`storeCount, h`loadLo, h`loadHi
    ensures s0' == s0 && s1' == s1
    ensures a0 == dst + sz - a2 && a1 == src + sz - a2
    ensures a2 == Rest(src, sz)
    ensures h.Moved(m, first, a0, src - dst)
    ensures h.storeCount == old(h.storeCount) + LoopStores(src, sz)
    ensures h.loadLo == Min(old(h.loadLo), src - src % 8)
    ensures h.loadHi == Max(old(h.loadHi), LoopLoadHi(src, sz))
  {
    var t3 := src % 8;
    var t0, t1 := s0, s1;
    if t3 != 0 {
      a0, a1, a2, s0', s1' := UnalignedUp(h, first, dst, src, sz, m);
    } else {
      a0, a1, a2, s0', s1' := AlignedUp(h, first, dst, src, sz, m);
    }
    s1' := t1;
    s0' := t0;
  }

  /** Everything before the final byte loop, for at least 3*SZREG bytes. */
  method Bulk(h: Hart, dst: int, src: int, sz: nat, s0: bv64, s1: bv64, ghost m: seq<bv8>)
    returns (a0: int, a1: int, a2: int, s0': bv64, s1': bv64)
    requires m == h.mem[..] && 24 <= sz
    requires 0 <= dst && dst + sz <= |m| && 0 <= src && src + sz <= |m|
    requires SafeUp(dst, dst + sz, src - dst)
    requires UpLoadHi(dst, src, sz) <= |m|
    modifies h.mem, h`storeCount, h`loadLo, h`loadHi
    ensures s0' == s0 && s1' == s1
    ensures 0 <= a2 <= sz && a0 == dst + sz - a2 && a1 == src + sz - a2
    ensures h.Moved(m, dst, a0, src - dst)
    ensures h.storeCount + a2 == old(h.storeCount) + UpStores(dst, src, sz)
    ensures h.loadLo == Min(old(h.loadLo), UpLoadLo(dst, src, sz))
    ensures Max(h.loadHi, src + sz) == Max(old(h.loadHi), UpLoadHi(dst, src, sz))
    ensures a2 == 0 ==> src + sz <= h.loadHi
  {
    hide HeadUp, LoopLoadHi, LoopStores, Rest, Aligned, Hart.Moved;
    a0, a1, a2 := AlignHead(h, dst, src, sz, m);
    a0, a1, a2, s0', s1' := Body(h, dst, a0, a1, a2, s0, s1, m);
  }

  /** _memcpy: for disjoint buffers, and for overlapping ones whose destination is not above the source. */
  method Memcpy(h: Hart, dst: int, src: int, sz: nat, s0: bv64, s1: bv64) returns (a0: int, s0': bv64, s1': bv64)
    requires 0 <= dst && dst + sz <= h.mem.Length && 0 <= src && src + sz <= h.mem.Length
    requires SafeUp(dst, dst + sz, src - dst)
    requires UpLoadHi(dst, src, sz) <= h.mem.Length
    modifies h.mem, h`storeCount, h`loadLo, h`loadHi
    ensures a0 == dst && s0' == s0 && s1' == s1
    ensures h.mem[..] == Copied(old(h.mem[..]), dst, src, sz)
    ensures h.storeCount == old(h.storeCount) + UpStores(dst, src, sz)
    ensures sz > 0 ==> h.loadLo == Min(old(h.loadLo), UpLoadLo(dst, src, sz))
    ensures sz > 0 ==> h.loadHi == Max(old(h.loadHi), UpLoadHi(dst, src, sz))
    ensures sz == 0 ==> h.loadLo == old(h.loadLo) && h.loadHi == old(h.loadHi)
  {
    hide HeadUp, LoopLoadHi, LoopStores, Rest, Copied, Aligned;
    ghost var m := h.mem[..];
    assert sz < 24 ==> UpLoadLo(dst, src, sz) == src && UpLoadHi(dst, src, sz) == src + sz;
    assert sz < 24 ==> UpStores(dst, src, sz) == sz;
    assert sz >= 24 ==> UpLoadLo(dst, src, sz) <= src && UpLoadHi(dst, src, sz) >= src + sz;
    NothingMoved(h, dst, src - dst);
    hide UpLoadLo, UpLoadHi, UpStores, Hart.Moved;
    var a1, a2 := src, sz;
    a0, s0', s1' := dst, s0, s1;
    var t2 := a0;
    if a2 >= 24 {
      a0, a1, a2, s0', s1' := Bulk(h, a0, a1, a2, s0, s1, m);
    }
    Tail(h, dst, a0, a1, a2, m);
    assert a1 - a0 == src - dst && a0 + a2 == dst + sz;
    MovedIsCopied(h, m, dst, src, sz);
    a0 := t2;
  }

  lemma NothingMoved(h: Hart, dst: int, delta: int)
    ensures h.Moved(h.mem[..], dst, dst, delta)
  {}

  lemma MovedIsCopied(h: Hart, m: seq<bv8>, dst: int, src: int, sz: nat)
    requires |m| == h.mem.Length
    requires 0 <= dst && dst + sz <= |m| && 0 <= src && src + sz <= |m|
    requires h.Moved(m, dst, dst + sz, src - dst)
    ensures h.mem[..] == Copied(m, dst, src, sz)
  {}
}
