/** _memcpy_r: descending copy, and _memmove, which picks the direction. */
module Backward {
  import opened Words
  import opened Machine
  import opened MemSpec
  import Forward

  /** Copying [first, last) downwards from delta further on never overwrites a source byte still to be read. */
  predicate SafeDown(first: int, last: int, delta: int) {
    delta <= 0 || last <= first + delta
  }

  /** Bytewise copying from the end down to first; top is the end of the part already copied. */
  method BytesDown(h: Hart, dst: int, src: int, first: int, ghost top: int, ghost m: seq<bv8>)
    returns (a0: int, a1: int)
    requires |m| == h.mem.Length
    requires 0 <= first < dst <= top <= |m| && 0 <= first + (src - dst) && top + (src - dst) <= |m|
    requires SafeDown(first, top, src - dst)
    requires h.Moved(m, dst, top, src - dst)
    modifies h.mem, h`storeCount, h`loadLo, h`loadHi
    ensures a0 == first && a1 == first + (src - dst)
    ensures h.Moved(m, first, top, src - dst)
    ensures h.storeCount == old(h.storeCount) + (dst - first)
    ensures h.loadLo == Min(old(h.loadLo), a1) && h.loadHi == Max(old(h.loadHi), src)
  {
    hide Byte;
    ghost var delta := src - dst;
    a0, a1 := dst, src;
    while true
      invariant first < a0 <= dst && a1 == a0 + delta
      invariant h.Moved(m, a0, top, delta)
      invariant h.storeCount == old(h.storeCount) + (dst - a0)
      invariant h.loadLo == if a0 == dst then old(h.loadLo) else Min(old(h.loadLo), a1)
      invariant h.loadHi == if a0 == dst then old(h.loadHi) else Max(old(h.loadHi), src)
      decreases a0 - first
    {
      a1 := a1 - 1;
      a0 := a0 - 1;
      var a4 := h.LoadByte(a1);
      h.StoreByte(a0, a4);
      if !(a0 > first) { break; }
    }
  }

  /** A word load below the copy: with [dst, top) copied and the source starting at begin,
      the loaded bytes that belong to the rest of the source are those of m. */
  method LoadBelow(h: Hart, ghost begin: int, ghost dst: int, a: int, ghost top: int, ghost delta: int,
        ghost m: seq<bv8>)
    returns (w: bv64)
    requires |m| == h.mem.Length
    requires 0 <= begin <= dst + delta && 0 <= begin - delta && dst <= top <= |m| && top + delta <= |m|
    requires SafeDown(begin - delta, top, delta)
    requires 0 <= a && a + 8 <= |m| && Aligned(a)
    requires h.Moved(m, dst, top, delta)
    modifies h`loadLo, h`loadHi
    ensures forall j :: 0 <= j < 8 && begin <= a + j < dst + delta ==> Byte(w, j) == m[a + j]
    ensures h.loadLo == Min(old(h.loadLo), a) && h.loadHi == Max(old(h.loadHi), a + 8)
  {
    hide Byte;
    w := h.LoadWord(a);
  }

  /** Store a source word at the lower end of the part already copied. */
  method StorePrev(h: Hart, dst: int, w: bv64, ghost top: int, ghost delta: int, ghost m: seq<bv8>)
    requires |m| == h.mem.Length
    requires 0 <= dst && dst + 8 <= top <= |m| && 0 <= dst + delta && top + delta <= |m|
    requires Aligned(dst)
    requires h.Moved(m, dst + 8, top, delta)
    requires forall i :: 0 <= i < 8 ==> Byte(w, i) == m[dst + delta + i]
    modifies h.mem, h`storeCount
    ensures h.Moved(m, dst, top, delta)
    ensures h.storeCount == old(h.storeCount) + 1
  {
    hide Byte;
    h.StoreWord(dst, w);
  }

  /** Store a source word at the lower end of the gap below the part already copied. */
  method StoreInGap(h: Hart, ghost lo: int, dst: int, w: bv64, ghost gapHi: int, ghost top: int, ghost delta: int,
        ghost m: seq<bv8>)
    requires |m| == h.mem.Length
    requires 0 <= lo <= dst && dst + 8 <= gapHi <= top <= |m| && 0 <= lo + delta && top + delta <= |m|
    requires Aligned(dst)
    requires h.MovedAround(m, lo, dst, gapHi, top, delta)
    requires forall i :: 0 <= i < 8 ==> Byte(w, i) == m[dst + delta + i]
    modifies h.mem, h`storeCount
    ensures h.MovedAround(m, lo, dst + 8, gapHi, top, delta)
    ensures h.storeCount == old(h.storeCount) + 1
  {
    hide Byte;
    h.StoreWord(dst, w);
  }

  /** A quarter of the unrolled loop: four loads, then the four stores in ascending order. */
  method FourWordsDown(h: Hart, dst: int, src: int, ghost top: int, ghost m: seq<bv8>) returns (s0: bv64, s1: bv64)
    requires |m| == h.mem.Length
    requires 0 <= dst && dst + 32 <= top <= |m| && 0 <= src && top + (src - dst) <= |m|
    requires SafeDown(dst, top, src - dst)
    requires Aligned(dst) && Aligned(src)
    requires h.Moved(m, dst + 32, top, src - dst)
    modifies h.mem, h`storeCount, h`loadLo, h`loadHi
    ensures h.Moved(m, dst, top, src - dst)
    ensures h.storeCount == old(h.storeCount) + 4
    ensures h.loadLo == Min(old(h.loadLo), src) && h.loadHi == Max(old(h.loadHi), src + 32)
  {
    hide Byte, Aligned;
    ghost var delta := src - dst;
    AlignedStep(src, 1); AlignedStep(src, 2); AlignedStep(src, 3);
    AlignedStep(dst, 1); AlignedStep(dst, 2); AlignedStep(dst, 3);
    var a4 := LoadBelow(h, src, dst + 32, src, top, delta, m);
    var a5 := LoadBelow(h, src, dst + 32, src + 8, top, delta, m);
    s0 := LoadBelow(h, src, dst + 32, src + 16, top, delta, m);
    s1 := LoadBelow(h, src, dst + 32, src + 24, top, delta, m);
    assert h.MovedAround(m, dst, dst, dst + 32, top, delta);
    hide Hart.Moved, Hart.MovedAround;
    StoreInGap(h, dst, dst, a4, dst + 32, top, delta, m);
    StoreInGap(h, dst, dst + 8, a5, dst + 32, top, delta, m);
    StoreInGap(h, dst, dst + 16, s0, dst + 32, top, delta, m);
    StoreInGap(h, dst, dst + 24, s1, dst + 32, top, delta, m);
    GapClosed(h, m, dst, dst + 32, top, delta);
  }

  lemma GapClosed(h: Hart, m: seq<bv8>, lo: int, gap: int, hi: int, delta: int)
    requires |m| == h.mem.Length
    requires lo <= gap <= hi && 0 <= lo + delta && hi + delta <= |m|
    requires h.MovedAround(m, lo, gap, gap, hi, delta)
    ensures h.Moved(m, lo, hi, delta)
  {}

  /** The body of the unrolled loop, from its top quarter down. */
  method SixteenWordsDown(h: Hart, dst: int, src: int, ghost top: int, ghost m: seq<bv8>) returns (s0: bv64, s1: bv64)
    requires |m| == h.mem.Length
    requires 0 <= dst && dst + 128 <= top <= |m| && 0 <= src && top + (src - dst) <= |m|
    requires SafeDown(dst, top, src - dst)
    requires Aligned(dst) && Aligned(src)
    requires h.Moved(m, dst + 128, top, src - dst)
    modifies h.mem, h`storeCount, h`loadLo, h`loadHi
    ensures h.Moved(m, dst, top, src - dst)
    ensures h.storeCount == old(h.storeCount) + 16
    ensures h.loadLo == Min(old(h.loadLo), src) && h.loadHi == Max(old(h.loadHi), src + 128)
  {
    hide Aligned;
    AlignedStep(src, 4); AlignedStep(src, 8); AlignedStep(src, 12);
    AlignedStep(dst, 4); AlignedStep(dst, 8); AlignedStep(dst, 12);
    s0, s1 := FourWordsDown(h, dst + 96, src + 96, top, m);
    s0, s1 := FourWordsDown(h, dst + 64, src + 64, top, m);
    s0, s1 := FourWordsDown(h, dst + 32, src + 32, top, m);
    s0, s1 := FourWordsDown(h, dst, src, top, m);
  }

  /** The unrolled loop: sixteen words per turn. */
  method BlocksDown(h: Hart, dst: int, src: int, first: int, ghost top: int, ghost m: seq<bv8>)
    returns (a0: int, a1: int, s0: bv64, s1: bv64)
    requires |m| == h.mem.Length
    requires 0 <= first < dst <= top <= |m| && 0 <= first + (src - dst) && top + (src - dst) <= |m|
    requires SafeDown(first, top, src - dst)
    requires Aligned(dst) && Aligned(src) && (dst - first) % 128 == 0
    requires h.Moved(m, dst, top, src - dst)
    modifies h.mem, h`storeCount, h`loadLo, h`loadHi
    ensures a0 == first && a1 == first + (src - dst)
    ensures h.Moved(m, first, top, src - dst)
    ensures dst == first + 8 * (h.storeCount - old(h.storeCount))
    ensures h.loadLo == Min(old(h.loadLo), a1) && h.loadHi == Max(old(h.loadHi), src)
  {
    hide Aligned;
    ghost var delta := src - dst;
    a0, a1 := dst, src;
    ghost var k, n := 0, (dst - first) / 128;
    while true
      invariant a0 == dst - 128 * k && a1 == src - 128 * k && 0 <= k < n
      invariant h.Moved(m, a0, top, delta)
      invariant h.storeCount == old(h.storeCount) + 16 * k
      invariant h.loadLo == if a0 == dst then old(h.loadLo) else Min(old(h.loadLo), a1)
      invariant h.loadHi == if a0 == dst then old(h.loadHi) else Max(old(h.loadHi), src)
      decreases n - k
    {
      a1 := a1 - 128;
      a0 := a0 - 128;
      k := k + 1;
      AlignedStep(dst, -16 * k);
      AlignedStep(src, -16 * k);
      s0, s1 := SixteenWordsDown(h, a0, a1, top, m);
      if !(a0 > first) { break; }
    }
  }

  method WordsDown(h: Hart, dst: int, src: int, first: int, ghost top: int, ghost m: seq<bv8>)
    returns (a0: int, a1: int)
    requires |m| == h.mem.Length
    requires 0 <= first < dst <= top <= |m| && 0 <= first + (src - dst) && top + (src - dst) <= |m|
    requires SafeDown(first, top, src - dst)
    requires Aligned(dst) && Aligned(src) && (dst - first) % 8 == 0
    requires h.Moved(m, dst, top, src - dst)
    modifies h.mem, h`storeCount, h`loadLo, h`loadHi
    ensures a0 == first && a1 == first + (src - dst)
    ensures h.Moved(m, first, top, src - dst)
    ensures dst == first + 8 * (h.storeCount - old(h.storeCount))
    ensures h.loadLo == Min(old(h.loadLo), a1) && h.loadHi == Max(old(h.loadHi), src)
  {
    hide Byte, Aligned;
    ghost var delta := src - dst;
    a0, a1 := dst, src;
    ghost var k, n := 0, (dst - first) / 8;
    while true
      invariant a0 == dst - 8 * k && a1 == src - 8 * k && 0 <= k < n
      invariant h.Moved(m, a0, top, delta)
      invariant h.storeCount == old(h.storeCount) + k
      invariant h.loadLo == if a0 == dst then old(h.loadLo) else Min(old(h.loadLo), a1)
      invariant h.loadHi == if a0 == dst then old(h.loadHi) else Max(old(h.loadHi), src)
      decreases n - k
    {
      a0 := a0 - 8;
      a1 := a1 - 8;
      k := k + 1;
      AlignedStep(dst, -k);
      AlignedStep(src, -k);
      var a4 := LoadBelow(h, first + delta, a0 + 8, a1, top, delta, m);
      StorePrev(h, a0, a4, top, delta, m);
      if !(a0 > first) { break; }
    }
  }

  /** Shift two neighbouring source words (at a and a + 8) together and store the result at dst. */
  method StoreMerged(h: Hart, dst: int, w0: bv64, w1: bv64, t: nat, ghost a: int, ghost top: int, ghost m: seq<bv8>)
    returns (s: bv64)
    requires |m| == h.mem.Length && 1 <= t < 8
    requires 0 <= a && top + (a + t - dst) <= |m| && 0 <= dst && dst + 8 <= top <= |m|
    requires Aligned(dst)
    requires h.Moved(m, dst + 8, top, a + t - dst)
    requires forall j :: t <= j < 8 ==> Byte(w0, j) == m[a + j]
    requires forall j :: 0 <= j < t ==> Byte(w1, j) == m[a + 8 + j]
    modifies h.mem, h`storeCount
    ensures h.Moved(m, dst, top, a + t - dst)
    ensures h.storeCount == old(h.storeCount) + 1
  {
    hide Byte, Merge, Aligned;
    s := Merge(w0, w1, t);
    MergedBytes(w0, w1, t, m, a);
    StorePrev(h, dst, s, top, a + t - dst, m);
  }

  /** One turn of the software-pipelined loop. Register a5 holds the word at a1 up to byte t, as it was in m;
      the source starts at begin. */
  method TurnDown(h: Hart, a0: int, a1: int, a5: bv64, t: nat, ghost begin: int, ghost top: int, ghost m: seq<bv8>)
    returns (a5': bv64, s0: bv64, s1: bv64)
    requires |m| == h.mem.Length && 1 <= t < 8
    requires 0 <= a1 - 16 && a1 + 8 <= |m| && a0 <= top <= |m|
    requires var delta := a1 + t - a0;
      0 <= begin <= a1 - 16 + t && 0 <= begin - delta && top + delta <= |m| &&
      SafeDown(begin - delta, top, delta) && h.Moved(m, a0, top, delta)
    requires Aligned(a0) && Aligned(a1)
    requires forall j :: 0 <= j < t ==> Byte(a5, j) == m[a1 + j]
    modifies h.mem, h`storeCount, h`loadLo, h`loadHi
    ensures h.Moved(m, a0 - 16, top, a1 + t - a0)
    ensures forall j :: 0 <= j < 8 && begin <= a1 - 16 + j ==> Byte(a5', j) == m[a1 - 16 + j]
    ensures h.storeCount == old(h.storeCount) + 2
    ensures h.loadLo == Min(old(h.loadLo), a1 - 16) && h.loadHi == Max(old(h.loadHi), a1)
  {
    hide Byte, Aligned;
    ghost var delta := a1 + t - a0;
    AlignedStep(a1, -1); AlignedStep(a1, -2); AlignedStep(a0, -1); AlignedStep(a0, -2);
    var a4 := LoadBelow(h, begin, a0, a1 - 8, top, delta, m);
    a5' := LoadBelow(h, begin, a0, a1 - 16, top, delta, m);
    s0 := StoreMerged(h, a0 - 8, a4, a5, t, a1 - 8, top, m);
    s1 := StoreMerged(h, a0 - 16, a5', a4, t, a1 - 16, top, m);
  }

  /** The software-pipelined loop over n turns; base is the aligned source pointer and t its misalignment. */
  method TurnsDown(h: Hart, dst: int, base: int, t: nat, a3: int, ghost n: int, ghost begin: int, ghost top: int,
        ghost m: seq<bv8>)
    returns (a0: int, a1: int, s0: bv64, s1: bv64)
    requires |m| == h.mem.Length && 1 <= t < 8 && 1 <= n && a3 == dst - 16 * n
    requires 0 <= base - 16 * n && base + 8 <= |m| && dst <= top <= |m|
    requires var delta := base + t - dst;
      0 <= begin <= a3 + delta && 0 <= begin - delta && top + delta <= |m| &&
      SafeDown(begin - delta, top, delta) && h.Moved(m, dst, top, delta)
    requires Aligned(dst) && Aligned(base)
    modifies h.mem, h`storeCount, h`loadLo, h`loadHi
    ensures a0 == a3 && a1 == base - 16 * n
    ensures h.Moved(m, a3, top, base + t - dst)
    ensures h.storeCount == old(h.storeCount) + 2 * n
    ensures h.loadLo == Min(old(h.loadLo), base - 16 * n) && h.loadHi == Max(old(h.loadHi), base + 8)
  {
    hide Byte, Aligned;
    ghost var delta := base + t - dst;
    a0, a1 := dst, base;
    var a5 := LoadBelow(h, begin, dst, a1, top, delta, m);
    a1 := a1 - 16;
    ghost var k := 0;
    // a1 runs two words below the word held in a5
    while true
      invariant a0 == dst - 16 * k && a1 + 16 == base - 16 * k && 0 <= k < n
      invariant h.Moved(m, a0, top, delta)
      invariant forall j :: 0 <= j < t ==> Byte(a5, j) == m[a1 + 16 + j]
      invariant h.storeCount == old(h.storeCount) + 2 * k
      invariant h.loadLo == Min(old(h.loadLo), a1 + 16)
      invariant h.loadHi == Max(old(h.loadHi), base + 8)
      decreases n - k
    {
      AlignedStep(dst, -2 * k);
      AlignedStep(base, -2 * k);
      a5, s0, s1 := TurnDown(h, a0, a1 + 16, a5, t, begin, top, m);
      a0 := a0 - 16;
      a1 := a1 - 16;
      k := k + 1;
      if !(a0 > a3) { break; }
    }
    a1 := a1 + 16;
  }

  /** Mutually misaligned buffers: a0 is aligned, a1 is not, and sz bytes are left. */
  method UnalignedDown(h: Hart, dst: int, src: int, sz: int, ghost top: int, ghost m: seq<bv8>)
    returns (a0: int, a1: int, a2: int, s0: bv64, s1: bv64)
    requires |m| == h.mem.Length
    requires 16 <= sz && 0 <= dst - sz && dst <= top <= |m| && 0 <= src - sz && top + (src - dst) <= |m|
    requires SafeDown(dst - sz, top, src - dst)
    requires Aligned(dst) && !Aligned(src) && src - src % 8 + 8 <= |m|
    requires h.Moved(m, dst, top, src - dst)
    modifies h.mem, h`storeCount, h`loadLo, h`loadHi
    ensures a2 == sz % 16 && a0 == dst - sz + a2 && a1 == src - sz + a2
    ensures h.Moved(m, a0, top, src - dst)
    ensures h.storeCount == old(h.storeCount) + 2 * (sz / 16)
    ensures h.loadLo == Min(old(h.loadLo), src - src % 8 - sz / 16 * 16)
    ensures h.loadHi == Max(old(h.loadHi), src - src % 8 + 8)
  {
    hide Hart.Moved, SafeDown;
    var t2 := src % 8;
    var a3 := dst - sz;
    a1 := src - src % 8;
    a2 := sz % 16;
    a3 := a3 + a2;
    a0, a1, s0, s1 := TurnsDown(h, dst, a1, t2, a3, sz / 16, src - sz, top, m);
    a1 := a1 + t2;
  }

  /** 16*SZREG bytes per turn while that many are left. */
  method BlocksPart(h: Hart, dst: int, src: int, sz: int, ghost top: int, ghost m: seq<bv8>)
    returns (a0: int, a1: int, a2: int, s0: bv64, s1: bv64)
    requires |m| == h.mem.Length
    requires 8 <= sz && 0 <= dst - sz && dst <= top <= |m| && 0 <= src - sz && top + (src - dst) <= |m|
    requires SafeDown(dst - sz, top, src - dst)
    requires Aligned(dst) && Aligned(src)
    requires h.Moved(m, dst, top, src - dst)
    modifies h.mem, h`storeCount, h`loadLo, h`loadHi
    ensures a2 == sz % 128 && a0 == dst - sz + a2 && a1 == src - sz + a2 && Aligned(a0) && Aligned(a1)
    ensures h.Moved(m, a0, top, src - dst)
    ensures sz == a2 + 8 * (h.storeCount - old(h.storeCount))
    ensures h.loadLo == if sz < 128 then old(h.loadLo) else Min(old(h.loadLo), a1)
    ensures h.loadHi == if sz < 128 then old(h.loadHi) else Max(old(h.loadHi), src)
  {
    AlignedStep(dst, -16 * (sz / 128)); AlignedStep(src, -16 * (sz / 128));
    hide Hart.Moved, Aligned;
    a0, a1, a2, s0, s1 := dst, src, sz, *, *;
    if a2 >= 128 {
      var a7 := a0 - a2;
      a2 := a2 % 128;
      a7 := a7 + a2;
      a0, a1, s0, s1 := BlocksDown(h, a0, a1, a7, top, m);
    }
  }

  /** One word per turn while a whole word is left. */
  method WordsPart(h: Hart, dst: int, src: int, sz: nat, ghost top: int, ghost m: seq<bv8>)
    returns (a0: int, a1: int, a2: int)
    requires |m| == h.mem.Length
    requires 0 <= dst - sz && dst <= top <= |m| && 0 <= src - sz && top + (src - dst) <= |m|
    requires SafeDown(dst - sz, top, src - dst)
    requires Aligned(dst) && Aligned(src)
    requires h.Moved(m, dst, top, src - dst)
    modifies h.mem, h`storeCount, h`loadLo, h`loadHi
    ensures a2 == sz % 8 && a0 == dst - sz + a2 && a1 == src - sz + a2
    ensures h.Moved(m, a0, top, src - dst)
    ensures sz == a2 + 8 * (h.storeCount - old(h.storeCount))
    ensures h.loadLo == if sz < 8 then old(h.loadLo) else Min(old(h.loadLo), a1)
    ensures h.loadHi == if sz < 8 then old(h.loadHi) else Max(old(h.loadHi), src)
  {
    hide Aligned;
    a0, a1, a2 := dst, src, sz;
    var a3 := a0 - a2;
    a2 := a2 % 8;
    a3 := a3 + a2;
    if a0 != a3 {
      a0, a1 := WordsDown(h, a0, a1, a3, top, m);
    }
  }

  /** Mutually aligned buffers: both pointers are aligned and sz bytes are left. */
  method AlignedDown(h: Hart, dst: int, src: int, sz: int, ghost top: int, ghost m: seq<bv8>)
    returns (a0: int, a1: int, a2: int, s0: bv64, s1: bv64)
    requires |m| == h.mem.Length
    requires 8 <= sz && 0 <= dst - sz && dst <= top <= |m| && 0 <= src - sz && top + (src - dst) <= |m|
    requires SafeDown(dst - sz, top, src - dst)
    requires Aligned(dst) && Aligned(src)
    requires h.Moved(m, dst, top, src - dst)
    modifies h.mem, h`storeCount, h`loadLo, h`loadHi
    ensures a2 == sz % 8 && a0 == dst - sz + a2 && a1 == src - sz + a2
    ensures h.Moved(m, a0, top, src - dst)
    ensures sz == a2 + 8 * (h.storeCount - old(h.storeCount))
    ensures h.loadLo == Min(old(h.loadLo), a1) && h.loadHi == Max(old(h.loadHi), src)
  {
    hide Hart.Moved, Aligned;
    a0, a1, a2, s0, s1 := BlocksPart(h, dst, src, sz, top, m);
    a0, a1, a2 := WordsPart(h, a0, a1, a2, top, m);
  }

  /** Bytewise copying until the end of the destination is aligned; dst and src are the ends of the buffers. */
  method AlignHead(h: Hart, dst: int, src: int, sz: nat, ghost m: seq<bv8>) returns (a0: int, a1: int, a2: int)
    requires m == h.mem[..] && 24 <= sz
    requires 0 <= dst - sz && dst <= |m| && 0 <= src - sz && src <= |m|
    requires SafeDown(dst - sz, dst, src - dst)
    modifies h.mem, h`storeCount, h`loadLo, h`loadHi
    ensures a0 == dst - dst % 8 && a1 == src - dst % 8 && a2 == sz - dst % 8
    ensures Aligned(a0) && a2 > 16
    ensures h.Moved(m, a0, dst, src - dst)
    ensures h.storeCount == old(h.storeCount) + dst % 8
    ensures h.loadLo == if a0 == dst then old(h.loadLo) else Min(old(h.loadLo), a1)
    ensures h.loadHi == if a0 == dst then old(h.loadHi) else Max(old(h.loadHi), src)
  {
    a0, a1, a2 := dst, src, sz;
    var a3 := a0 % 8;
    if a3 != 0 {
      a2 := a2 - a3;
      a3 := a0 - a3;  // xor a3, a3, a0 clears the low bits of a0
      a0, a1 := BytesDown(h, a0, a1, a3, dst, m);
    }
  }

  /** The bytes that are left after the word loops. */
  method Tail(h: Hart, dst: int, src: int, sz: nat, ghost top: int, ghost m: seq<bv8>) returns (a0: int)
    requires |m| == h.mem.Length
    requires 0 <= dst - sz && dst <= top <= |m| && 0 <= src - sz && top + (src - dst) <= |m|
    requires SafeDown(dst - sz, top, src - dst)
    requires h.Moved(m, dst, top, src - dst)
    modifies h.mem, h`storeCount, h`loadLo, h`loadHi
    ensures a0 == dst - sz
    ensures h.Moved(m, a0, top, src - dst)
    ensures h.storeCount == old(h.storeCount) + sz
    ensures h.loadLo == if sz == 0 then old(h.loadLo) else Min(old(h.loadLo), src - sz)
    ensures h.loadHi == if sz == 0 then old(h.loadHi) else Max(old(h.loadHi), src)
  {
    a0 := dst;
    if sz != 0 {
      var a3 := a0 - sz;
      var a1;
      a0, a1 := BytesDown(h, a0, src, a3, top, m);
    }
  }

  /** The word loops of _memcpy_r, for sz bytes below an aligned destination end. */
  method Body(h: Hart, dst: int, src: int, sz: int, s0: bv64, s1: bv64, ghost top: int, ghost m: seq<bv8>)
    returns (a0: int, a1: int, a2: int, s0': bv64, s1': bv64)
    requires |m| == h.mem.Length
    requires 16 <= sz && 0 <= dst - sz && dst <= top <= |m| && 0 <= src - sz && top + (src - dst) <= |m|
    requires SafeDown(dst - sz, top, src - dst)
    requires Aligned(dst) && RoundUp(src) <= |m|
    requires h.Moved(m, dst, top, src - dst)
    modifies h.mem, h`storeCount, h`loadLo, h`loadHi
    ensures s0' == s0 && s1' == s1
    ensures a0 == dst - sz + a2 && a1 == src - sz + a2
    ensures a2 == Rest(src, sz)
    ensures h.Moved(m, a0, top, src - dst)
    ensures h.storeCount == old(h.storeCount) + LoopStores(src, sz)
    ensures h.loadLo == Min(old(h.loadLo), LoopLoadLo(src, sz))
    ensures h.loadHi == Max(old(h.loadHi), RoundUp(src))
  {
    var t2 := src % 8;
    var t0, t1 := s0, s1;
    if t2 != 0 {
      a0, a1, a2, s0', s1' := UnalignedDown(h, dst, src, sz, top, m);
    } else {
      a0, a1, a2, s0', s1' := AlignedDown(h, dst, src, sz, top, m);
    }
    s1' := t1;
    s0' := t0;
  }

  /** Everything before the final byte loop, for at least 3*SZREG bytes; dst and src are the ends of the buffers. */
  method Bulk(h: Hart, dst: int, src: int, sz: nat, s0: bv64, s1: bv64, ghost m: seq<bv8>)
    returns (a0: int, a1: int, a2: int, s0': bv64, s1': bv64)
    requires m == h.mem[..] && 24 <= sz
    requires 0 <= dst - sz && dst <= |m| && 0 <= src - sz && src <= |m|
    requires SafeDown(dst - sz, dst, src - dst)
    requires DownLoadHi(dst - sz, src - sz, sz) <= |m|
    modifies h.mem, h`storeCount, h`loadLo, h`loadHi
    ensures s0' == s0 && s1' == s1
    ensures 0 <= a2 <= sz && a0 == dst - sz + a2 && a1 == src - sz + a2
    ensures h.Moved(m, a0, dst, src - dst)
    ensures h.storeCount + a2 == old(h.storeCount) + DownStores(dst - sz, src - sz, sz)
    ensures Min(h.loadLo, src - sz) == Min(old(h.loadLo), DownLoadLo(dst - sz, src - sz, sz))
    ensures a2 == 0 ==> h.loadLo <= src - sz
    ensures h.loadHi == Max(old(h.loadHi), DownLoadHi(dst - sz, src - sz, sz))
  {
    hide HeadUp, LoopLoadLo, LoopStores, Rest, Aligned, Hart.Moved;
    a0, a1, a2 := AlignHead(h, dst, src, sz, m);
    a0, a1, a2, s0', s1' := Body(h, a0, a1, a2, s0, s1, dst, m);
  }

  /** _memcpy_r: for disjoint buffers, and for overlapping ones whose destination is not below the source. */
  method MemcpyR(h: Hart, dst: int, src: int, sz: nat, s0: bv64, s1: bv64) returns (a0: int, s0': bv64, s1': bv64)
    requires 0 <= dst && dst + sz <= h.mem.Length && 0 <= src && src + sz <= h.mem.Length
    requires SafeDown(dst, dst + sz, src - dst)
    requires DownLoadHi(dst, src, sz) <= h.mem.Length
    modifies h.mem, h`storeCount, h`loadLo, h`loadHi
    ensures a0 == dst && s0' == s0 && s1' == s1
    ensures h.mem[..] == Copied(old(h.mem[..]), dst, src, sz)
    ensures h.storeCount == old(h.storeCount) + DownStores(dst, src, sz)
    ensures sz > 0 ==> h.loadLo == Min(old(h.loadLo), DownLoadLo(dst, src, sz))
    ensures sz > 0 ==> h.loadHi == Max(old(h.loadHi), DownLoadHi(dst, src, sz))
    ensures sz == 0 ==> h.loadLo == old(h.loadLo) && h.loadHi == old(h.loadHi)
  {
    hide HeadUp, LoopLoadLo, LoopStores, Rest, Copied, Aligned, RoundUp;
    ghost var m := h.mem[..];
    assert sz < 24 ==> DownLoadLo(dst, src, sz) == src && DownLoadHi(dst, src, sz) == src + sz;
    assert sz < 24 ==> DownStores(dst, src, sz) == sz;
    assert sz >= 24 ==> DownLoadLo(dst, src, sz) <= src && DownLoadHi(dst, src, sz) >= src + sz;
    Forward.NothingMoved(h, dst + sz, src - dst);
    hide DownLoadLo, DownLoadHi, DownStores, Hart.Moved;
    s0', s1' := s0, s1;
    var a1, a2 := src + sz, sz;
    a0 := dst + sz;
    if a2 >= 24 {
      a0, a1, a2, s0', s1' := Bulk(h, a0, a1, a2, s0, s1, m);
    }
    a0 := Tail(h, a0, a1, a2, dst + sz, m);
    assert h.Moved(m, dst, dst + sz, src - dst);
    Forward.MovedIsCopied(h, m, dst, src, sz);
  }

  /** _memmove: every overlap. */
  method Memmove(h: Hart, dst: int, src: int, sz: nat, s0: bv64, s1: bv64) returns (a0: int, s0': bv64, s1': bv64)
    requires 0 <= dst && dst + sz <= h.mem.Length && 0 <= src && src + sz <= h.mem.Length
    requires (if src < dst then DownLoadHi(dst, src, sz) else UpLoadHi(dst, src, sz)) <= h.mem.Length
    modifies h.mem, h`storeCount, h`loadLo, h`loadHi
    ensures a0 == dst && s0' == s0 && s1' == s1
    ensures h.mem[..] == Copied(old(h.mem[..]), dst, src, sz)
    ensures h.storeCount == old(h.storeCount) + if src < dst then DownStores(dst, src, sz) else UpStores(dst, src, sz)
    ensures sz > 0 ==> h.loadLo == Min(old(h.loadLo),
      if src < dst then DownLoadLo(dst, src, sz) else UpLoadLo(dst, src, sz))
    ensures sz > 0 ==> h.loadHi == Max(old(h.loadHi),
      if src < dst then DownLoadHi(dst, src, sz) else UpLoadHi(dst, src, sz))
    ensures sz == 0 ==> h.loadLo == old(h.loadLo) && h.loadHi == old(h.loadHi)
  {
    if src < dst {
      a0, s0', s1' := MemcpyR(h, dst, src, sz, s0, s1);
    } else {
      a0, s0', s1' := Forward.Memcpy(h, dst, src, sz, s0, s1);
    }
  }
}
