/** _memset. */
module Fill {
  import opened Words
  import opened Machine
  import opened MemSpec

  /** Bytewise filling up to last. */
  method BytesSet(h: Hart, ghost first: int, dst: int, last: int, a1: bv64, ghost m: seq<bv8>) returns (a5: int)
    requires |m| == h.mem.Length && 0 <= first <= dst < last <= |m|
    requires h.Set(m, first, dst, Byte(a1, 0))
    modifies h.mem, h`storeCount
    ensures a5 == last
    ensures h.Set(m, first, last, Byte(a1, 0))
    ensures h.storeCount == old(h.storeCount) + (last - dst)
  {
    hide Byte;
    a5 := dst;
    while true
      invariant dst <= a5 < last
      invariant h.Set(m, first, a5, Byte(a1, 0))
      invariant h.storeCount == old(h.storeCount) + (a5 - dst)
      decreases last - a5
    {
      h.StoreByte(a5, a1);
      a5 := a5 + 1;
      if !(a5 < last) { break; }
    }
  }

  method StoreSet(h: Hart, ghost first: int, dst: int, a1: bv64, ghost b: bv8, ghost m: seq<bv8>)
    requires |m| == h.mem.Length && 0 <= first <= dst && dst + 8 <= |m| && Aligned(dst)
    requires forall i :: 0 <= i < 8 ==> Byte(a1, i) == b
    requires h.Set(m, first, dst, b)
    modifies h.mem, h`storeCount
    ensures h.Set(m, first, dst + 8, b)
    ensures h.storeCount == old(h.storeCount) + 1
  {
    hide Byte;
    h.StoreWord(dst, a1);
  }

  const STORES := 32

  /** The store a jump to address t0 lands on: label3 is the address after the last of the 32 four-byte store
      instructions. The stores from it on write twice as many bytes as the jump goes back. */
  function StoreAt(label3: int, t0: int): (j: nat)
    requires 0 < label3 - t0 <= 4 * STORES && (label3 - t0) % 4 == 0
    ensures j < STORES && t0 == label3 - 4 * (STORES - j)
    ensures 8 * (STORES - j) == 2 * (label3 - t0)
  {
    STORES - (label3 - t0) / 4
  }

  /** One turn through the unrolled stores from number entry on. The register a5 holds p, which may be below
      zero on the first turn; p + 8 * entry is where the filled part ends. */
  method Stores(h: Hart, ghost first: int, ghost p: int, a5: int, entry: nat, a1: bv64, ghost b: bv8, ghost m: seq<bv8>)
    returns (a5': int)
    requires |m| == h.mem.Length < ADDRESS_SPACE
    requires entry < STORES && 0 <= first <= p + 8 * entry && p + 256 <= |m| && Aligned(p) && a5 == Wrap(p)
    requires forall i :: 0 <= i < 8 ==> Byte(a1, i) == b
    requires h.Set(m, first, p + 8 * entry, b)
    modifies h.mem, h`storeCount
    ensures a5' == p + 256
    ensures h.Set(m, first, p + 256, b)
    ensures h.storeCount == old(h.storeCount) + (STORES - entry)
  {
    hide Byte, Aligned, Wrap;
    for j := entry to STORES
      invariant h.Set(m, first, p + 8 * j, b)
      invariant h.storeCount == old(h.storeCount) + (j - entry)
    {
      WrapBack(p, 8 * j);
      AlignedStep(p, j);
      StoreSet(h, first, Wrap(a5 + 8 * j), a1, b, m);
    }
    WrapBack(p, 256);
    a5' := Wrap(a5 + 256);
  }

  /** The main loop, entered at store number entry. */
  method Duff(h: Hart, ghost first: int, ghost p: int, reg: int, entry: nat, a4: int, a1: bv64, ghost b: bv8,
        ghost m: seq<bv8>)
    returns (a5: int)
    requires |m| == h.mem.Length < ADDRESS_SPACE
    requires entry < STORES && 0 <= first <= p + 8 * entry && Aligned(p) && reg == Wrap(p)
    requires p < a4 <= |m| && (a4 - p) % 256 == 0
    requires forall i :: 0 <= i < 8 ==> Byte(a1, i) == b
    requires h.Set(m, first, p + 8 * entry, b)
    modifies h.mem, h`storeCount
    ensures a5 == a4
    ensures h.Set(m, first, a4, b)
    ensures a4 == p + 8 * entry + 8 * (h.storeCount - old(h.storeCount))
  {
    hide Byte, Aligned, Wrap;
    ghost var k, n := 1, (a4 - p) / 256;
    a5 := Stores(h, first, p, reg, entry, a1, b, m);
    while a5 < a4
      invariant a5 == p + 256 * k && 1 <= k <= n
      invariant h.Set(m, first, a5, b)
      invariant h.storeCount == old(h.storeCount) + 32 * k - entry
    {
      AlignedStep(p, 32 * k);
      WrapSmall(a5);
      a5 := Stores(h, first, a5, a5, 0, a1, b, m);
      k := k + 1;
    }
  }

  lemma WrapSmall(a: int)
    requires 0 <= a < ADDRESS_SPACE
    ensures Wrap(a) == a
  {}

  /** The word part: a5 is aligned and at least one word is left. */
  method WordsSet(h: Hart, ghost first: int, dst: int, sz: int, ch: bv64, label3: int, ghost m: seq<bv8>)
    returns (a5: int, a1: bv64, a2: nat)
    requires |m| == h.mem.Length < ADDRESS_SPACE
    requires 8 <= sz && 0 <= first <= dst && dst + sz <= |m| && Aligned(dst)
    requires h.Set(m, first, dst, Byte(ch, 0))
    modifies h.mem, h`storeCount
    ensures a2 == sz % 8 && a5 == dst + sz - a2 && Byte(a1, 0) == Byte(ch, 0)
    ensures h.Set(m, first, a5, Byte(ch, 0))
    ensures sz == a2 + 8 * (h.storeCount - old(h.storeCount))
  {
    hide Byte, Replicate, Hart.Set, Wrap, Aligned;
    a5, a1, a2 := dst, ch, sz;
    var a4 := a5 + a2;
    a1 := Replicate(a1);
    ghost var b := Byte(ch, 0);
    forall i | 0 <= i < 8 ensures Byte(a1, i) == b {
      ReplicateBytes(ch, i);
    }
    a4 := a4 - a4 % 8;
    RoundDown(dst, sz);
    var a3 := a2 % 256 - a2 % 8;  // andi with 31*SZREG
    a2 := a2 % 8;
    DuffSteps(dst, sz, a3);
    WrapSmall(dst);
    if a3 != 0 {
      ghost var p := a5 + a3 - 256;
      a5 := Wrap(a5 + a3);
      a3 := a3 / 2;
      var t0 := label3 - a3;
      WrapSmall(dst + sz % 256 - sz % 8);
      a5 := Wrap(a5 - 256);
      a5 := Duff(h, first, p, a5, StoreAt(label3, t0), a4, a1, b, m);
    } else {
      a5 := Duff(h, first, a5, a5, 0, a4, a1, b, m);
    }
  }

  lemma DuffSteps(dst: int, sz: int, a3: int)
    requires 8 <= sz && a3 == sz % 256 - sz % 8 && Aligned(dst)
    ensures 0 <= a3 < 256 && a3 % 8 == 0 && Aligned(dst + a3 - 256)
    ensures a3 == 0 ==> 256 <= sz - sz % 8 && (sz - sz % 8) % 256 == 0
    ensures a3 != 0 ==> a3 <= sz - sz % 8 && (sz - sz % 8 - a3) % 256 == 0
  {}

  /** Bytewise filling until the destination is aligned. */
  method AlignHead(h: Hart, dst: int, sz: nat, a1: bv64, ghost m: seq<bv8>) returns (a5: int, a2: int)
    requires m == h.mem[..] && 16 <= sz && 0 <= dst && dst + sz <= |m|
    modifies h.mem, h`storeCount
    ensures a5 == dst + HeadUp(dst) && a2 == sz - HeadUp(dst) && Aligned(a5) && a2 > 8
    ensures h.Set(m, dst, a5, Byte(a1, 0))
    ensures h.storeCount == old(h.storeCount) + HeadUp(dst)
  {
    hide Byte;
    a5, a2 := dst, sz;
    var a3 := dst % 8;
    if a3 != 0 {
      a3 := a3 - 8;
      a2 := a2 + a3;
      a3 := a5 - a3;
      a5 := BytesSet(h, dst, a5, a3, a1, m);
    }
  }

  /** _memset; label3 is the address the linker gave to the end of the unrolled stores. */
  method Memset(h: Hart, dst: int, ch: bv64, sz: nat, label3: int) returns (a0: int)
    requires 0 <= dst && dst + sz <= h.mem.Length < ADDRESS_SPACE
    modifies h.mem, h`storeCount
    ensures a0 == dst
    ensures h.mem[..] == Filled(old(h.mem[..]), dst, Byte(ch, 0), sz)
    ensures h.storeCount == old(h.storeCount) + FillStores(dst, sz)
  {
    hide Byte, Filled, HeadUp;
    a0 := dst;
    ghost var m := h.mem[..];
    ghost var b := Byte(ch, 0);
    var a1, a2, a5 := ch, sz, a0;
    if a2 >= 16 {
      a1 := a1 & 255;
      ClampByte(ch);
      a5, a2 := AlignHead(h, a5, a2, a1, m);
      a5, a1, a2 := WordsSet(h, dst, a5, a2, a1, label3, m);
    }
    if a2 != 0 {
      a2 := a2 + a5;
      a5 := BytesSet(h, dst, a5, a2, a1, m);
    }
    SetIsFilled(h, m, dst, b, sz);
  }

  lemma SetIsFilled(h: Hart, m: seq<bv8>, dst: int, b: bv8, sz: nat)
    requires |m| == h.mem.Length && 0 <= dst && dst + sz <= |m|
    requires h.Set(m, dst, dst + sz, b)
    ensures h.mem[..] == Filled(m, dst, b, sz)
  {}
}
