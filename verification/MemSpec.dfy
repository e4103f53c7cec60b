/** What the three routines are for, byte by byte, and what they cost. */
module MemSpec {
  import opened Machine

  /** m with the n bytes at d replaced by the n bytes m held at s: ISO C11 7.24.2.2, through a temporary. */
  ghost function Copied(m: seq<bv8>, d: int, s: int, n: int): (r: seq<bv8>)
    requires 0 <= n && 0 <= d && d + n <= |m| && 0 <= s && s + n <= |m|
    ensures |r| == |m|
  {
    m[..d] + m[s..s + n] + m[d + n..]
  }

  /** m with the n bytes at d replaced by b: ISO C11 7.24.6.1. */
  ghost function Filled(m: seq<bv8>, d: int, b: bv8, n: int): (r: seq<bv8>)
    requires 0 <= n && 0 <= d && d + n <= |m|
    ensures |r| == |m|
  {
    m[..d] + seq(n, _ => b) + m[d + n..]
  }

  /** Bytes from a up to the next multiple of 8. */
  function HeadUp(a: int): (n: nat)
    ensures n < 8
  {
    (-a) % 8
  }

  function FillStores(dst: int, sz: nat): nat {
    if sz < 16 then sz else
    var r := sz - HeadUp(dst);
    HeadUp(dst) + r / 8 + r % 8
  }

  function RoundUp(a: int): int {
    a + HeadUp(a)
  }

  // From an aligned destination on: s is the source pointer and r the number of bytes left

  /** Bytes the word loops leave to the final byte loop. */
  function Rest(s: int, r: nat): (n: nat)
    ensures n <= r
  {
    if s % 8 != 0 then r % 16 else r % 8
  }

  function LoopStores(s: int, r: nat): nat {
    if s % 8 != 0 then 2 * (r / 16) else r / 8
  }

  /** One past the last byte the word loops load: the unaligned loop preloads one word beyond its last turn. */
  function LoopLoadHi(s: int, r: nat): (e: int)
    ensures s + r - Rest(s, r) <= e
  {
    if s % 8 != 0 then s - s % 8 + r / 16 * 16 + 16 else s + r - r % 8
  }

  function UpStores(dst: int, src: int, sz: nat): nat {
    if sz < 24 then sz else
    var head := HeadUp(dst);
    var s, r := src + head, sz - head;
    head + LoopStores(s, r) + Rest(s, r)
  }

  /** The first byte that the ascending copy loads, for sz > 0. */
  function UpLoadLo(dst: int, src: int, sz: nat): int {
    if sz < 24 then src else
    var s := src + HeadUp(dst);
    Min(src, s - s % 8)
  }

  /** One past the last byte that the ascending copy loads, for sz > 0. */
  function UpLoadHi(dst: int, src: int, sz: nat): int {
    if sz < 24 then src + sz else
    Max(src + sz, LoopLoadHi(src + HeadUp(dst), sz - HeadUp(dst)))
  }

  // The descending copy starts from the ends of the buffers

  /** The first byte the descending word loops load. */
  function LoopLoadLo(s: int, r: nat): (b: int)
    ensures b <= s - (r - Rest(s, r))
  {
    if s % 8 != 0 then s - s % 8 - r / 16 * 16 else s - (r - r % 8)
  }

  function DownStores(dst: int, src: int, sz: nat): nat {
    if sz < 24 then sz else
    var head := (dst + sz) % 8;
    var s, r := src + sz - head, sz - head;
    head + LoopStores(s, r) + Rest(s, r)
  }

  /** The first byte that the descending copy loads, for sz > 0. */
  function DownLoadLo(dst: int, src: int, sz: nat): int {
    if sz < 24 then src else
    var head := (dst + sz) % 8;
    Min(src, LoopLoadLo(src + sz - head, sz - head))
  }

  /** One past the last byte that the descending copy loads, for sz > 0. */
  function DownLoadHi(dst: int, src: int, sz: nat): int {
    if sz < 24 then src + sz else
    Max(src + sz, RoundUp(src + sz - (dst + sz) % 8))
  }

  /** The stores of a call are the word stores the size asks for plus a constant, whatever the alignment. */
  lemma CostBounds(dst: int, src: int, sz: nat)
    ensures FillStores(dst, sz) <= sz / 8 + 14
    ensures UpStores(dst, src, sz) <= sz / 8 + 22
    ensures DownStores(dst, src, sz) <= sz / 8 + 22
  {
    hide HeadUp;
  }

  /** The ascending copy loads nothing below the word the source starts in and less than two words past its end. */
  lemma UpFootprint(dst: int, src: int, sz: nat)
    ensures src - src % 8 <= UpLoadLo(dst, src, sz) <= src
    ensures src + sz <= UpLoadHi(dst, src, sz) <= src + sz + 15
  {
    var s, r := src + HeadUp(dst), sz - HeadUp(dst);
    if sz >= 24 && s % 8 != 0 {
      assert LoopLoadHi(s, r) == s - s % 8 + (r - r % 16) + 16;
    }
  }

  /** The ascending copy loads a word that shares no byte with the source in exactly these cases. */
  lemma UpOverread(dst: int, src: int, sz: nat)
    ensures UpLoadHi(dst, src, sz) > RoundUp(src + sz) <==>
      var s, r := src + HeadUp(dst), sz - HeadUp(dst);
      sz >= 24 && (src - dst) % 8 != 0 && r % 16 + s % 8 <= 8
  {
    if sz >= 24 {
      MisalignedAfterHead(dst, src);
      hide HeadUp;
      LoopOverread(src + HeadUp(dst), sz - HeadUp(dst));
    }
  }

  /** What is loaded in excess is a single word, the one after the last that the source touches. */
  lemma UpOverreadIsOneWord(dst: int, src: int, sz: nat)
    ensures UpLoadHi(dst, src, sz) > RoundUp(src + sz) ==> UpLoadHi(dst, src, sz) == RoundUp(src + sz) + 8
  {
    hide HeadUp, LoopLoadHi, RoundUp;
    RoundUpFacts(src + sz);
    if sz >= 24 {
      var s, r := src + HeadUp(dst), sz - HeadUp(dst);
      assert s + r == src + sz;
      LoopOverread(s, r);
    }
  }

  /** Once the destination head is done, the source is misaligned exactly if the pointers differ modulo 8. */
  lemma MisalignedAfterHead(dst: int, src: int)
    ensures (src + HeadUp(dst)) % 8 != 0 <==> (src - dst) % 8 != 0
  {}

  lemma RoundUpShift(a: int, b: int)
    requires a % 8 == 0
    ensures RoundUp(a + b) == a + RoundUp(b)
  {}

  lemma LoopOverread(s: int, r: nat)
    ensures LoopLoadHi(s, r) > RoundUp(s + r) <==> s % 8 != 0 && r % 16 + s % 8 <= 8
    ensures LoopLoadHi(s, r) <= RoundUp(s + r) + 8
    ensures RoundUp(s + r) % 8 == 0 && LoopLoadHi(s, r) % 8 == 0
  {
    var q, t, e := r / 16, s % 8, r % 16;
    assert LoopLoadHi(s, r) == if t != 0 then s - t + 16 * q + 16 else s + r - r % 8;
    assert t == 0 ==> RoundUp(s + r) >= s + r;
    hide LoopLoadHi;
    RoundUpShift(s - t + 16 * q, t + e);
    assert s + r == s - t + 16 * q + (t + e);
    SmallRoundUp(t + e);
    hide RoundUp;
  }

  lemma SmallRoundUp(x: nat)
    requires x < 24
    ensures RoundUp(x) == if x == 0 then 0 else if x <= 8 then 8 else if x <= 16 then 16 else 24
  {}

  lemma RoundUpFacts(a: int)
    ensures a <= RoundUp(a) < a + 8 && RoundUp(a) % 8 == 0
  {}

  lemma RoundUpMonotone(a: int, b: int)
    requires a <= b
    ensures a <= RoundUp(a) <= RoundUp(b) && b <= RoundUp(b)
  {
    hide RoundUp;
    RoundUpFacts(a);
    RoundUpFacts(b);
  }

  lemma RoundDownShift(a: int, b: int)
    requires a % 8 == 0
    ensures (a + b) % 8 == b % 8
  {}

  /** The lowest word of the descending loops holds a byte of the source, which starts at s - r. */
  lemma LoopLoadLoTouches(s: int, r: nat)
    ensures s - r - (s - r) % 8 <= LoopLoadLo(s, r)
  {
    if s % 8 != 0 {
      var q, t, e := r / 16, s % 8, r % 16;
      RoundDownShift(s - t - 16 * q, t - e);
      assert s - r == s - t - 16 * q + (t - e);
      assert t - e - (t - e) % 8 <= 0;
    }
  }

  /** The descending copy loads only bytes of aligned words that the source touches. */
  lemma DownFootprint(dst: int, src: int, sz: nat)
    ensures src - src % 8 <= DownLoadLo(dst, src, sz) <= src
    ensures src + sz <= DownLoadHi(dst, src, sz) <= RoundUp(src + sz)
  {
    hide LoopLoadLo, RoundUp;
    var head := (dst + sz) % 8;
    RoundUpMonotone(src + sz - head, src + sz);
    if sz >= 24 {
      LoopLoadLoTouches(src + sz - head, sz - head);
      assert src + sz - head - (sz - head) == src;
    }
  }
}
