/** 64-bit little-endian register words and the shift pair that merges two of them. */
module Words {

  /** The i-th byte of a register word in memory (little-endian) order. */
  function Byte(w: bv64, i: nat): bv8
    requires i < 8
  {
    if i == 0 then (w & 0xFF) as bv8
    else if i == 1 then ((w >> 8) & 0xFF) as bv8
    else if i == 2 then ((w >> 16) & 0xFF) as bv8
    else if i == 3 then ((w >> 24) & 0xFF) as bv8
    else if i == 4 then ((w >> 32) & 0xFF) as bv8
    else if i == 5 then ((w >> 40) & 0xFF) as bv8
    else if i == 6 then ((w >> 48) & 0xFF) as bv8
    else ((w >> 56) & 0xFF) as bv8
  }

  /** The word a load assembles from eight consecutive bytes. */
  function Pack(b: seq<bv8>): bv64
    requires |b| == 8
  {
    (b[0] as bv64) | (b[1] as bv64 << 8) | (b[2] as bv64 << 16) | (b[3] as bv64 << 24)
    | (b[4] as bv64 << 32) | (b[5] as bv64 << 40) | (b[6] as bv64 << 48) | (b[7] as bv64 << 56)
  }

  lemma PackByte(b: seq<bv8>, i: nat)
    requires |b| == 8 && i < 8
    ensures Byte(Pack(b), i) == b[i]
  {
    if i == 0 {} else if i == 1 {} else if i == 2 {} else if i == 3 {}
    else if i == 4 {} else if i == 5 {} else if i == 6 {} else {}
  }

  lemma ByteExtend(b: bv8)
    ensures Byte(b as bv64, 0) == b
  {}

  // srl and sll use only the low six bits of the amount register

  function Srl(w: bv64, amount: bv64): bv64 {
    w >> (amount & 63)
  }

  function Sll(w: bv64, amount: bv64): bv64 {
    w << (amount & 63)
  }

  /** slli by 3 of a byte misalignment: the number of bits in t bytes. */
  function BitsOf(t: nat): bv64
    requires t < 8
  {
    if t == 0 then 0 else if t == 1 then 8 else if t == 2 then 16 else if t == 3 then 24
    else if t == 4 then 32 else if t == 5 then 40 else if t == 6 then 48 else 56
  }

  /** The shift pair of both unaligned loops, for a misalignment of t bytes: the amounts are
      a6 = 8t and a7 = -a6, and the two halves are combined with or. */
  function Merge(w0: bv64, w1: bv64, t: nat): bv64
    requires t < 8
  {
    var a6 := BitsOf(t);
    var a7 := 0 - a6;
    Srl(w0, a6) | Sll(w1, a7)
  }

  /** w holds bytes t..t+7 of the sixteen bytes of w0 followed by w1. */
  ghost predicate Straddles(w: bv64, w0: bv64, w1: bv64, t: nat)
    requires t < 8
  {
    forall i :: 0 <= i < 8 ==> Byte(w, i) == if i + t < 8 then Byte(w0, i + t) else Byte(w1, i + t - 8)
  }

  lemma Merge1(w0: bv64, w1: bv64)
    ensures Straddles((w0 >> 8) | (w1 << 56), w0, w1, 1)
  {}

  lemma Merge2(w0: bv64, w1: bv64)
    ensures Straddles((w0 >> 16) | (w1 << 48), w0, w1, 2)
  {}

  lemma Merge3(w0: bv64, w1: bv64)
    ensures Straddles((w0 >> 24) | (w1 << 40), w0, w1, 3)
  {}

  lemma Merge4(w0: bv64, w1: bv64)
    ensures Straddles((w0 >> 32) | (w1 << 32), w0, w1, 4)
  {}

  lemma Merge5(w0: bv64, w1: bv64)
    ensures Straddles((w0 >> 40) | (w1 << 24), w0, w1, 5)
  {}

  lemma Merge6(w0: bv64, w1: bv64)
    ensures Straddles((w0 >> 48) | (w1 << 16), w0, w1, 6)
  {}

  lemma Merge7(w0: bv64, w1: bv64)
    ensures Straddles((w0 >> 56) | (w1 << 8), w0, w1, 7)
  {}

  lemma MergeAmounts(w0: bv64, w1: bv64, t: nat)
    requires 1 <= t < 8
    ensures t == 1 ==> Merge(w0, w1, t) == (w0 >> 8) | (w1 << 56)
    ensures t == 2 ==> Merge(w0, w1, t) == (w0 >> 16) | (w1 << 48)
    ensures t == 3 ==> Merge(w0, w1, t) == (w0 >> 24) | (w1 << 40)
    ensures t == 4 ==> Merge(w0, w1, t) == (w0 >> 32) | (w1 << 32)
    ensures t == 5 ==> Merge(w0, w1, t) == (w0 >> 40) | (w1 << 24)
    ensures t == 6 ==> Merge(w0, w1, t) == (w0 >> 48) | (w1 << 16)
    ensures t == 7 ==> Merge(w0, w1, t) == (w0 >> 56) | (w1 << 8)
  {
    if t == 1 {} else if t == 2 {} else if t == 3 {} else if t == 4 {} else if t == 5 {} else if t == 6 {} else {}
  }

  /** (w0 >> 8t) | (w1 << -8t) is the word that straddles w0 and w1 at byte t. */
  lemma ShiftMerge(w0: bv64, w1: bv64, t: nat)
    requires 1 <= t < 8
    ensures Straddles(Merge(w0, w1, t), w0, w1, t)
  {
    hide Straddles, Byte, Merge;
    MergeAmounts(w0, w1, t);
    if t == 1 { Merge1(w0, w1); }
    else if t == 2 { Merge2(w0, w1); }
    else if t == 3 { Merge3(w0, w1); }
    else if t == 4 { Merge4(w0, w1); }
    else if t == 5 { Merge5(w0, w1); }
    else if t == 6 { Merge6(w0, w1); }
    else { Merge7(w0, w1); }
  }

  /** The replication steps of _memset: the clamped byte doubled three times. */
  function Replicate(ch: bv64): bv64 {
    var c := ch & 255;
    var h := c | (c << 8);
    var w := h | (h << 16);
    w | (w << 32)
  }

  lemma ReplicateBytes(ch: bv64, i: nat)
    requires i < 8
    ensures Byte(Replicate(ch), i) == Byte(ch, 0)
  {}

  /** Clamping ch to one byte does not change the byte that sb stores. */
  lemma ClampByte(ch: bv64)
    ensures Byte(ch & 255, 0) == Byte(ch, 0)
  {}

  /** Merging two words of m that follow each other gives the unaligned word of m at byte t of the first. */
  lemma MergedBytes(w0: bv64, w1: bv64, t: nat, m: seq<bv8>, a: int)
    requires 1 <= t < 8 && 0 <= a && a + t + 8 <= |m|
    requires forall j :: t <= j < 8 ==> Byte(w0, j) == m[a + j]
    requires forall j :: 0 <= j < t ==> Byte(w1, j) == m[a + 8 + j]
    ensures forall j :: 0 <= j < 8 ==> Byte(Merge(w0, w1, t), j) == m[a + t + j]
  {
    hide Byte, Merge;
    ShiftMerge(w0, w1, t);
  }
}
