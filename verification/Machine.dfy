/** The memory of an RV64 hart as the routines see it: byte and aligned word accesses,
    with ghost meters for the number of stores and the span of the loads. */
module Machine {
  import opened Words

  function Min(a: int, b: int): int {
    if a < b then a else b
  }

  function Max(a: int, b: int): int {
    if a < b then b else a
  }

  const ADDRESS_SPACE := 0x1_0000_0000_0000_0000

  /** The integer a in a 64-bit register or in size_t. */
  function Wrap(a: int): nat {
    a % ADDRESS_SPACE
  }

  /** Wrapping below zero is undone by an offset that leads back to a real address. */
  lemma WrapBack(p: int, offset: int)
    requires 0 <= p + offset < ADDRESS_SPACE
    ensures Wrap(Wrap(p) + offset) == p + offset
  {}

  /** A multiple of the register size. */
  predicate Aligned(a: int) {
    a % 8 == 0
  }

  lemma AlignedStep(a: int, k: int)
    requires Aligned(a)
    ensures Aligned(a + 8 * k)
  {}

  lemma RoundDown(a: int, n: int)
    requires Aligned(a)
    ensures a + n - (a + n) % 8 == a + (n - n % 8)
  {}

  class Hart {
    const mem: array<bv8>
    ghost var storeCount: nat
    // Every byte loaded so far has an address in [loadLo, loadHi)
    ghost var loadLo: int
    ghost var loadHi: int

    constructor (memory: array<bv8>)
      ensures mem == memory && storeCount == 0
    {
      mem := memory;
      storeCount, loadLo, loadHi := 0, memory.Length, 0;
    }

    /** Memory is m with every byte of [lo, hi) replaced by the byte of m that lies delta further on. */
    ghost predicate Moved(m: seq<bv8>, lo: int, hi: int, delta: int)
      requires |m| == mem.Length
      requires lo < hi ==> 0 <= lo + delta && hi + delta <= |m|
      reads mem
    {
      forall i {:trigger mem[i]} :: 0 <= i < mem.Length ==> mem[i] == if lo <= i < hi then m[i + delta] else m[i]
    }

    /** Moved, with the bytes of [gapLo, gapHi) left as in m. */
    ghost predicate MovedAround(m: seq<bv8>, lo: int, gapLo: int, gapHi: int, hi: int, delta: int)
      requires |m| == mem.Length
      requires lo <= gapLo <= gapHi <= hi && 0 <= lo + delta && hi + delta <= |m|
      reads mem
    {
      forall i {:trigger mem[i]} :: 0 <= i < mem.Length ==>
        mem[i] == if lo <= i < gapLo || gapHi <= i < hi then m[i + delta] else m[i]
    }

    /** Memory is m with every byte of [lo, hi) replaced by b. */
    ghost predicate Set(m: seq<bv8>, lo: int, hi: int, b: bv8)
      requires |m| == mem.Length
      reads mem
    {
      forall i {:trigger mem[i]} :: 0 <= i < mem.Length ==> mem[i] == if lo <= i < hi then b else m[i]
    }

    method LoadByte(a: int) returns (w: bv64)
      requires 0 <= a < mem.Length
      modifies this`loadLo, this`loadHi
      ensures Byte(w, 0) == mem[a]
      ensures loadLo == Min(old(loadLo), a) && loadHi == Max(old(loadHi), a + 1)
    {
      w := mem[a] as bv64;
      ByteExtend(mem[a]);
      loadLo, loadHi := Min(loadLo, a), Max(loadHi, a + 1);
    }

    method StoreByte(a: int, w: bv64)
      requires 0 <= a < mem.Length
      modifies mem, this`storeCount
      ensures mem[..] == old(mem[..])[a := Byte(w, 0)]
      ensures storeCount == old(storeCount) + 1
    {
      mem[a] := Byte(w, 0);
      storeCount := storeCount + 1;
    }

    /** A word load is only legal at an aligned address. */
    method LoadWord(a: int) returns (w: bv64)
      requires 0 <= a && a + 8 <= mem.Length && Aligned(a)
      modifies this`loadLo, this`loadHi
      ensures forall i :: 0 <= i < 8 ==> Byte(w, i) == mem[a + i]
      ensures loadLo == Min(old(loadLo), a) && loadHi == Max(old(loadHi), a + 8)
    {
      hide Byte, Pack;
      w := Pack(mem[a..a + 8]);
      forall i | 0 <= i < 8 ensures Byte(w, i) == mem[a + i] {
        PackByte(mem[a..a + 8], i);
      }
      loadLo, loadHi := Min(loadLo, a), Max(loadHi, a + 8);
    }

    /** A word store is only legal at an aligned address. */
    method StoreWord(a: int, w: bv64)
      requires 0 <= a && a + 8 <= mem.Length && Aligned(a)
      modifies mem, this`storeCount
      ensures forall i :: 0 <= i < mem.Length ==> mem[i] == if a <= i < a + 8 then Byte(w, i - a) else old(mem[i])
      ensures storeCount == old(storeCount) + 1
    {
      hide Byte;
      forall i | 0 <= i < 8 {
        mem[a + i] := Byte(w, i);
      }
      storeCount := storeCount + 1;
    }
  }
}
