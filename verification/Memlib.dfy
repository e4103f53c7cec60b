/** The three-block heap of memlib.c: allocators that only compute addresses, and the
    memset wrapper that skips large zero fills. S stands for sizeof(wasmMemory). */
module Memlib {
  import opened Words
  import opened Machine
  import opened MemSpec
  import Fill

  const HEAP_START := 0xa102_0000
  const HEAP_SIZE := 0x1EFE_0000
  const HEAP_END := HEAP_START + HEAP_SIZE
  const TABLE_BUF := 0x10_0000

  /** The struct and the table reserve fit into the heap, and calloc can tell a struct request from a data request. */
  predicate StructSize(S: nat) {
    1 < S && S + TABLE_BUF <= HEAP_SIZE
  }

  predicate MemoryDataSizeOk(S: nat, size: nat) {
    Wrap(HEAP_START + S + TABLE_BUF + size) <= HEAP_END
  }

  datatype AllocType = StructAlloc | TableAlloc | DataAlloc

  const NULL := 0

  function Malloc(S: nat, size: nat, kind: AllocType): nat
    requires size < ADDRESS_SPACE
  {
    match kind
    case StructAlloc => HEAP_START
    case TableAlloc => Wrap(HEAP_END - size - 1 + ADDRESS_SPACE)
    case DataAlloc => if MemoryDataSizeOk(S, size) then HEAP_START + S else NULL
  }

  function KindOf(S: nat, size: nat): AllocType {
    if size == S then StructAlloc else if size == 1 then DataAlloc else TableAlloc
  }

  function Calloc(S: nat, nmemb: nat, size: nat): nat {
    Malloc(S, Wrap(nmemb * size), KindOf(S, size))
  }

  function Realloc(S: nat, ptr: nat, size: nat): nat {
    if MemoryDataSizeOk(S, size) then ptr else NULL
  }

  /** What the memset wrapper does to memory. */
  predicate SkipsFill(ch: bv64, len: nat) {
    len > TABLE_BUF && ch == 0
  }

  ghost function MemsetEffect(m: seq<bv8>, b: int, ch: bv64, len: nat): (r: seq<bv8>)
    requires 0 <= b && b + len <= |m|
    ensures |r| == |m|
  {
    if SkipsFill(ch, len) then m else Filled(m, b, Byte(ch, 0), len)
  }

  method Memset(h: Hart, b: int, ch: bv64, len: nat, label3: int) returns (r: int)
    requires 0 <= b && b + len <= h.mem.Length < ADDRESS_SPACE
    modifies h.mem, h`storeCount
    ensures r == b
    ensures h.mem[..] == MemsetEffect(old(h.mem[..]), b, ch, len)
    ensures ch == 0 && len > 0x10_0000 ==> h.mem[..] == old(h.mem[..])
    ensures ch != 0 || len <= 0x10_0000 ==> h.mem[..] == Filled(old(h.mem[..]), b, Byte(ch, 0), len)
  {
    hide Byte;
    if len > TABLE_BUF && ch == 0 {
      return b;
    }
    r := Fill.Memset(h, b, ch, len, label3);
  }

  /** The bounds test accepts exactly the requests that fit, and those so large that the sum wraps around. */
  lemma SizeOkExact(S: nat, size: nat)
    requires StructSize(S) && size < ADDRESS_SPACE
    ensures MemoryDataSizeOk(S, size) <==>
      S + size + TABLE_BUF <= HEAP_SIZE || HEAP_START + S + TABLE_BUF + size >= ADDRESS_SPACE
  {
  }

  /** The part of the sum that is computed in 32-bit unsigned arithmetic does not wrap there. */
  lemma UnsignedPartFits(S: nat)
    requires StructSize(S)
    ensures HEAP_START + S + TABLE_BUF < 0x1_0000_0000 && HEAP_END < 0x1_0000_0000
  {}
}
