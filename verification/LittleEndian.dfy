/** Unsigned little-endian integers over byte slices, as encoding/binary reads and writes them. */
module LittleEndian {
  type byte = x: int | 0 <= x < 256

  function Pow2(k: nat): (p: nat)
    ensures p >= 1
  {
    if k == 0 then 1 else 2 * Pow2(k - 1)
  }

  /** The n low bytes of x, least significant first. */
  function Encode(x: nat, n: nat): (b: seq<byte>)
    ensures |b| == n
  {
    if n == 0 then [] else [x % 256] + Encode(x / 256, n - 1)
  }

  function Decode(b: seq<byte>): nat {
    if b == [] then 0 else b[0] + 256 * Decode(b[1..])
  }

  lemma Pow2Byte(k: nat)
    ensures Pow2(k + 8) == 256 * Pow2(k)
  {
    assert Pow2(k + 8) == 2 * Pow2(k + 7) == 4 * Pow2(k + 6) == 8 * Pow2(k + 5) == 16 * Pow2(k + 4);
    assert Pow2(k + 4) == 2 * Pow2(k + 3) == 4 * Pow2(k + 2) == 8 * Pow2(k + 1) == 16 * Pow2(k);
  }

  lemma Pow2Double(k: nat)
    ensures Pow2(k + 1) == 2 * Pow2(k)
  {}

  lemma Pow2Widths()
    ensures Pow2(7) == 0x80 && Pow2(8) == 0x100 && Pow2(15) == 0x8000 && Pow2(16) == 0x1_0000
    ensures Pow2(31) == 0x8000_0000 && Pow2(32) == 0x1_0000_0000
    ensures Pow2(63) == 0x8000_0000_0000_0000 && Pow2(64) == 0x1_0000_0000_0000_0000
  {
    assert Pow2(0) == 1;
    hide Pow2;
    Pow2Byte(0); Pow2Byte(8); Pow2Byte(16); Pow2Byte(24); Pow2Byte(32); Pow2Byte(40); Pow2Byte(48); Pow2Byte(56);
    Pow2Double(7); Pow2Double(15); Pow2Double(31); Pow2Double(63);
  }

  lemma {:induction false} DecodeEncode(x: nat, n: nat)
    requires x < Pow2(8 * n)
    ensures Decode(Encode(x, n)) == x
  {
    if n > 0 {
      Pow2Byte(8 * (n - 1));
      assert 8 * (n - 1) + 8 == 8 * n;
      DecodeEncode(x / 256, n - 1);
      assert Encode(x, n)[1..] == Encode(x / 256, n - 1);
    }
  }

  lemma {:induction false} EncodeDecode(b: seq<byte>)
    ensures Decode(b) < Pow2(8 * |b|)
    ensures Encode(Decode(b), |b|) == b
  {
    if b != [] {
      EncodeDecode(b[1..]);
      Pow2Byte(8 * |b[1..]|);
      assert 8 * |b[1..]| + 8 == 8 * |b|;
      assert b == [b[0]] + b[1..];
    }
  }

  /** Appending a most significant byte adds it at its place. */
  lemma {:induction false} DecodeSnoc(b: seq<byte>, x: byte)
    ensures Decode(b + [x]) == Decode(b) + x * Pow2(8 * |b|)
  {
    if b == [] {
      assert b + [x] == [x];
    } else {
      assert (b + [x])[1..] == b[1..] + [x];
      DecodeSnoc(b[1..], x);
      Pow2Byte(8 * |b[1..]|);
      assert 8 * |b[1..]| + 8 == 8 * |b|;
      ghost var q := Pow2(8 * |b[1..]|);
      assert 256 * (x * q) == x * (256 * q);
    }
  }

  // Words of one, two, four and eight bytes, least significant byte first, written out

  function Word8(b: seq<byte>): nat
    requires |b| == 1
  {
    b[0]
  }

  function Word16(b: seq<byte>): nat
    requires |b| == 2
  {
    var c: seq<nat> := b;
    c[0] + 0x100 * c[1]
  }

  function Word32(b: seq<byte>): nat
    requires |b| == 4
  {
    var c: seq<nat> := b;
    c[0] + 0x100 * c[1] + 0x1_0000 * c[2] + 0x100_0000 * c[3]
  }

  function Word64(b: seq<byte>): nat
    requires |b| == 8
  {
    var c: seq<nat> := b;
    c[0] + 0x100 * c[1] + 0x1_0000 * c[2] + 0x100_0000 * c[3]
    + 0x1_0000_0000 * c[4] + 0x100_0000_0000 * c[5] + 0x1_0000_0000_0000 * c[6] + 0x100_0000_0000_0000 * c[7]
  }

  /** Decoding is the word. */
  lemma DecodeShort(b: seq<byte>)
    ensures |b| == 1 ==> Decode(b) == Word8(b)
    ensures |b| == 2 ==> Decode(b) == Word16(b)
    ensures |b| == 4 ==> Decode(b) == Word32(b)
  {
    assert Decode([]) == 0;
    if |b| == 2 {
      assert b[1..] == [b[1]];
    }
    if |b| == 4 {
      var b1 := b[1..];
      var b2 := b1[1..];
      assert b2[1..] == [b[3]];
    }
  }

  lemma DecodeLong(b: seq<byte>)
    requires |b| == 8
    ensures Decode(b) == Word64(b)
  {
    var b1 := b[1..];
    var b2 := b1[1..];
    var b3 := b2[1..];
    var b4 := b3[1..];
    assert Decode(b) == b[0] + 256 * Decode(b1) && Decode(b1) == b[1] + 256 * Decode(b2);
    assert Decode(b2) == b[2] + 256 * Decode(b3) && Decode(b3) == b[3] + 256 * Decode(b4);
    DecodeShort(b4);
    assert b4 == b[4..];
  }

  /** Bitwise or of two unsigned integers. */
  function BitOr(x: nat, y: nat): nat
    decreases x + y
  {
    if x == 0 && y == 0 then 0
    else 2 * BitOr(x / 2, y / 2) + if x % 2 == 1 || y % 2 == 1 then 1 else 0
  }

  lemma {:induction false} OrZero(y: nat)
    ensures BitOr(0, y) == y
  {
    if y != 0 {
      OrZero(y / 2);
    }
  }

  /** Or adds when the operands share no bits. */
  lemma {:induction false} OrIsSum(x: nat, y: nat, k: nat)
    requires x < Pow2(k)
    ensures BitOr(x, y * Pow2(k)) == x + y * Pow2(k)
  {
    if k == 0 {
      OrZero(y);
    } else {
      var h := y * Pow2(k - 1);
      assert y * Pow2(k) == 2 * h;
      OrIsSum(x / 2, y, k - 1);
    }
  }
}
