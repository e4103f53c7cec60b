/** fd_write of the embedded WASI stub: gather up to ten guest buffers onto the console. */
module FdWrite {
  import opened LittleEndian

  const IOVECS_SIZE := 10
  const CIOVEC_SIZE := 8
  const ERRNO_SUCCESS := 0
  const ERRNO_NOMEM := 48

  /** What reaches the console: a byte of a buffer, or a diagnostic line. */
  datatype Out = Char(b: byte) | FdLine(fd: nat) | LengthLine(length: nat) | TooManyLine

  function Load32(m: seq<byte>, p: nat): nat
    requires p + 4 <= |m|
  {
    Decode(m[p..p + 4])
  }

  predicate Standard(fd: nat) {
    fd == 1 || fd == 2
  }

  // What the call is for, with the layout of a ciovec written out: four bytes of pointer and four of length

  /** The k ciovecs at p lie in guest memory, so do their buffers, and these are short enough for an int index. */
  predicate Readable(m: seq<byte>, p: nat, k: nat)
    decreases k
  {
    if k == 0 then p <= |m| else
    p + 8 <= |m| &&
    var base, length := Word32(m[p..p + 4]), Word32(m[p + 4..p + 8]);
    base + length <= |m| && length < 0x8000_0000 && Readable(m, p + 8, k - 1)
  }

  /** The bytes of the buffers that the k ciovecs at p point to. */
  function Pointed(m: seq<byte>, p: nat, k: nat): seq<byte>
    requires Readable(m, p, k)
    decreases k
  {
    if k == 0 then [] else
    var base, length := Word32(m[p..p + 4]), Word32(m[p + 4..p + 8]);
    m[base..base + length] + Pointed(m, p + 8, k - 1)
  }

  function Chars(b: seq<byte>): (outs: seq<Out>)
    ensures |outs| == |b|
  {
    seq(|b|, i requires 0 <= i < |b| => Char(b[i]))
  }

  /** What the loop over them puts on the console: for a descriptor that is not standard also each length. */
  function Trace(fd: nat, m: seq<byte>, p: nat, k: nat): seq<Out>
    requires Readable(m, p, k)
    decreases k
  {
    if k == 0 then [] else
    var base, length := Word32(m[p..p + 4]), Word32(m[p + 4..p + 8]);
    (if Standard(fd) then [] else [LengthLine(length)]) + Chars(m[base..base + length]) + Trace(fd, m, p + 8, k - 1)
  }

  /** The bytes among what was printed. */
  function BytesOf(outs: seq<Out>): seq<byte> {
    if outs == [] then [] else (if outs[0].Char? then [outs[0].b] else []) + BytesOf(outs[1..])
  }

  lemma {:induction false} BytesOfConcat(a: seq<Out>, b: seq<Out>)
    ensures BytesOf(a + b) == BytesOf(a) + BytesOf(b)
  {
    if a == [] {
      assert a + b == b;
    } else {
      assert (a + b)[0] == a[0] && (a + b)[1..] == a[1..] + b;
      BytesOfConcat(a[1..], b);
      var first := if a[0].Char? then [a[0].b] else [];
      assert first + (BytesOf(a[1..]) + BytesOf(b)) == first + BytesOf(a[1..]) + BytesOf(b);
    }
  }

  lemma {:induction false} BytesOfChars(b: seq<byte>)
    ensures BytesOf(Chars(b)) == b
  {
    if b != [] {
      assert Chars(b)[1..] == Chars(b[1..]);
      BytesOfChars(b[1..]);
      assert b == [b[0]] + b[1..];
    }
  }

  /** One turn of the loop. */
  lemma Step(fd: nat, m: seq<byte>, p: nat, k: nat, before: seq<Out>)
    requires k > 0 && Readable(m, p, k)
    ensures p + 8 <= |m|
    ensures var base, length := Word32(m[p..p + 4]), Word32(m[p + 4..p + 8]);
      && base + length <= |m| && Readable(m, p + 8, k - 1)
      && Pointed(m, p, k) == m[base..base + length] + Pointed(m, p + 8, k - 1)
      && before + Trace(fd, m, p, k)
         == before + (if Standard(fd) then [] else [LengthLine(length)]) + Chars(m[base..base + length])
            + Trace(fd, m, p + 8, k - 1)
  {
    hide Word32, Chars;
    var base, length := Word32(m[p..p + 4]), Word32(m[p + 4..p + 8]);
    var line, chars := if Standard(fd) then [] else [LengthLine(length)], Chars(m[base..base + length]);
    var rest := Trace(fd, m, p + 8, k - 1);
    assert Trace(fd, m, p, k) == line + chars + rest;
    assert before + (line + chars + rest) == before + line + chars + rest;
  }

  /** On every descriptor the buffers come out whole and in order, and on the standard streams nothing else does. */
  lemma {:induction false} TraceIsPointed(fd: nat, m: seq<byte>, p: nat, k: nat)
    requires Readable(m, p, k)
    ensures BytesOf(Trace(fd, m, p, k)) == Pointed(m, p, k)
    ensures Standard(fd) ==> Trace(fd, m, p, k) == Chars(Pointed(m, p, k))
    decreases k
  {
    hide Word32, Readable, Pointed, Trace, Chars, BytesOf;
    if k == 0 {
      Within(m, p);
      Nothing(fd, m, p);
    } else {
      Step(fd, m, p, k, []);
      var base, length := Word32(m[p..p + 4]), Word32(m[p + 4..p + 8]);
      var line, buffer := if Standard(fd) then [] else [LengthLine(length)], m[base..base + length];
      TraceIsPointed(fd, m, p + 8, k - 1);
      Joined(line, buffer, Trace(fd, m, p + 8, k - 1), Pointed(m, p + 8, k - 1));
      assert [] + Trace(fd, m, p, k) == Trace(fd, m, p, k) && [] + line == line;
    }
  }

  lemma Nothing(fd: nat, m: seq<byte>, p: nat)
    requires p <= |m|
    ensures Readable(m, p, 0) && Pointed(m, p, 0) == [] && Trace(fd, m, p, 0) == []
    ensures Chars([]) == [] && BytesOf([]) == []
  {}

  lemma Within(m: seq<byte>, p: nat)
    requires Readable(m, p, 0)
    ensures p <= |m|
  {}

  lemma Joined(line: seq<Out>, buffer: seq<byte>, rest: seq<Out>, bytes: seq<byte>)
    requires line == [] || (|line| == 1 && !line[0].Char?)
    requires BytesOf(rest) == bytes
    ensures BytesOf(line + Chars(buffer) + rest) == buffer + bytes
    ensures Chars(buffer + bytes) == Chars(buffer) + Chars(bytes)
  {
    hide Chars;
    BytesOfChars(buffer);
    BytesOfConcat(line + Chars(buffer), rest);
    BytesOfConcat(line, Chars(buffer));
    assert line != [] ==> line[1..] == [] && BytesOf(line) == [];
    CharsConcat(buffer, bytes);
  }

  lemma CharsConcat(a: seq<byte>, b: seq<byte>)
    ensures Chars(a + b) == Chars(a) + Chars(b)
  {}

  // A list of ciovecs laid out in memory

  datatype Ciovec = Ciovec(base: nat, length: nat) {
    predicate Fits(m: seq<byte>) {
      base < 0x1_0000_0000 && length < 0x8000_0000 && base + length <= |m|
    }
  }

  function FourBytes(x: nat): (b: seq<byte>)
    ensures |b| == 4
  {
    [x % 0x100, x / 0x100 % 0x100, x / 0x1_0000 % 0x100, x / 0x100_0000 % 0x100]
  }

  function Layout(vs: seq<Ciovec>): (b: seq<byte>)
    ensures |b| == 8 * |vs|
  {
    if vs == [] then [] else FourBytes(vs[0].base) + FourBytes(vs[0].length) + Layout(vs[1..])
  }

  predicate AllFit(m: seq<byte>, vs: seq<Ciovec>) {
    forall i :: 0 <= i < |vs| ==> vs[i].Fits(m)
  }

  function Contents(m: seq<byte>, vs: seq<Ciovec>): seq<byte>
    requires AllFit(m, vs)
  {
    if vs == [] then [] else m[vs[0].base..vs[0].base + vs[0].length] + Contents(m, vs[1..])
  }

  lemma FourBytesWord(x: nat)
    requires x < 0x1_0000_0000
    ensures Word32(FourBytes(x)) == x
  {
    var y := x / 0x100;
    var z := y / 0x100;
    assert x / 0x1_0000 == z && x / 0x100_0000 == z / 0x100;
  }

  lemma PartOf(m: seq<byte>, p: nat, n: nat, i: nat, j: nat)
    requires p + n <= |m| && i <= j <= n
    ensures m[p..p + n][i..j] == m[p + i..p + j]
  {
    var a, b := m[p..p + n][i..j], m[p + i..p + j];
    forall k | 0 <= k < j - i ensures a[k] == b[k] {
      assert a[k] == m[p + i + k];
    }
  }

  /** Ciovecs laid out at p make fd_write gather the contents of their buffers, in order. */
  lemma {:induction false} LayoutIsGathered(m: seq<byte>, p: nat, vs: seq<Ciovec>)
    requires AllFit(m, vs) && p + 8 * |vs| <= |m| && m[p..p + 8 * |vs|] == Layout(vs)
    ensures Readable(m, p, |vs|) && Pointed(m, p, |vs|) == Contents(m, vs)
    decreases |vs|
  {
    hide Word32, FourBytes;
    if vs != [] {
      var x, y, z := FourBytes(vs[0].base), FourBytes(vs[0].length), Layout(vs[1..]);
      var b := x + y + z;
      assert b[..4] == x && b[4..8] == y && b[8..] == z;
      FourBytesWord(vs[0].base);
      FourBytesWord(vs[0].length);
      PartOf(m, p, |b|, 0, 4);
      PartOf(m, p, |b|, 4, 8);
      PartOf(m, p, |b|, 8, |b|);
      LayoutIsGathered(m, p + 8, vs[1..]);
    }
  }

  // The call

  class Guest {
    const data: array<byte>
    var console: seq<Out>

    constructor (memory: array<byte>)
      ensures data == memory && console == []
    {
      data, console := memory, [];
    }

    method Store32(p: nat, x: nat)
      requires p + 4 <= data.Length
      modifies data
      ensures data[..] == old(data[..p]) + Encode(x, 4) + old(data[p + 4..])
    {
      var b := Encode(x, 4);
      forall i | 0 <= i < 4 {
        data[p + i] := b[i];
      }
    }

    /** putchar for every byte of one buffer. */
    method PutBuffer(base: nat, length: nat)
      requires base + length <= data.Length
      modifies `console
      ensures console == old(console) + Chars(data[base..base + length])
    {
      for i := 0 to length
        invariant console == old(console) + Chars(data[base..base + i])
      {
        console := console + [Char(data[base + i])];
        assert data[base..base + i + 1] == data[base..base + i] + [data[base + i]];
        assert Chars(data[base..base + i + 1]) == Chars(data[base..base + i]) + [Char(data[base + i])];
      }
    }

    /** The loop over the ciovecs; the total is that of an I64. */
    method PutVecs(fd: nat, ciovecs: nat, count: nat) returns (total: nat)
      requires Readable(data[..], ciovecs, count)
      modifies `console
      ensures console == old(console) + Trace(fd, data[..], ciovecs, count)
      ensures total == |Pointed(data[..], ciovecs, count)|
    {
      hide Decode, Word32, Readable, Pointed, Trace, Chars;
      ghost var m := data[..];
      total := 0;
      for k := 0 to count
        invariant m == data[..] && Readable(m, ciovecs + 8 * k, count - k)
        invariant old(console) + Trace(fd, m, ciovecs, count) == console + Trace(fd, m, ciovecs + 8 * k, count - k)
        invariant |Pointed(m, ciovecs, count)| == total + |Pointed(m, ciovecs + 8 * k, count - k)|
      {
        var p := ciovecs + k * CIOVEC_SIZE;
        Step(fd, m, p, count - k, console);
        DecodeShort(m[p..p + 4]);
        DecodeShort(m[p + 4..p + 8]);
        var base, length := Load32(data[..], p), Load32(data[..], p + 4);
        if !Standard(fd) {
          console := console + [LengthLine(length)];
        }
        total := total + length;
        PutBuffer(base, length);
      }
      Within(m, ciovecs + 8 * count);
      Nothing(fd, m, ciovecs + 8 * count);
    }

    /** More than ten ciovecs are refused. Otherwise the console receives the buffers as they were on entry, wherever
        the result is stored, and the result is their total length as a 32-bit word. */
    method FdWrite(fd: nat, ciovecs: nat, count: nat, result: nat) returns (errno: nat)
      requires count <= 10 ==> Readable(data[..], ciovecs, count) && result + 4 <= data.Length
      modifies data, `console
      ensures var line := if fd == 1 || fd == 2 then [] else [FdLine(fd)];
        if count > 10 then
          errno == 48 && data[..] == old(data[..]) && console == old(console) + line + [TooManyLine]
        else
          && errno == 0
          && console == old(console) + line + Trace(fd, old(data[..]), ciovecs, count)
          && data[..result] == old(data[..result]) && data[result + 4..] == old(data[result + 4..])
          && Word32(data[result..result + 4]) == |Pointed(old(data[..]), ciovecs, count)| % 0x1_0000_0000
    {
      hide Readable, Pointed, Trace, Encode, Word32;
      if !Standard(fd) {
        console := console + [FdLine(fd)];
      }
      if count > IOVECS_SIZE {
        console := console + [TooManyLine];
        return ERRNO_NOMEM;
      }
      var total := PutVecs(fd, ciovecs, count);
      ResultWord(total % 0x1_0000_0000);
      Store32(result, total % 0x1_0000_0000);
      assert data[result..result + 4] == Encode(total % 0x1_0000_0000, 4);
      errno := ERRNO_SUCCESS;
    }
  }

  lemma ResultWord(x: nat)
    requires x < 0x1_0000_0000
    ensures Word32(Encode(x, 4)) == x
  {
    hide Encode, Decode, Pow2, Word32;
    Pow2Widths();
    DecodeEncode(x, 4);
    DecodeShort(Encode(x, 4));
  }
}
