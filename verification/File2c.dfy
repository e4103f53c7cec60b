/** The byte-array printer of file2c, against a reader of the C source it prints. */
module File2c {
  import opened LittleEndian

  datatype Option<T> = None | Some(value: T)

  const DIGITS := "0123456789ABCDEF"

  /** The C conversion to int. */
  function Int32(x: int): int {
    (x + 0x8000_0000) % 0x1_0000_0000 - 0x8000_0000
  }

  function Digit(d: nat): char
    requires d < 16
  {
    DIGITS[d]
  }

  /** %.2X after a literal 0x. */
  function Hex(c: byte): (s: string)
    ensures |s| == 4
  {
    ['0', 'x', Digit(c / 16), Digit(c % 16)]
  }

  /** What is printed after the n-th byte. */
  function Separator(n: nat, filesize: int): string {
    (if Int32(n) == filesize then "" else ", ") + (if n % 20 == 0 then "\n    " else "")
  }

  /** The text printed for the bytes of f from number i on, up to the closing brace. */
  function Text(f: seq<byte>, i: nat, filesize: int): string
    requires i <= |f|
    decreases |f| - i
  {
    if i == |f| then "\n" else Hex(f[i]) + Separator(i + 1, filesize) + Text(f, i + 1, filesize)
  }

  /** %i. */
  function Decimal(i: int): string {
    if i < 0 then "-" + Digits(-i) else Digits(i)
  }

  function Digits(n: nat): string {
    (if n < 10 then "" else Digits(n / 10)) + [Digit(n % 10)]
  }

  /** The printed source: an array, and its length. */
  function Source(name: string, f: seq<byte>, filesize: int): string {
    Header(name) + Text(f, 0, filesize) + Trailer(name, filesize)
  }

  function Header(name: string): string {
    "const char " + name + "[] = {\n    "
  }

  function Trailer(name: string, filesize: int): string {
    "};\n" + "int " + name + "_length=" + Decimal(filesize) + ";\n"
  }

  /** What main prints for a file of content f, whose size was found to be filesize. */
  method PrintSource(name: string, f: seq<byte>, filesize: int) returns (out: string)
    ensures out == Source(name, f, filesize)
  {
    hide Hex, Separator, Decimal, Header, Trailer;
    out := Header(name);
    var n := 0;
    while n < |f|
      invariant n <= |f|
      invariant Header(name) + Text(f, 0, filesize) == out + Text(f, n, filesize)
    {
      var c := f[n];
      Regroup(out, Hex(c), Separator(n + 1, filesize), Text(f, n + 1, filesize));
      n := n + 1;
      out := out + Hex(c) + Separator(n, filesize);
    }
    out := out + "\n" + Trailer(name, filesize);
  }

  lemma Regroup(a: string, b: string, c: string, d: string)
    ensures a + (b + c + d) == a + b + c + d
  {}

  // An independent reader. Initializer lists: 0xHH items, commas between them, one comma allowed at the end

  predicate Blank(c: char) {
    c == ' ' || c == '\n'
  }

  function SkipBlanks(s: string): (r: string)
    ensures |r| <= |s|
  {
    if s != "" && Blank(s[0]) then SkipBlanks(s[1..]) else s
  }

  function DigitValue(c: char): Option<nat> {
    if '0' <= c <= '9' then Some(c as int - '0' as int)
    else if 'A' <= c <= 'F' then Some(c as int - 'A' as int + 10)
    else None
  }

  /** One item at the front of s. */
  function ParseItem(s: string): Option<byte> {
    if |s| < 4 || s[0] != '0' || s[1] != 'x' then None else
    match (DigitValue(s[2]), DigitValue(s[3]))
    case (Some(h), Some(l)) => if 16 * h + l < 256 then Some(16 * h + l) else None
    case _ => None
  }

  function Parse(s: string): Option<seq<byte>>
    decreases |s|
  {
    var t := SkipBlanks(s);
    if t == "" then Some([]) else
    match ParseItem(t)
    case None => None
    case Some(c) =>
      var u := SkipBlanks(t[4..]);
      if u == "" then Some([c])
      else if u[0] != ',' then None
      else match Parse(u[1..]) case Some(rest) => Some([c] + rest) case None => None
  }

  lemma ParseHex(c: byte, rest: string)
    ensures ParseItem(Hex(c) + rest) == Some(c)
    ensures (Hex(c) + rest)[4..] == rest && !Blank((Hex(c) + rest)[0])
  {
    DigitRoundTrip(c / 16);
    DigitRoundTrip(c % 16);
  }

  lemma DigitRoundTrip(d: nat)
    requires d < 16
    ensures DigitValue(Digit(d)) == Some(d) && Digit(d) != '}'
    ensures d < 10 ==> '0' <= Digit(d) <= '9'
  {}

  predicate AllBlank(s: string) {
    forall i :: 0 <= i < |s| ==> Blank(s[i])
  }

  lemma {:induction false} SkipAll(b: string, s: string)
    requires AllBlank(b)
    ensures SkipBlanks(b + s) == SkipBlanks(s)
  {
    if b == "" {
      assert b + s == s;
    } else {
      assert (b + s)[1..] == b[1..] + s;
      SkipAll(b[1..], s);
    }
  }

  /** Leading blanks do not change what is read. */
  lemma ParseAfterBlanks(b: string, s: string)
    requires AllBlank(b)
    ensures Parse(b + s) == Parse(s)
  {
    SkipAll(b, s);
  }

  lemma TextStep(f: seq<byte>, i: nat, filesize: int)
    requires i <= |f|
    ensures i < |f| ==> Text(f, i, filesize) == Hex(f[i]) + (Separator(i + 1, filesize) + Text(f, i + 1, filesize))
    ensures i == |f| ==> Text(f, i, filesize) == "\n"
  {
    hide Separator, Hex;
  }

  /** The text is blank at the end of f, and starts with an item before. */
  lemma TextStarts(f: seq<byte>, i: nat, filesize: int)
    requires i <= |f|
    ensures i == |f| ==> SkipBlanks(Text(f, i, filesize)) == "" && Parse(Text(f, i, filesize)) == Some([])
    ensures i < |f| ==> SkipBlanks(Text(f, i, filesize)) == Text(f, i, filesize) != ""
    ensures i < |f| ==> Text(f, i, filesize)[0] == '0'
  {
    hide Separator, Parse;
    if i == |f| {
      ParseAfterBlanks("\n", "");
      SkipAll("\n", "");
      assert "\n" + "" == "\n";
      ParseNothing();
    }
  }

  lemma ParseNothing()
    ensures SkipBlanks("") == "" && Parse("") == Some([])
  {}

  /** The separator is blank but for its comma. */
  lemma SeparatorForm(n: nat, filesize: int) returns (b: string)
    ensures AllBlank(b)
    ensures Separator(n, filesize) == if Int32(n) == filesize then b else "," + b
  {
    if Int32(n) == filesize {
      b := Separator(n, filesize);
    } else {
      b := " " + if n % 20 == 0 then "\n    " else "";
    }
  }

  /** No byte before the last is printed without its comma. */
  predicate CommasFrom(f: seq<byte>, i: nat, filesize: int) {
    forall n :: i < n < |f| ==> Int32(n) != filesize
  }

  lemma ParseItemAnd(c: byte, tail: string)
    ensures var u := SkipBlanks(tail);
      Parse(Hex(c) + tail) ==
        if u == "" then Some([c])
        else if u[0] != ',' then None
        else match Parse(u[1..]) case Some(rest) => Some([c] + rest) case None => None
  {
    hide Hex, ParseItem;
    ParseHex(c, tail);
    assert SkipBlanks(Hex(c) + tail) == Hex(c) + tail;
  }

  /** Reading one printed byte and its separator, with rest printed behind it. */
  lemma ParseOne(c: byte, n: nat, filesize: int, rest: string)
    requires SkipBlanks(rest) == "" || SkipBlanks(rest)[0] != ','
    ensures Parse(Hex(c) + (Separator(n, filesize) + rest)) ==
      if Int32(n) == filesize then (if SkipBlanks(rest) == "" then Some([c]) else None)
      else match Parse(rest) case Some(bytes) => Some([c] + bytes) case None => None
  {
    hide Hex, Separator, Parse, SkipBlanks, Int32;
    var b := SeparatorForm(n, filesize);
    var tail := Separator(n, filesize) + rest;
    ParseItemAnd(c, tail);
    if Int32(n) == filesize {
      SkipAll(b, rest);
    } else {
      assert tail == "," + (b + rest) && tail[1..] == b + rest;
      SkipComma(b + rest);
      ParseAfterBlanks(b, rest);
    }
  }

  lemma RestStep(f: seq<byte>, i: nat)
    requires i < |f|
    ensures f[i..] == [f[i]] + f[i + 1..]
    ensures i + 1 == |f| ==> f[i..] == [f[i]]
  {}

  lemma CommasStep(f: seq<byte>, i: nat, filesize: int)
    requires i < |f|
    ensures CommasFrom(f, i, filesize) <==> CommasFrom(f, i + 1, filesize) && (i + 1 < |f| ==> Int32(i + 1) != filesize)
    ensures i + 1 == |f| ==> CommasFrom(f, i + 1, filesize)
  {
    hide Int32;
  }

  lemma {:induction false} ParseText(f: seq<byte>, i: nat, filesize: int)
    requires i <= |f|
    ensures Parse(Text(f, i, filesize)) == if CommasFrom(f, i, filesize) then Some(f[i..]) else None
    decreases |f| - i
  {
    assert i == |f| ==> CommasFrom(f, i, filesize) && f[i..] == [];
    hide Hex, Separator, Text, SkipBlanks, Parse, Int32, CommasFrom;
    TextStarts(f, i, filesize);
    TextStep(f, i, filesize);
    if i < |f| {
      TextStarts(f, i + 1, filesize);
      ParseOne(f[i], i + 1, filesize, Text(f, i + 1, filesize));
      ParseText(f, i + 1, filesize);
      RestStep(f, i);
      CommasStep(f, i, filesize);
    }
  }

  lemma SkipComma(s: string)
    ensures SkipBlanks("," + s) == "," + s
  {}

  // The lines of the list

  /** How many items, told by their x, stand on each line of a text. */
  function ItemsPerLine(s: string): (r: seq<nat>)
    ensures r != []
  {
    if s == "" then [0] else
    var r := ItemsPerLine(s[1..]);
    if s[0] == '\n' then [0] + r else if s[0] == 'x' then [r[0] + 1] + r[1..] else r
  }

  lemma PlainChar(c: char, s: string)
    requires c != '\n'
    ensures ItemsPerLine([c] + s) ==
      if c == 'x' then [ItemsPerLine(s)[0] + 1] + ItemsPerLine(s)[1..] else ItemsPerLine(s)
  {
    assert ([c] + s)[1..] == s;
  }

  lemma ItemOnLine(c: byte, s: string)
    ensures ItemsPerLine(Hex(c) + s) == [ItemsPerLine(s)[0] + 1] + ItemsPerLine(s)[1..]
  {
    hide ItemsPerLine, Digit;
    var h, l := Digit(c / 16), Digit(c % 16);
    DigitIsPlain(c / 16);
    DigitIsPlain(c % 16);
    assert Hex(c) + s == ['0'] + (['x'] + ([h] + ([l] + s)));
    PlainChar(l, s);
    PlainChar(h, [l] + s);
    PlainChar('x', [h] + ([l] + s));
    PlainChar('0', ['x'] + ([h] + ([l] + s)));
  }

  lemma DigitIsPlain(d: nat)
    requires d < 16
    ensures Digit(d) != '\n' && Digit(d) != 'x'
  {}

  lemma SeparatorOnLine(n: nat, filesize: int, s: string)
    ensures ItemsPerLine(Separator(n, filesize) + s) ==
      if n % 20 == 0 then [0] + ItemsPerLine(s) else ItemsPerLine(s)
  {
    hide ItemsPerLine, Int32;
    var t := if n % 20 == 0 then "\n    " + s else s;
    if n % 20 == 0 {
      BreakOnLine(s);
    }
    if Int32(n) == filesize {
      assert Separator(n, filesize) + s == t;
    } else {
      assert Separator(n, filesize) + s == [','] + ([' '] + t);
      PlainChar(' ', t);
      PlainChar(',', [' '] + t);
    }
  }

  lemma BreakOnLine(s: string)
    ensures ItemsPerLine("\n    " + s) == [0] + ItemsPerLine(s)
  {
    var t := [' '] + ([' '] + ([' '] + ([' '] + s)));
    PlainChar(' ', s);
    PlainChar(' ', [' '] + s);
    PlainChar(' ', [' '] + ([' '] + s));
    PlainChar(' ', [' '] + ([' '] + ([' '] + s)));
    assert ("\n    " + s)[1..] == t;
  }

  /** Twenty items stand on a line, and what is left on one more, before the line of the closing brace. */
  function Twenties(n: nat, i: nat): seq<nat>
    requires i <= n
  {
    if n / 20 == i / 20 then [n - i, 0]
    else [20 - i % 20] + seq(n / 20 - i / 20 - 1, _ => 20) + [n % 20, 0]
  }

  lemma TwentiesStep(n: nat, i: nat)
    requires i < n
    ensures var r := Twenties(n, i + 1);
      Twenties(n, i) == if (i + 1) % 20 == 0 then [1] + r else [r[0] + 1] + r[1..]
  {}

  lemma {:induction false} TextLines(f: seq<byte>, i: nat, filesize: int)
    requires i <= |f|
    ensures ItemsPerLine(Text(f, i, filesize)) == Twenties(|f|, i)
    decreases |f| - i
  {
    hide Hex, Separator, Twenties, Text, ItemsPerLine;
    TextStep(f, i, filesize);
    if i < |f| {
      var rest := Text(f, i + 1, filesize);
      TextLines(f, i + 1, filesize);
      SeparatorOnLine(i + 1, filesize, rest);
      ItemOnLine(f[i], Separator(i + 1, filesize) + rest);
      TwentiesStep(|f|, i);
    } else {
      LastLines(|f|);
    }
  }

  lemma LastLines(n: nat)
    ensures ItemsPerLine("\n") == Twenties(n, n)
  {
    assert ItemsPerLine("") == [0] && "\n"[1..] == "";
  }

  /** The printed list: every line but the last two has twenty items. */
  lemma ListLines(f: seq<byte>, filesize: int)
    ensures ItemsPerLine(Text(f, 0, filesize)) == seq(|f| / 20, _ => 20) + [|f| % 20, 0]
  {
    TextLines(f, 0, filesize);
  }

  // The whole source

  /** What stands behind lit at the front of s. */
  function Expect(lit: string, s: string): Option<string> {
    if lit <= s then Some(s[|lit|..]) else None
  }

  /** What stands before the first c. */
  function Until(c: char, s: string): (r: string)
    ensures r <= s && c !in r
  {
    if s == "" || s[0] == c then "" else
    assert s == [s[0]] + s[1..];
    [s[0]] + Until(c, s[1..])
  }

  function ParseDigits(s: string): Option<nat> {
    if s == "" || !('0' <= s[|s| - 1] <= '9') then None else
    var d := s[|s| - 1] as int - '0' as int;
    if |s| == 1 then Some(d) else
    match ParseDigits(s[..|s| - 1]) case Some(n) => Some(10 * n + d) case None => None
  }

  function ParseDecimal(s: string): Option<int> {
    if s != "" && s[0] == '-' then
      match ParseDigits(s[1..]) case Some(n) => Some(-(n as int)) case None => None
    else
      match ParseDigits(s) case Some(n) => Some(n) case None => None
  }

  /** An array and the length given for it. */
  datatype Program = Program(name: string, bytes: seq<byte>, length: int)

  /** An array definition, up to its closing brace, and the definition of a length with the same name. */
  function ParseSource(s: string): Option<Program> {
    match Expect("const char ", s) case None => None case Some(s1) =>
    var name := Until('[', s1);
    match Expect(name + "[] = {", s1) case None => None case Some(s2) =>
    var body := Until('}', s2);
    match (Parse(body), Expect(body + "};\nint " + name + "_length=", s2))
    case (Some(bytes), Some(s3)) =>
      var digits := Until(';', s3);
      (match ParseDecimal(digits)
       case Some(length) => if s3 == digits + ";\n" then Some(Program(name, bytes, length)) else None
       case None => None)
    case _ => None
  }

  lemma ParseDigitsSnoc(s: string, d: nat)
    requires d < 10
    ensures ParseDigits(s + [Digit(d)]) ==
      if s == "" then Some(d) else match ParseDigits(s) case Some(n) => Some(10 * n + d) case None => None
  {
    hide Digit;
    DigitRoundTrip(d);
    assert (s + [Digit(d)])[..|s|] == s;
  }

  predicate AllDigits(s: string) {
    forall i :: 0 <= i < |s| ==> '0' <= s[i] <= '9'
  }

  lemma {:induction false} DigitsRoundTrip(n: nat)
    ensures ParseDigits(Digits(n)) == Some(n) && Digits(n) != "" && AllDigits(Digits(n))
  {
    hide ParseDigits, Digit;
    DigitRoundTrip(n % 10);
    ParseDigitsSnoc(if n < 10 then "" else Digits(n / 10), n % 10);
    if n >= 10 {
      DigitsRoundTrip(n / 10);
    }
  }

  /** A printed int reads back, and holds no semicolon. */
  lemma DecimalRoundTrip(i: int)
    ensures ParseDecimal(Decimal(i)) == Some(i) && ';' !in Decimal(i)
  {
    hide Digits, ParseDigits;
    DigitsRoundTrip(if i < 0 then -i else i);
    if i < 0 {
      assert Decimal(i)[1..] == Digits(-i);
    }
  }

  lemma ItemHasNoBrace(c: byte, n: nat, filesize: int)
    ensures '}' !in Hex(c) && '}' !in Separator(n, filesize)
  {
    hide Digit;
    DigitRoundTrip(c / 16);
    DigitRoundTrip(c % 16);
  }

  lemma {:induction false} TextHasNoBrace(f: seq<byte>, i: nat, filesize: int)
    requires i <= |f|
    ensures '}' !in Text(f, i, filesize)
    decreases |f| - i
  {
    hide Hex, Separator;
    if i < |f| {
      ItemHasNoBrace(f[i], i + 1, filesize);
      TextHasNoBrace(f, i + 1, filesize);
    }
  }

  lemma ExpectOf(lit: string, r: string)
    ensures Expect(lit, lit + r) == Some(r)
  {}

  lemma {:induction false} UntilOf(c: char, a: string, r: string)
    requires c !in a && r != "" && r[0] == c
    ensures Until(c, a + r) == a
  {
    if a == "" {
      assert a + r == r;
    } else {
      assert (a + r)[1..] == a[1..] + r;
      UntilOf(c, a[1..], r);
    }
  }

  /** The printed source, piece by piece as it is read. */
  lemma SourceForm(name: string, f: seq<byte>, filesize: int)
    ensures var s3 := Decimal(filesize) + ";\n";
      var body, trailer := "\n    " + Text(f, 0, filesize), "};\nint " + name + "_length=" + s3;
      && Source(name, f, filesize) == "const char " + (name + "[] = {" + (body + trailer))
      && name + "[] = {" + (body + trailer) == name + ("[] = {" + (body + trailer))
      && body + trailer == body + "};\nint " + name + "_length=" + s3
  {
    hide Text, Decimal;
  }

  /** Reading the printed source gives name, bytes and length, exactly if no comma is missing between the bytes. */
  lemma ParseSourceExact(name: string, f: seq<byte>, filesize: int)
    requires '[' !in name
    ensures ParseSource(Source(name, f, filesize)) ==
      if CommasFrom(f, 0, filesize) then Some(Program(name, f, filesize)) else None
  {
    hide Text, Parse, Decimal, ParseDecimal, CommasFrom, Until, Expect, Source;
    var body, s3 := "\n    " + Text(f, 0, filesize), Decimal(filesize) + ";\n";
    var trailer := "};\nint " + name + "_length=" + s3;
    var s2 := body + trailer;
    SourceForm(name, f, filesize);
    ExpectOf("const char ", name + "[] = {" + s2);
    UntilOf('[', name, "[] = {" + s2);
    ExpectOf(name + "[] = {", s2);
    TextHasNoBrace(f, 0, filesize);
    UntilOf('}', body, trailer);
    ExpectOf(body + "};\nint " + name + "_length=", s3);
    DecimalRoundTrip(filesize);
    UntilOf(';', Decimal(filesize), ";\n");
    ParseAfterBlanks("\n    ", Text(f, 0, filesize));
    ParseText(f, 0, filesize);
    assert f[0..] == f;
  }

  /** Two counts agree as int exactly when they are a multiple of 2^32 apart; the nearest pair is 2^32 apart. */
  lemma WrapOnce(size: nat)
    ensures Int32(size) == size <==> size < 0x8000_0000
    ensures size <= 0x1_0000_0000 ==> forall n :: 0 < n < size ==> Int32(n) != Int32(size)
    ensures Int32(size - 0x1_0000_0000) == Int32(size)
  {}

  /** Round trip: for a file whose size is kept in an int, reading the printed source gives name, bytes and length back
      exactly below 2^31 bytes. The array is still right up to 2^32 of them. */
  lemma PrintedRoundTrip(name: string, f: seq<byte>)
    requires '[' !in name
    ensures ParseSource(Source(name, f, Int32(|f|))) == Some(Program(name, f, |f|)) <==> |f| < 0x8000_0000
    ensures ParseSource(Source(name, f, Int32(|f|))) ==
      if |f| <= 0x1_0000_0000 then Some(Program(name, f, Int32(|f|))) else None
  {
    hide ParseSource, Source;
    ParseSourceExact(name, f, Int32(|f|));
    WrapOnce(|f|);
    hide Int32;
    if |f| > 0x1_0000_0000 {
      var n := |f| - 0x1_0000_0000;
      assert 0 < n < |f| && Int32(n) == Int32(|f|);
    }
  }
}
