/** The wasip2-to-wasip1 import rewriter: one line, and the scan over a whole file. */
module WatImports {

  // Strings, as the Go strings package sees them

  /** A character, or a byte that belongs to no valid UTF-8 encoding. */
  datatype Rune = Char(c: char) | Stray(b: bv8)

  type Runes = seq<Rune>

  function Chars(s: string): (t: Runes)
    ensures |t| == |s| && forall i :: 0 <= i < |s| ==> t[i] == Char(s[i])
  {
    seq(|s|, i requires 0 <= i < |s| => Char(s[i]))
  }

  const BLANK := Char(' ')
  const OPEN := Char('(')
  const CLOSE := Char(')')

  /** unicode.IsSpace. A stray byte counts as U+FFFD, which is none. */
  predicate IsSpace(r: Rune) {
    r.Char? &&
    (|| '\U{0009}' <= r.c <= '\U{000D}' || r.c == ' ' || r.c == '\U{0085}' || r.c == '\U{00A0}'
     || r.c == '\U{1680}' || '\U{2000}' <= r.c <= '\U{200A}' || r.c == '\U{2028}' || r.c == '\U{2029}'
     || r.c == '\U{202F}' || r.c == '\U{205F}' || r.c == '\U{3000}')
  }

  function TrimLeft(s: Runes): (r: Runes) {
    if s != [] && IsSpace(s[0]) then TrimLeft(s[1..]) else s
  }

  function TrimRight(s: Runes): (r: Runes) {
    if s != [] && IsSpace(s[|s| - 1]) then TrimRight(s[..|s| - 1]) else s
  }

  function TrimSpace(s: Runes): Runes {
    TrimRight(TrimLeft(s))
  }

  function TrimPrefix(s: Runes, c: Rune): Runes {
    if s != [] && s[0] == c then s[1..] else s
  }

  function TrimSuffix(s: Runes, c: Rune): Runes {
    if s != [] && s[|s| - 1] == c then s[..|s| - 1] else s
  }

  /** The length of the leading run of non-space characters. */
  function TokenEnd(s: Runes): (k: nat)
    ensures k <= |s|
    ensures forall i :: 0 <= i < k ==> !IsSpace(s[i])
    ensures k < |s| ==> IsSpace(s[k])
  {
    if s == [] || IsSpace(s[0]) then 0 else 1 + TokenEnd(s[1..])
  }

  /** strings.Fields. */
  function Fields(s: Runes): seq<Runes> {
    if s == [] then []
    else if IsSpace(s[0]) then Fields(s[1..])
    else [s[..TokenEnd(s)]] + Fields(s[TokenEnd(s)..])
  }

  /** strings.Join with a single space. */
  function Join(ts: seq<Runes>): Runes {
    if ts == [] then []
    else if |ts| == 1 then ts[0]
    else ts[0] + [BLANK] + Join(ts[1..])
  }

  // One line

  const IMPORT := Chars("import")
  const FULL_MODULE := Chars("\"example:api/testmodule\"")
  const MODULE := Chars("\"testmodule\"")

  /** The tokens of a line without one pair of enclosing parentheses. */
  function Tokens(line: Runes): seq<Runes> {
    Fields(TrimSuffix(TrimPrefix(TrimSpace(line), OPEN), CLOSE))
  }

  predicate Matches(line: Runes) {
    var tokens := Tokens(line);
    |tokens| >= 3 && tokens[0] == IMPORT && tokens[1] == FULL_MODULE
  }

  datatype Compat = Compat(funcName: Runes, updated: Runes, ok: bool)

  function ImportWasip1Compat(line: Runes): Compat {
    var tokens := Tokens(line);
    if Matches(line) then Compat(tokens[2], [OPEN] + Join(tokens[1 := MODULE]) + [CLOSE], true)
    else Compat([], [], false)
  }

  /** The line that the scan writes for a line it read. */
  function RewriteLine(line: Runes): Runes {
    var c := ImportWasip1Compat(line);
    if c.ok then c.updated else line
  }

  /** A token: not empty, and without spaces. */
  predicate IsToken(t: Runes) {
    t != [] && forall i :: 0 <= i < |t| ==> !IsSpace(t[i])
  }

  predicate AreTokens(ts: seq<Runes>) {
    forall i :: 0 <= i < |ts| ==> IsToken(ts[i])
  }

  lemma {:induction false} FieldsAreTokens(s: Runes)
    ensures AreTokens(Fields(s))
    decreases |s|
  {
    if s != [] {
      if IsSpace(s[0]) {
        FieldsAreTokens(s[1..]);
      } else {
        FieldsAreTokens(s[TokenEnd(s)..]);
      }
    }
  }

  lemma {:induction false} TokenEndOf(t: Runes, r: Runes)
    requires IsToken(t) && (r == [] || IsSpace(r[0]))
    ensures TokenEnd(t + r) == |t|
  {
    if |t| == 1 {
      assert (t + r)[1..] == r;
    } else {
      assert (t + r)[1..] == t[1..] + r;
      TokenEndOf(t[1..], r);
    }
  }

  lemma FieldsCons(t: Runes, r: Runes)
    requires IsToken(t) && (r == [] || IsSpace(r[0]))
    ensures Fields(t + r) == [t] + Fields(r)
  {
    TokenEndOf(t, r);
    assert (t + r)[..|t|] == t && (t + r)[|t|..] == r;
  }

  lemma FieldsBlank(s: Runes)
    ensures Fields([BLANK] + s) == Fields(s)
  {
    assert ([BLANK] + s)[1..] == s;
  }

  /** Splitting what was joined gives the tokens back. */
  lemma {:induction false} FieldsOfJoin(ts: seq<Runes>)
    requires AreTokens(ts)
    ensures Fields(Join(ts)) == ts
  {
    assert Fields([]) == [];
    hide Fields, IsToken;
    if |ts| == 1 {
      FieldsCons(ts[0], []);
      assert ts[0] + [] == ts[0];
    } else if ts != [] {
      var j := Join(ts[1..]);
      assert Join(ts) == ts[0] + ([BLANK] + j);
      FieldsCons(ts[0], [BLANK] + j);
      FieldsBlank(j);
      FieldsOfJoin(ts[1..]);
      assert ts == [ts[0]] + ts[1..];
    }
  }

  lemma TrimKeeps(s: Runes)
    requires s != [] && !IsSpace(s[0]) && !IsSpace(s[|s| - 1])
    ensures TrimSpace(s) == s
  {}

  /** A line built from tokens in parentheses has exactly these tokens. */
  lemma TokensOfWrapped(ts: seq<Runes>)
    requires AreTokens(ts)
    ensures Tokens([OPEN] + Join(ts) + [CLOSE]) == ts
  {
    var line := [OPEN] + Join(ts) + [CLOSE];
    TrimKeeps(line);
    assert line[1..] == Join(ts) + [CLOSE];
    assert (Join(ts) + [CLOSE])[..|Join(ts)|] == Join(ts);
    FieldsOfJoin(ts);
  }

  /** In a matching line only token 1 changes. */
  lemma OnlyModuleChanges(line: Runes)
    requires Matches(line)
    ensures Tokens(RewriteLine(line)) == Tokens(line)[1 := MODULE]
    ensures ImportWasip1Compat(line).funcName == Tokens(RewriteLine(line))[2]
  {
    FieldsAreTokens(TrimSuffix(TrimPrefix(TrimSpace(line), OPEN), CLOSE));
    TokensOfWrapped(Tokens(line)[1 := MODULE]);
  }

  /** A rewritten line does not match again. */
  lemma LineIdempotent(line: Runes)
    ensures RewriteLine(RewriteLine(line)) == RewriteLine(line)
  {
    if Matches(line) {
      OnlyModuleChanges(line);
    }
  }

  // Sizes and parentheses of a line

  /** What is added up over a line: occurrences of one character, or bytes in UTF-8. */
  datatype Measure = Occurrences(r: Rune) | Utf8Bytes {
    function Of(x: Rune): nat {
      match this
      case Occurrences(r) => if x == r then 1 else 0
      case Utf8Bytes =>
        if x.Stray? || x.c < '\U{0080}' then 1
        else if x.c < '\U{0800}' then 2
        else if x.c < '\U{10000}' then 3
        else 4
    }
  }

  function Sum(m: Measure, s: Runes): nat {
    if s == [] then 0 else m.Of(s[0]) + Sum(m, s[1..])
  }

  function Count(c: Rune, s: Runes): nat {
    Sum(Occurrences(c), s)
  }

  function ByteLength(s: Runes): nat {
    Sum(Utf8Bytes, s)
  }

  /** No space weighs less than the blank. */
  ghost predicate BlankIsLeast(m: Measure) {
    forall x :: IsSpace(x) ==> m.Of(BLANK) <= m.Of(x)
  }

  ghost predicate IgnoresSpaces(m: Measure) {
    forall x :: IsSpace(x) ==> m.Of(x) == 0
  }

  lemma {:induction false} SumConcat(m: Measure, a: Runes, b: Runes)
    ensures Sum(m, a + b) == Sum(m, a) + Sum(m, b)
  {
    if a == [] {
      assert a + b == b;
    } else {
      assert (a + b)[1..] == a[1..] + b;
      SumConcat(m, a[1..], b);
    }
  }

  lemma SumJoinCons(m: Measure, t: Runes, ts: seq<Runes>)
    ensures Sum(m, Join([t] + ts)) == Sum(m, t) + (if ts == [] then 0 else m.Of(BLANK)) + Sum(m, Join(ts))
  {
    if ts != [] {
      assert ([t] + ts)[1..] == ts;
      assert t + [BLANK] + Join(ts) == t + ([BLANK] + Join(ts));
      assert ([BLANK] + Join(ts))[1..] == Join(ts);
      SumConcat(m, t, [BLANK] + Join(ts));
    }
  }

  /** Splitting and joining adds nothing, and takes away only spaces. */
  lemma {:induction false} SumFields(m: Measure, s: Runes)
    requires BlankIsLeast(m)
    ensures Sum(m, Join(Fields(s))) <= Sum(m, s)
    ensures IgnoresSpaces(m) ==> Sum(m, Join(Fields(s))) == Sum(m, s)
    decreases |s|
  {
    if s != [] {
      if IsSpace(s[0]) {
        SumFields(m, s[1..]);
      } else {
        var k := TokenEnd(s);
        var token, tail := s[..k], s[k..];
        assert s == token + tail;
        SumConcat(m, token, tail);
        SumJoinCons(m, token, Fields(tail));
        if tail != [] {
          SumFields(m, tail[1..]);
        }
      }
    }
  }

  /** Replacing token 1 changes a sum by the difference of the two tokens. */
  lemma SumReplace(m: Measure, ts: seq<Runes>, t: Runes)
    requires |ts| >= 2
    ensures Sum(m, Join(ts[1 := t])) + Sum(m, ts[1]) == Sum(m, Join(ts)) + Sum(m, t)
  {
    assert ts == [ts[0]] + ([ts[1]] + ts[2..]);
    assert ts[1 := t] == [ts[0]] + ([t] + ts[2..]);
    SumJoinCons(m, ts[0], [ts[1]] + ts[2..]);
    SumJoinCons(m, ts[0], [t] + ts[2..]);
    SumJoinCons(m, ts[1], ts[2..]);
    SumJoinCons(m, t, ts[2..]);
  }

  lemma {:induction false} SumTrimLeft(m: Measure, s: Runes)
    ensures Sum(m, TrimLeft(s)) <= Sum(m, s)
    ensures IgnoresSpaces(m) ==> Sum(m, TrimLeft(s)) == Sum(m, s)
  {
    if s != [] && IsSpace(s[0]) {
      SumTrimLeft(m, s[1..]);
    }
  }

  lemma SumSnoc(m: Measure, s: Runes)
    requires s != []
    ensures Sum(m, s) == Sum(m, s[..|s| - 1]) + m.Of(s[|s| - 1])
  {
    hide Measure.Of;
    var last := s[|s| - 1];
    assert s == s[..|s| - 1] + [last] && [last][1..] == [];
    SumConcat(m, s[..|s| - 1], [last]);
  }

  lemma {:induction false} SumTrimRight(m: Measure, s: Runes)
    ensures Sum(m, TrimRight(s)) <= Sum(m, s)
    ensures IgnoresSpaces(m) ==> Sum(m, TrimRight(s)) == Sum(m, s)
  {
    hide Sum, Measure.Of, IsSpace;
    if s != [] && IsSpace(s[|s| - 1]) {
      SumSnoc(m, s);
      SumTrimRight(m, s[..|s| - 1]);
    }
  }

  predicate Opens(line: Runes) {
    var s := TrimSpace(line);
    s != [] && s[0] == OPEN
  }

  predicate Closes(line: Runes) {
    var s := TrimPrefix(TrimSpace(line), OPEN);
    s != [] && s[|s| - 1] == CLOSE
  }

  /** The joined tokens weigh at most as much as the line without its enclosing parentheses. */
  lemma SumStripped(m: Measure, line: Runes)
    requires BlankIsLeast(m)
    ensures var enclosing := (if Opens(line) then m.Of(OPEN) else 0) + (if Closes(line) then m.Of(CLOSE) else 0);
      && Sum(m, Join(Tokens(line))) + enclosing <= Sum(m, line)
      && (IgnoresSpaces(m) ==> Sum(m, Join(Tokens(line))) + enclosing == Sum(m, line))
  {
    var s := TrimSpace(line);
    var p := TrimPrefix(s, OPEN);
    var q := TrimSuffix(p, CLOSE);
    SumTrimLeft(m, line);
    SumTrimRight(m, TrimLeft(line));
    if Closes(line) {
      assert p == q + [p[|p| - 1]];
      SumConcat(m, q, [p[|p| - 1]]);
    }
    SumFields(m, q);
  }

  lemma RewrittenForm(line: Runes)
    requires Matches(line)
    ensures |Tokens(line)| >= 3 && Tokens(line)[1] == FULL_MODULE
    ensures RewriteLine(line) == [OPEN] + Join(Tokens(line)[1 := MODULE]) + [CLOSE]
  {
    hide Join, Tokens;
  }

  lemma SumWrapped(m: Measure, j: Runes)
    ensures Sum(m, [OPEN] + j + [CLOSE]) == m.Of(OPEN) + Sum(m, j) + m.Of(CLOSE)
  {
    assert [OPEN] + j + [CLOSE] == [OPEN] + (j + [CLOSE]);
    assert ([OPEN] + (j + [CLOSE]))[1..] == j + [CLOSE];
    SumConcat(m, j, [CLOSE]);
  }

  /** A rewritten line weighs its joined tokens, with the module exchanged, and two parentheses. */
  lemma SumRewritten(m: Measure, line: Runes)
    requires Matches(line)
    ensures Sum(m, RewriteLine(line)) + Sum(m, FULL_MODULE)
         == m.Of(OPEN) + Sum(m, Join(Tokens(line))) + Sum(m, MODULE) + m.Of(CLOSE)
  {
    hide Sum, Join, Tokens, RewriteLine, Matches;
    var ts := Tokens(line);
    RewrittenForm(line);
    SumWrapped(m, Join(ts[1 := MODULE]));
    SumReplace(m, ts, MODULE);
  }

  /** A rewritten line has as many parentheses as before, one more on each side where the line was not wrapped. */
  lemma ParenthesesKept(line: Runes)
    requires Matches(line)
    ensures Count(OPEN, RewriteLine(line)) == Count(OPEN, line) + (if Opens(line) then 0 else 1)
    ensures Count(CLOSE, RewriteLine(line)) == Count(CLOSE, line) + (if Closes(line) then 0 else 1)
  {
    hide Sum, Join, Tokens, Opens, Closes, RewriteLine, Matches;
    forall c | c == OPEN || c == CLOSE ensures Sum(Occurrences(c), FULL_MODULE) == Sum(Occurrences(c), MODULE) == 0 {
      SumAbsent(c, FULL_MODULE);
      SumAbsent(c, MODULE);
    }
    SumRewritten(Occurrences(OPEN), line);
    SumRewritten(Occurrences(CLOSE), line);
    SumStripped(Occurrences(OPEN), line);
    SumStripped(Occurrences(CLOSE), line);
  }

  lemma {:induction false} SumAbsent(c: Rune, s: Runes)
    requires forall i :: 0 <= i < |s| ==> s[i] != c
    ensures Sum(Occurrences(c), s) == 0
  {
    if s != [] {
      SumAbsent(c, s[1..]);
    }
  }

  lemma {:induction false} AsciiSum(s: Runes)
    requires forall i :: 0 <= i < |s| ==> s[i].Char? && s[i].c < '\U{0080}'
    ensures Sum(Utf8Bytes, s) == |s|
  {
    if s != [] {
      AsciiSum(s[1..]);
    }
  }

  lemma ByteWeights()
    ensures BlankIsLeast(Utf8Bytes) && Utf8Bytes.Of(OPEN) == Utf8Bytes.Of(CLOSE) == 1
  {}

  lemma ModuleLengths()
    ensures Sum(Utf8Bytes, FULL_MODULE) == 24 && Sum(Utf8Bytes, MODULE) == 12
  {
    hide Sum;
    assert |FULL_MODULE| == 24 && |MODULE| == 12;
    AsciiSum(FULL_MODULE);
    AsciiSum(MODULE);
  }

  /** Rewriting never makes a line longer. */
  lemma RewriteShrinks(line: Runes)
    ensures ByteLength(RewriteLine(line)) <= ByteLength(line)
  {
    if Matches(line) {
      ByteWeights();
      ModuleLengths();
      hide Sum, Join, Tokens, Opens, Closes, RewriteLine, Matches, BlankIsLeast, IgnoresSpaces, Measure.Of;
      SumRewritten(Utf8Bytes, line);
      SumStripped(Utf8Bytes, line);
    }
  }
}
