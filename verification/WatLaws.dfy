/** Which lines are rewritten, and into what, said with plain texts and the spaces between the words. */
module WatLaws {
  import opened WatImports
  import opened WatFile

  // Words of a text

  predicate AllSpace(s: Runes) {
    forall i :: 0 <= i < |s| ==> IsSpace(s[i])
  }

  /** The characters that are spaces. */
  lemma SpaceTable(c: char)
    ensures IsSpace(Char(c)) <==>
      c in "\U{9}\U{A}\U{B}\U{C}\U{D} \U{85}\U{A0}\U{1680}\U{2000}\U{2001}\U{2002}\U{2003}\U{2004}\U{2005}" +
           "\U{2006}\U{2007}\U{2008}\U{2009}\U{200A}\U{2028}\U{2029}\U{202F}\U{205F}\U{3000}"
  {}

  /** Behind spaces the first word of s is t, from i to j. */
  predicate WordAt(s: Runes, t: Runes, i: nat, j: nat) {
    i <= j <= |s| && AllSpace(s[..i]) && s[i..j] == t && IsToken(t) && (j < |s| ==> IsSpace(s[j]))
  }

  /** s consists of the words ts, with spaces between them and possibly around them. */
  ghost predicate Splits(s: Runes, ts: seq<Runes>)
    decreases |ts|
  {
    if ts == [] then AllSpace(s) else 
    exists i, j :: 0 <= i <= j <= |s| && WordAt(s, ts[0], i, j) && Splits(s[j..], ts[1..])
  }

  lemma {:induction false} FieldsAfterSpace(x: Runes, s: Runes)
    requires AllSpace(x)
    ensures Fields(x + s) == Fields(s)
  {
    if x == [] {
      assert x + s == s;
    } else {
      assert (x + s)[1..] == x[1..] + s;
      FieldsAfterSpace(x[1..], s);
    }
  }

  lemma FirstField(s: Runes, t: Runes, i: nat, j: nat)
    requires WordAt(s, t, i, j)
    ensures Fields(s) == [t] + Fields(s[j..])
  {
    hide IsToken, Fields;
    assert s == s[..i] + (t + s[j..]);
    FieldsAfterSpace(s[..i], t + s[j..]);
    FieldsCons(t, s[j..]);
  }

  /** Splitting finds these words. */
  lemma {:induction false} SplitIsFields(s: Runes, ts: seq<Runes>)
    requires Splits(s, ts)
    ensures Fields(s) == ts
    decreases |ts|
  {
    hide WordAt;
    if ts == [] {
      FieldsAfterSpace(s, []);
      assert s + [] == s;
    } else {
      var i, j :| 0 <= i <= j <= |s| && WordAt(s, ts[0], i, j) && Splits(s[j..], ts[1..]);
      FirstField(s, ts[0], i, j);
      SplitIsFields(s[j..], ts[1..]);
      assert ts == [ts[0]] + ts[1..];
    }
  }

  lemma WordLater(s: Runes, t: Runes, i: nat, j: nat)
    requires s != [] && IsSpace(s[0]) && WordAt(s[1..], t, i, j)
    ensures WordAt(s, t, i + 1, j + 1) && s[1..][j..] == s[j + 1..]
  {
    hide IsToken, IsSpace;
    assert s[..i + 1] == [s[0]] + s[1..][..i];
    assert s[i + 1..j + 1] == s[1..][i..j];
  }

  /** And a text always splits into them. */
  lemma {:induction false} FieldsSplit(s: Runes)
    ensures Splits(s, Fields(s))
    decreases |s|
  {
    hide WordAt, IsSpace;
    if s != [] {
      if IsSpace(s[0]) {
        var ts := Fields(s[1..]);
        FieldsSplit(s[1..]);
        if ts != [] {
          var i, j :| 0 <= i <= j < |s| && WordAt(s[1..], ts[0], i, j) && Splits(s[1..][j..], ts[1..]);
          WordLater(s, ts[0], i, j);
        }
      } else {
        var k := TokenEnd(s);
        FieldsSplit(s[k..]);
        WordFirst(s);
        assert Fields(s)[1..] == Fields(s[k..]);
      }
    }
  }

  lemma WordFirst(s: Runes)
    requires s != [] && !IsSpace(s[0])
    ensures WordAt(s, s[..TokenEnd(s)], 0, TokenEnd(s))
  {
    hide IsSpace;
    assert s[0..TokenEnd(s)] == s[..TokenEnd(s)] && s[..0] == [];
  }

  // The shape of a line

  /** A line: spaces around a text that may have a parenthesis on either side. */
  datatype Shape = Shape(before: Runes, open: bool, inner: Runes, close: bool, after: Runes) {
    function Core(): Runes {
      Chars(if open then "(" else "") + inner + Chars(if close then ")" else "")
    }

    function Line(): Runes {
      before + Core() + after
    }

    /** The spaces are outermost, and a parenthesis is left in the text only behind one that was taken off. */
    predicate Fits() {
      && AllSpace(before) && AllSpace(after)
      && (Core() != [] ==> !IsSpace(Core()[0]) && !IsSpace(Core()[|Core()| - 1]))
      && (!open && Core() != [] ==> Core()[0] != Char('('))
      && (!close && inner != [] ==> inner[|inner| - 1] != Char(')'))
    }
  }

  lemma {:induction false} TrimLeftSpaces(x: Runes, s: Runes)
    requires AllSpace(x)
    ensures TrimLeft(x + s) == TrimLeft(s)
  {
    if x == [] {
      assert x + s == s;
    } else {
      assert (x + s)[1..] == x[1..] + s;
      TrimLeftSpaces(x[1..], s);
    }
  }

  lemma {:induction false} TrimRightSpaces(s: Runes, y: Runes)
    requires AllSpace(y)
    ensures TrimRight(s + y) == TrimRight(s)
  {
    if y == [] {
      assert s + y == s;
    } else {
      assert (s + y)[..|s + y| - 1] == s + y[..|y| - 1];
      TrimRightSpaces(s, y[..|y| - 1]);
    }
  }

  /** Spaces around a line do not matter. */
  lemma SpacesAround(x: Runes, s: Runes, y: Runes)
    requires AllSpace(x) && AllSpace(y)
    ensures TrimSpace(x + s + y) == TrimSpace(s) && Tokens(x + s + y) == Tokens(s)
  {
    hide IsSpace;
    assert x + s + y == x + (s + y);
    TrimLeftSpaces(x, s + y);
    if AllSpace(s) {
      AllTrimmed(s + y);
      AllTrimmed(s);
    } else {
      TrimLeftStops(s, y);
      TrimRightSpaces(TrimLeft(s), y);
    }
  }

  lemma AllTrimmed(s: Runes)
    requires AllSpace(s)
    ensures TrimLeft(s) == []
  {
    TrimLeftSpaces(s, []);
    assert s + [] == s;
  }

  lemma {:induction false} TrimLeftStops(s: Runes, y: Runes)
    requires !AllSpace(s)
    ensures TrimLeft(s + y) == TrimLeft(s) + y
  {
    assert (s + y)[0] == s[0];
    if IsSpace(s[0]) {
      assert (s + y)[1..] == s[1..] + y;
      TrimLeftStops(s[1..], y);
    }
  }

  lemma ShapeTokens(l: Shape)
    requires l.Fits()
    ensures Tokens(l.Line()) == Fields(l.inner)
  {
    hide IsSpace, Fields;
    var core := l.Core();
    SpacesAround(l.before, core, l.after);
    assert TrimSpace(core) == core;
    var p := l.inner + Chars(if l.close then ")" else "");
    assert core == Chars(if l.open then "(" else "") + p;
    assert TrimPrefix(core, OPEN) == p;
    assert TrimSuffix(p, CLOSE) == l.inner;
  }

  lemma Unwrap(core: Runes) returns (l: Shape)
    ensures l.before == l.after == [] && l.Core() == core
    ensures !l.open && core != [] ==> core[0] != Char('(')
    ensures !l.close && l.inner != [] ==> l.inner[|l.inner| - 1] != Char(')')
  {
    assert Chars("(") == [OPEN] && Chars(")") == [CLOSE] && Chars("") == [];
    hide Chars;
    var open := core != [] && core[0] == OPEN;
    var p := if open then core[1..] else core;
    var close := p != [] && p[|p| - 1] == CLOSE;
    var inner := if close then p[..|p| - 1] else p;
    assert p == inner + Chars(if close then ")" else "");
    assert core == Chars(if open then "(" else "") + p;
    l := Shape([], open, inner, close, []);
  }

  /** Every line has such a shape. */
  lemma ShapeOf(line: Runes) returns (l: Shape)
    ensures l.Fits() && l.Line() == line
  {
    hide IsSpace, AllSpace;
    var i := LeftSpaces(line);
    var t := line[i..];
    var j := RightSpaces(t);
    var core := t[..j];
    assert line == line[..i] + core + t[j..];
    var u := Unwrap(core);
    l := u.(before := line[..i], after := t[j..]);
    assert l.Core() == u.Core();
  }

  /** How many spaces there are in front. */
  lemma {:induction false} LeftSpaces(s: Runes) returns (i: nat)
    ensures i <= |s| && AllSpace(s[..i]) && (i < |s| ==> !IsSpace(s[i]))
  {
    i := 0;
    if s != [] && IsSpace(s[0]) {
      var k := LeftSpaces(s[1..]);
      i := k + 1;
      assert s[..i] == [s[0]] + s[1..][..k];
    }
  }

  /** Where the spaces at the end begin, unless there are only spaces. */
  lemma {:induction false} RightSpaces(s: Runes) returns (j: nat)
    requires s != [] ==> !IsSpace(s[0])
    ensures j <= |s| && AllSpace(s[j..]) && (s != [] ==> j > 0) && (j > 0 ==> !IsSpace(s[j - 1]))
  {
    j := |s|;
    if s != [] && IsSpace(s[j - 1]) {
      j := RightSpaces(s[..|s| - 1]);
      assert s[j..] == s[..|s| - 1][j..] + [s[|s| - 1]];
    }
  }

  // Which lines are rewritten

  /** The words of an import from the module that is to be renamed. */
  predicate Wanted(ts: seq<Runes>) {
    |ts| >= 3 && ts[0] == Chars("import") && ts[1] == Chars("\"example:api/testmodule\"")
  }

  /** The words behind a blank each. */
  function Behind(ts: seq<Runes>): Runes {
    if ts == [] then [] else Chars(" ") + ts[0] + Behind(ts[1..])
  }

  lemma CharsConcat(a: string, b: string)
    ensures Chars(a + b) == Chars(a) + Chars(b)
  {}

  lemma {:induction false} JoinBehind(t: Runes, ts: seq<Runes>)
    ensures Join([t] + ts) == t + Behind(ts)
    decreases |ts|
  {
    assert ([t] + ts)[1..] == ts;
    if ts != [] {
      assert ts == [ts[0]] + ts[1..];
      JoinBehind(ts[0], ts[1..]);
      assert Chars(" ") == [BLANK];
      assert t + [BLANK] + Join(ts) == t + (Chars(" ") + ts[0] + Behind(ts[1..]));
    }
  }

  lemma ImportPrefix(m: string)
    ensures Chars("(") + (Chars("import") + (Chars(" ") + Chars(m))) == Chars("(import " + m)
  {
    CharsConcat("(", "import " + m);
    CharsConcat("import", " " + m);
    CharsConcat(" ", m);
    assert "(" + ("import " + m) == "(import " + m && "import" + (" " + m) == "import " + m;
  }

  /** An import with its words joined. */
  lemma ImportText(m: string, ts: seq<Runes>)
    ensures Chars("(") + Join([Chars("import"), Chars(m)] + ts) == Chars("(import " + m) + Behind(ts)
  {
    hide Chars;
    var i, w, rest := Chars("import"), Chars(m), Behind(ts);
    assert [i, w] + ts == [i] + ([w] + ts) && ([w] + ts)[1..] == ts;
    JoinBehind(i, [w] + ts);
    ImportPrefix(m);
    assert Behind([w] + ts) == Chars(" ") + w + rest;
    assert Chars("(") + (i + (Chars(" ") + w + rest)) == Chars("(") + (i + (Chars(" ") + w)) + rest;
  }

  lemma RenamedText(ts: seq<Runes>)
    requires Wanted(ts)
    ensures [OPEN] + Join(ts[1 := MODULE]) + [CLOSE]
         == Chars("(import \"testmodule\"") + Behind(ts[2..]) + Chars(")")
  {
    ImportText("\"testmodule\"", ts[2..]);
    assert ts[1 := MODULE] == [Chars("import"), MODULE] + ts[2..];
    assert "(import " + "\"testmodule\"" == "(import \"testmodule\"";
    assert [OPEN] == Chars("(") && [CLOSE] == Chars(")");
  }

  /** The rewriter is exact: a line is rewritten if and only if its words are those of such an import, whatever spaces
      are between and around them and with or without its parentheses. It then is the import of the new module, with the
      other words as they were, and the third word is reported. */
  lemma RewriteExact(l: Shape, ts: seq<Runes>)
    requires l.Fits() && Splits(l.inner, ts)
    ensures ImportWasip1Compat(l.Line()) ==
      if Wanted(ts) then Compat(ts[2], Chars("(import \"testmodule\"") + Behind(ts[2..]) + Chars(")"), true)
      else Compat([], [], false)
    ensures RewriteLine(l.Line()) ==
      if Wanted(ts) then Chars("(import \"testmodule\"") + Behind(ts[2..]) + Chars(")") else l.Line()
  {
    hide Fields, Join, Behind, Splits, Shape.Fits, Shape.Line, Chars;
    ShapeTokens(l);
    SplitIsFields(l.inner, ts);
    if Wanted(ts) {
      RenamedText(ts);
    }
  }

  lemma WrappedFits(x: Runes, inner: Runes, y: Runes)
    requires AllSpace(x) && AllSpace(y)
    ensures Shape(x, true, inner, true, y).Fits()
    ensures Shape(x, true, inner, true, y).Line() == x + (Chars("(") + inner + Chars(")")) + y
  {
    assert Chars("(")[0] == OPEN && Chars(")")[0] == CLOSE;
  }

  lemma JoinSplits(ts: seq<Runes>)
    requires AreTokens(ts)
    ensures Splits(Join(ts), ts)
  {
    FieldsOfJoin(ts);
    FieldsSplit(Join(ts));
  }

  /** In particular for an import in parentheses with any indentation. */
  lemma ImportRenamed(x: Runes, ts: seq<Runes>, y: Runes)
    requires AllSpace(x) && AllSpace(y) && ts != [] && AreTokens(ts)
    ensures RewriteLine(x + (Chars("(import \"example:api/testmodule\"") + Behind(ts) + Chars(")")) + y)
         == Chars("(import \"testmodule\"") + Behind(ts) + Chars(")")
  {
    hide IsSpace, IsToken, AllSpace, Chars, Join, Splits, Behind, RewriteLine, Shape.Fits, Shape.Line;
    var m := "\"example:api/testmodule\"";
    var words := [Chars("import"), Chars(m)] + ts;
    ImportText(m, ts);
    assert "(import " + m == "(import \"example:api/testmodule\"";
    ImportWords(ts);
    JoinSplits(words);
    WrappedFits(x, Join(words), y);
    RewriteExact(Shape(x, true, Join(words), true, y), words);
  }

  lemma ImportWords(ts: seq<Runes>)
    requires ts != [] && AreTokens(ts)
    ensures var words := [Chars("import"), Chars("\"example:api/testmodule\"")] + ts;
      AreTokens(words) && Wanted(words) && words[2..] == ts
  {
    ImportTokens();
    hide IsToken, Chars;
  }

  lemma ImportTokens()
    ensures IsToken(Chars("import")) && IsToken(Chars("\"example:api/testmodule\""))
  {}

  // Files

  /** A line of a file: its text, perhaps a carriage return, and a newline unless the file ends there. */
  datatype FileLine = FileLine(text: Runes, cr: bool, newline: bool) {
    /** What the scanner takes for the line. */
    function Raw(): Runes {
      text + Chars(if cr then "\r" else "")
    }

    function Whole(): Runes {
      Raw() + Chars(if newline then "\n" else "")
    }

    /** Only the last line may lack the newline, and a carriage return at the end is the one that counts. */
    predicate WellFormed(last: bool) {
      && Char('\n') !in text
      && (newline || (last && Whole() != []))
      && (!cr && text != [] ==> text[|text| - 1] != Char('\r'))
    }
  }

  predicate AreLines(ls: seq<FileLine>) {
    forall i :: 0 <= i < |ls| ==> ls[i].WellFormed(i == |ls| - 1)
  }

  function Content(ls: seq<FileLine>): Runes {
    if ls == [] then [] else ls[0].Whole() + Content(ls[1..])
  }

  /** The lines rewritten, each with a newline. */
  function Written(ls: seq<FileLine>): Runes {
    if ls == [] then [] else RewriteLine(ls[0].text) + Chars("\n") + Written(ls[1..])
  }

  function Raws(ls: seq<FileLine>): seq<Runes> {
    if ls == [] then [] else [ls[0].Raw()] + Raws(ls[1..])
  }

  lemma OnlyLine(l: Runes)
    requires l != [] && NEWLINE !in l
    ensures RawLines(l) == [l]
  {
    LineEndAlone(l);
    assert l[..|l|] == l && AfterLine(l) == [] && RawLines([]) == [];
  }

  lemma {:induction false} LineEndAlone(l: Runes)
    requires NEWLINE !in l
    ensures LineEnd(l) == |l|
  {
    if l != [] {
      LineEndAlone(l[1..]);
    }
  }

  lemma RawEnd(l: FileLine, last: bool)
    requires l.WellFormed(last)
    ensures NEWLINE !in l.Raw() && DropCR(l.Raw()) == l.text
    ensures l.Whole() == l.Raw() + if l.newline then [NEWLINE] else []
    ensures l.Whole() != []
  {
    assert Chars("\n") == [NEWLINE] && Chars("\r") == [RETURN] && Chars("") == [];
    if l.cr {
      assert (l.text + [RETURN])[..|l.text|] == l.text;
    } else {
      assert l.text + [] == l.text;
    }
  }

  lemma {:induction false} RawLinesOf(ls: seq<FileLine>)
    requires AreLines(ls)
    ensures RawLines(Content(ls)) == Raws(ls)
  {
    assert RawLines([]) == [];
    hide RawLines, FileLine.WellFormed;
    if ls != [] {
      assert ls[0].WellFormed(|ls| == 1);
      RawEnd(ls[0], |ls| == 1);
      LineBefore(ls);
      RawLinesOf(ls[1..]);
      if ls[0].newline {
        FirstLine(ls[0].Raw(), Content(ls[1..]));
      } else {
        OnlyLine(ls[0].Raw());
        assert ls[1..] == [] && ls[0].Raw() + [] + [] == ls[0].Raw();
      }
    }
  }

  lemma LineBefore(ls: seq<FileLine>)
    requires AreLines(ls) && ls != []
    ensures AreLines(ls[1..]) && (|ls| > 1 ==> ls[0].newline)
    ensures !ls[0].newline ==> ls == [ls[0]]
  {
    hide FileLine.Whole;
    assert ls[0].WellFormed(|ls| == 1);
    forall i | 0 <= i < |ls| - 1 ensures ls[1..][i].WellFormed(i == |ls| - 2) {
      assert ls[i + 1].WellFormed(i + 1 == |ls| - 1);
    }
  }

  lemma {:induction false} OutputsOf(ls: seq<FileLine>)
    requires forall i :: 0 <= i < |ls| ==> DropCR(ls[i].Raw()) == ls[i].text
    ensures Unlines(Outputs(Raws(ls))) == Written(ls)
  {
    hide RewriteLine, DropCR;
    if ls != [] {
      OutputsOf(ls[1..]);
      var os := Outputs(Raws(ls));
      assert os[1..] == Outputs(Raws(ls[1..])) && os[0] == RewriteLine(ls[0].text);
      assert Chars("\n") == [NEWLINE];
    }
  }

  lemma TextsUpTo(ls: seq<FileLine>, k: nat)
    requires AreLines(ls) && k <= |ls|
    ensures forall i :: 0 <= i < |ls[..k]| ==> DropCR(ls[..k][i].Raw()) == ls[..k][i].text
  {
    hide FileLine.Raw, FileLine.WellFormed, DropCR;
    forall i | 0 <= i < |ls[..k]| ensures DropCR(ls[..k][i].Raw()) == ls[..k][i].text {
      assert ls[i].WellFormed(i == |ls| - 1);
      RawEnd(ls[i], i == |ls| - 1);
    }
  }

  /** A file is rewritten line by line, and every line then ends in a plain newline, whatever it ended in before. */
  lemma FileRewritten(ls: seq<FileLine>)
    requires AreLines(ls)
    ensures RawLines(Content(ls)) == Raws(ls) && Rewrite(Content(ls)) == Written(ls)
  {
    RawLinesOf(ls);
    TextsUpTo(ls, |ls|);
    assert ls[..|ls|] == ls;
    OutputsOf(ls);
  }

  lemma {:induction false} RawsAt(ls: seq<FileLine>, k: nat)
    requires k <= |ls|
    ensures |Raws(ls)| == |ls| && Raws(ls[..k]) == Raws(ls)[..k]
    ensures forall i :: 0 <= i < |ls| ==> Raws(ls)[i] == ls[i].Raw()
  {
    hide FileLine.Raw;
    if ls != [] {
      RawsAt(ls[1..], if k == 0 then 0 else k - 1);
      if k > 0 {
        assert ls[..k][1..] == ls[1..][..k - 1];
      }
    }
  }

  lemma {:induction false} ScannedUpTo(rs: seq<Runes>, k: nat)
    requires k <= |rs| && AllFit(rs[..k]) && (k < |rs| ==> !Fits(rs[k]))
    ensures Scanned(rs) == rs[..k]
  {
    hide Fits;
    if k > 0 {
      assert rs[..k][0] == rs[0];
      var before := rs[1..][..k - 1];
      forall i | 0 <= i < |before| ensures Fits(before[i]) {
        assert rs[..k][i + 1] == before[i];
      }
      ScannedUpTo(rs[1..], k - 1);
      assert [rs[0]] + rs[1..][..k - 1] == rs[..k];
    }
  }

  lemma FitUpTo(ls: seq<FileLine>, k: nat)
    requires k <= |ls|
    requires forall i :: 0 <= i < k ==> ByteLength(ls[i].Raw()) < 31457280
    requires k < |ls| ==> ByteLength(ls[k].Raw()) >= 31457280
    ensures |Raws(ls)| == |ls| && AllFit(Raws(ls)[..k]) && (k < |ls| ==> !Fits(Raws(ls)[k]))
    ensures AllFit(Raws(ls)) <==> k == |ls|
  {
    hide ByteLength, FileLine.Raw, Raws;
    RawsAt(ls, k);
    assert k == |ls| ==> Raws(ls)[..k] == Raws(ls);
  }

  /** And so are the lines before the first that is too long for the scanner, of thirty MiB with its carriage return. */
  lemma ScannedAreWritten(ls: seq<FileLine>, k: nat)
    requires AreLines(ls) && k <= |ls|
    requires forall i :: 0 <= i < k ==> ByteLength(ls[i].Raw()) < 31457280
    requires k < |ls| ==> ByteLength(ls[k].Raw()) >= 31457280
    ensures Unlines(Outputs(Scanned(RawLines(Content(ls))))) == Written(ls[..k])
    ensures AllFit(RawLines(Content(ls))) <==> k == |ls|
  {
    hide ByteLength, Fits, FileLine.Raw, FileLine.WellFormed, DropCR;
    hide Outputs, Unlines, Written, RawLines, Raws, Content;
    RawLinesOf(ls);
    RawsAt(ls, k);
    FitUpTo(ls, k);
    ScannedUpTo(Raws(ls), k);
    TextsUpTo(ls, k);
    OutputsOf(ls[..k]);
  }

  /** Every file consists of such lines. */
  lemma {:induction false} FileLines(s: Runes) returns (ls: seq<FileLine>)
    ensures AreLines(ls) && Content(ls) == s
    decreases |s|
  {
    ls := [];
    if s != [] {
      var l := FirstFileLine(s);
      var rest := FileLines(AfterLine(s));
      ls := [l] + rest;
      assert ls[1..] == rest;
      forall i | 0 <= i < |ls| ensures ls[i].WellFormed(i == |ls| - 1) {
        assert i > 0 ==> rest[i - 1].WellFormed(i - 1 == |rest| - 1);
      }
    }
  }

  lemma FirstFileLine(s: Runes) returns (l: FileLine)
    requires s != []
    ensures l.WellFormed(AfterLine(s) == []) && s == l.Whole() + AfterLine(s)
    ensures l.WellFormed(false) || AfterLine(s) == []
  {
    var k := LineEnd(s);
    var raw := s[..k];
    var text := DropCR(raw);
    assert Chars("\n") == [NEWLINE] && Chars("\r") == [RETURN] && Chars("") == [];
    assert raw == text || raw == text + [RETURN];
    l := FileLine(text, raw != text, k < |s|);
    assert l.Raw() == raw;
  }

  /** A line of ASCII characters fits the scanner up to 31457279 of them. */
  lemma LongestLine(l: Runes)
    requires forall i :: 0 <= i < |l| ==> l[i].Char? && l[i].c < '\U{0080}'
    ensures Fits(l) <==> |l| < 31457280
  {
    AsciiSum(l);
  }
}
