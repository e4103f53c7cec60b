/** The scan over a whole file: bufio lines in, rewritten lines out. */
module WatFile {
  import opened WatImports

  const NEWLINE := Char('\n')
  const RETURN := Char('\r')

  /** The index of the first newline, or the length. */
  function LineEnd(s: Runes): (k: nat)
    ensures k <= |s|
    ensures NEWLINE !in s[..k]
    ensures k < |s| ==> s[k] == NEWLINE
  {
    if s == [] || s[0] == NEWLINE then 0 else
    var k := LineEnd(s[1..]);
    assert s[..k + 1] == [s[0]] + s[1..][..k];
    k + 1
  }

  /** What is left after the first line and its newline. */
  function AfterLine(s: Runes): (r: Runes)
    requires s != []
    ensures |r| < |s|
  {
    if LineEnd(s) < |s| then s[LineEnd(s) + 1..] else []
  }

  /** The lines between newlines; a last line without a newline counts, an empty rest does not. */
  function RawLines(s: Runes): seq<Runes>
    decreases |s|
  {
    if s == [] then [] else [s[..LineEnd(s)]] + RawLines(AfterLine(s))
  }

  /** bufio.ScanLines drops one carriage return at the end of a line. */
  function DropCR(l: Runes): Runes {
    if l != [] && l[|l| - 1] == RETURN then l[..|l| - 1] else l
  }

  /** The line written for a line between newlines. */
  function Output(l: Runes): Runes {
    RewriteLine(DropCR(l))
  }

  function Outputs(ls: seq<Runes>): (r: seq<Runes>)
    ensures |r| == |ls|
    ensures forall i :: 0 <= i < |ls| ==> r[i] == Output(ls[i])
  {
    seq(|ls|, i requires 0 <= i < |ls| => Output(ls[i]))
  }

  function Unlines(ls: seq<Runes>): Runes {
    if ls == [] then [] else ls[0] + [NEWLINE] + Unlines(ls[1..])
  }

  function Rewrite(s: Runes): Runes {
    Unlines(Outputs(RawLines(s)))
  }

  lemma Regroup(a: Runes, b: Runes, c: Runes)
    ensures a + (b + [NEWLINE] + c) == a + b + [NEWLINE] + c
  {}

  const MAX_LINE := 30 * 1024 * 1024

  /** The scanner's buffer holds the line and one byte more. */
  predicate Fits(l: Runes) {
    ByteLength(l) < MAX_LINE
  }

  predicate AllFit(ls: seq<Runes>) {
    forall i :: 0 <= i < |ls| ==> Fits(ls[i])
  }

  /** The lines before the first that does not fit. */
  function Scanned(ls: seq<Runes>): (r: seq<Runes>)
    ensures r <= ls && AllFit(r)
    ensures AllFit(ls) <==> r == ls
  {
    if ls == [] || !Fits(ls[0]) then [] else
    var r := Scanned(ls[1..]);
    assert ls == [ls[0]] + ls[1..];
    assert r == ls[1..] ==> AllFit(ls);
    [ls[0]] + r
  }

  lemma ScannedCons(l: Runes, ls: seq<Runes>)
    requires Fits(l)
    ensures Unlines(Outputs(Scanned([l] + ls))) == Output(l) + [NEWLINE] + Unlines(Outputs(Scanned(ls)))
    ensures AllFit([l] + ls) <==> AllFit(ls)
  {
    hide Output, Fits;
    assert ([l] + ls)[1..] == ls;
    var r := Outputs(Scanned([l] + ls));
    assert r[0] == Output(l) && r[1..] == Outputs(Scanned(ls));
  }

  lemma ScannedStep(s: Runes)
    requires s != [] && Fits(s[..LineEnd(s)])
    ensures Unlines(Outputs(Scanned(RawLines(s)))) ==
      Output(s[..LineEnd(s)]) + [NEWLINE] + Unlines(Outputs(Scanned(RawLines(AfterLine(s)))))
    ensures AllFit(RawLines(s)) <==> AllFit(RawLines(AfterLine(s)))
  {
    hide Output, Fits, Scanned, Outputs, Unlines, LineEnd, AfterLine, AllFit;
    ScannedCons(s[..LineEnd(s)], RawLines(AfterLine(s)));
  }

  /** The scanning loop of Main, over what can be read of a file before its end or a read error. It ends with an error
      at the first line that does not fit, with everything before written; a read error is reported at the end. */
  method RewriteFile(content: Runes, readFails: bool) returns (out: Runes, ok: bool)
    ensures ok <==> AllFit(RawLines(content)) && !readFails
    ensures out == Unlines(Outputs(Scanned(RawLines(content))))
    ensures AllFit(RawLines(content)) ==> out == Rewrite(content)
  {
    assert RawLines([]) == [] && Unlines(Outputs(Scanned([]))) == [];
    hide ImportWasip1Compat, LineEnd, Fits, RawLines, Unlines;
    out := [];
    var rest := content;
    while rest != []
      invariant Unlines(Outputs(Scanned(RawLines(content)))) == out + Unlines(Outputs(Scanned(RawLines(rest))))
      invariant AllFit(RawLines(content)) <==> AllFit(RawLines(rest))
      decreases |rest|
    {
      if !Fits(rest[..LineEnd(rest)]) {
        NothingScanned(rest);
        return out, false;
      }
      ScannedStep(rest);
      var t := DropCR(rest[..LineEnd(rest)]);
      var c := ImportWasip1Compat(t);
      var line := if c.ok then c.updated else t;
      Regroup(out, line, Unlines(Outputs(Scanned(RawLines(AfterLine(rest))))));
      out := out + line + [NEWLINE];
      rest := AfterLine(rest);
    }
    ok := !readFails;
  }

  lemma NothingScanned(s: Runes)
    requires s != [] && !Fits(s[..LineEnd(s)])
    ensures Scanned(RawLines(s)) == [] && !AllFit(RawLines(s)) && Unlines(Outputs([])) == []
  {
    assert RawLines(s)[0] == s[..LineEnd(s)];
  }

  predicate NewlineFree(ls: seq<Runes>) {
    forall i :: 0 <= i < |ls| ==> NEWLINE !in ls[i]
  }

  lemma {:induction false} RawLinesAreNewlineFree(s: Runes)
    ensures NewlineFree(RawLines(s))
    decreases |s|
  {
    if s != [] {
      RawLinesAreNewlineFree(AfterLine(s));
    }
  }

  lemma {:induction false} LineEndOf(l: Runes, r: Runes)
    requires NEWLINE !in l
    ensures LineEnd(l + [NEWLINE] + r) == |l|
  {
    var s := l + [NEWLINE] + r;
    if l != [] {
      assert s[1..] == l[1..] + [NEWLINE] + r;
      LineEndOf(l[1..], r);
    }
  }

  lemma FirstLine(l: Runes, r: Runes)
    requires NEWLINE !in l
    ensures RawLines(l + [NEWLINE] + r) == [l] + RawLines(r)
  {
    var s := l + [NEWLINE] + r;
    LineEndOf(l, r);
    assert s[..|l|] == l && s[|l| + 1..] == r;
  }

  /** Writing lines and reading them again gives the same lines. */
  lemma {:induction false} LinesOfUnlines(ls: seq<Runes>)
    requires NewlineFree(ls)
    ensures RawLines(Unlines(ls)) == ls
  {
    assert RawLines([]) == [];
    hide RawLines;
    if ls != [] {
      FirstLine(ls[0], Unlines(ls[1..]));
      LinesOfUnlines(ls[1..]);
      assert ls == [ls[0]] + ls[1..];
    }
  }

  /** Joined tokens hold no space other than the blank. */
  lemma {:induction false} JoinIsPlain(ts: seq<Runes>)
    requires AreTokens(ts)
    ensures forall i :: 0 <= i < |Join(ts)| ==> Join(ts)[i] == BLANK || !IsSpace(Join(ts)[i])
  {
    if |ts| > 1 {
      JoinIsPlain(ts[1..]);
    }
  }

  lemma OutputOnOneLine(l: Runes)
    requires NEWLINE !in l
    ensures NEWLINE !in Output(l)
  {
    var t := DropCR(l);
    if Matches(t) {
      FieldsAreTokens(TrimSuffix(TrimPrefix(TrimSpace(t), OPEN), CLOSE));
      JoinIsPlain(Tokens(t)[1 := MODULE]);
    }
  }

  /** The rewritten file has the same number of lines in the same order: line i is the rewritten line i, which is
      line i itself unless it matches. */
  lemma LinesKept(s: Runes)
    ensures RawLines(Rewrite(s)) == Outputs(RawLines(s))
    ensures forall i :: 0 <= i < |RawLines(s)| && !Matches(DropCR(RawLines(s)[i])) ==>
      RawLines(Rewrite(s))[i] == DropCR(RawLines(s)[i])
  {
    var ls := RawLines(s);
    RawLinesAreNewlineFree(s);
    forall i | 0 <= i < |ls| ensures NEWLINE !in Outputs(ls)[i] {
      OutputOnOneLine(ls[i]);
    }
    LinesOfUnlines(Outputs(ls));
  }

  /** A file that was scanned to its end can be scanned to its end again. */
  lemma FitsAgain(s: Runes)
    requires AllFit(RawLines(s))
    ensures AllFit(RawLines(Rewrite(s)))
  {
    var ls := RawLines(s);
    LinesKept(s);
    forall i | 0 <= i < |ls| ensures Fits(Outputs(ls)[i]) {
      RewriteShrinks(DropCR(ls[i]));
      DropShrinks(ls[i]);
    }
  }

  lemma DropShrinks(l: Runes)
    ensures ByteLength(DropCR(l)) <= ByteLength(l)
  {
    if DropCR(l) != l {
      assert l == DropCR(l) + [RETURN];
      SumConcat(Utf8Bytes, DropCR(l), [RETURN]);
    }
  }

  /** A line that does not match and ends in two carriage returns loses one of them in every pass. */
  predicate Sticky(l: Runes) {
    var t := DropCR(l);
    !Matches(t) && t != [] && t[|t| - 1] == RETURN
  }

  lemma OutputTwice(l: Runes)
    ensures Output(Output(l)) == Output(l) <==> !Sticky(l)
  {
    var t := DropCR(l);
    if Matches(t) {
      assert Output(l)[|Output(l)| - 1] == CLOSE;
      LineIdempotent(t);
    } else if Sticky(l) {
      var u := DropCR(t);
      assert Matches(u) ==> RewriteLine(u)[|RewriteLine(u)| - 1] == CLOSE;
    }
  }

  /** Rewriting twice is rewriting once, exactly for the files without such lines. */
  lemma Idempotent(s: Runes)
    ensures Rewrite(Rewrite(s)) == Rewrite(s) <==> forall i :: 0 <= i < |RawLines(s)| ==> !Sticky(RawLines(s)[i])
  {
    hide Output, Sticky;
    var ls := RawLines(s);
    LinesKept(s);
    LinesKept(Rewrite(s));
    var once := Outputs(ls);
    var twice := Outputs(once);
    assert RawLines(Rewrite(Rewrite(s))) == twice && RawLines(Rewrite(s)) == once;
    forall i | 0 <= i < |ls| ensures twice[i] == once[i] <==> !Sticky(ls[i]) {
      OutputTwice(ls[i]);
    }
    if forall i :: 0 <= i < |ls| ==> !Sticky(ls[i]) {
      assert twice == once;
    }
  }

  /** A file for which it is not: one line of two carriage returns. */
  lemma TwoReturns()
    ensures Rewrite(Rewrite([RETURN, RETURN, NEWLINE])) != Rewrite([RETURN, RETURN, NEWLINE])
  {
    var s, l := [RETURN, RETURN, NEWLINE], [RETURN, RETURN];
    LineEndOf(l, []);
    assert s == l + [NEWLINE] + [];
    FirstLine(l, []);
    assert RawLines(s) == [l];
    var r := [RETURN];
    assert IsSpace(r[0]) && r[1..] == [] && TrimSpace(r) == TrimRight(TrimLeft(r[1..])) == [];
    assert DropCR(l) == r && Tokens(r) == [];
    assert Sticky(RawLines(s)[0]);
    Idempotent(s);
  }

  /** In particular for every file without carriage returns. */
  lemma IdempotentWithoutReturns(s: Runes)
    requires RETURN !in s
    ensures Rewrite(Rewrite(s)) == Rewrite(s)
  {
    Idempotent(s);
    LinesWithoutReturns(s);
  }

  lemma {:induction false} LinesWithoutReturns(s: Runes)
    requires RETURN !in s
    ensures forall i :: 0 <= i < |RawLines(s)| ==> RETURN !in RawLines(s)[i]
    decreases |s|
  {
    if s != [] {
      LinesWithoutReturns(AfterLine(s));
    }
  }
}
