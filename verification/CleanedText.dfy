/** What cleaning keeps: every line but the page-number lines, word for word, in order. */
module CleanedText {
  import opened Collections
  import opened Text
  import opened Cleaner

  // ---- lines of the input ----------------------------------------------------------

  /** One line boundary: "\r\n" or a single boundary character. */
  predicate IsBreak(b: string) { b == "\r\n" || (|b| == 1 && IsBoundary(b[0])) }

  function Weave(lines: seq<string>, breaks: seq<string>): string
    requires |lines| == |breaks|
  {
    if lines == [] then "" else lines[0] + (breaks[0] + Weave(lines[1..], breaks[1..]))
  }

  /** `breaks` end the lines; only the last line, unless it is empty, may have none, and
      a "\r" is not cut off from its "\n". */
  ghost predicate Breaks(lines: seq<string>, breaks: seq<string>) {
    && |lines| == |breaks|
    && (forall i :: 0 <= i < |lines| ==> NoBoundary(lines[i]))
    && (forall i :: 0 <= i < |lines| ==> IsBreak(breaks[i]) || (i == |lines| - 1 && breaks[i] == "" && lines[i] != ""))
    && (forall i :: 0 <= i < |lines| - 1 && breaks[i] == "\r" && lines[i + 1] == "" ==>
          breaks[i + 1] == "" || breaks[i + 1][0] != '\n')
  }

  lemma BreaksCons(l: string, b: string, lines: seq<string>, breaks: seq<string>)
    requires NoBoundary(l) && IsBreak(b) && Breaks(lines, breaks)
    requires b == "\r" && lines != [] && lines[0] == "" ==> breaks[0] == "" || breaks[0][0] != '\n'
    ensures Breaks([l] + lines, [b] + breaks)
  {
    hide NoBoundary, IsBreak;
    var ls, bs := [l] + lines, [b] + breaks;
    forall i | 0 <= i < |ls| - 1 && bs[i] == "\r" && ls[i + 1] == ""
      ensures bs[i + 1] == "" || bs[i + 1][0] != '\n'
    {
      if i > 0 {
        assert bs[i] == breaks[i - 1] && ls[i + 1] == lines[i];
      }
    }
  }

  /** `splitlines` cuts exactly at the line boundaries. */
  lemma {:induction false} LinesCutAtBreaks(s: string) returns (breaks: seq<string>)
    ensures Breaks(SplitLines(s), breaks) && Weave(SplitLines(s), breaks) == s
    decreases |s|
  {
    if s == "" {
      breaks := [];
    } else {
      var n := RunLen(s, NotBoundary);
      if n == |s| {
        breaks := [""];
        OneLineOnly(s);
      } else {
        var skip := if s[n] == '\r' && n + 1 < |s| && s[n + 1] == '\n' then 2 else 1;
        var more := LinesCutAtBreaks(s[n + skip..]);
        breaks := [s[n..n + skip]] + more;
        NextLine(s, n, skip, more);
      }
    }
  }

  lemma OneLineOnly(s: string)
    requires s != "" && RunLen(s, NotBoundary) == |s|
    ensures Breaks(SplitLines(s), [""]) && Weave(SplitLines(s), [""]) == s
  {
    hide *;
    OneSplit(s);
    OnlyLine(s);
  }

  lemma OnlyLine(s: string)
    requires s != "" && NoBoundary(s)
    ensures Breaks([s], [""]) && Weave([s], [""]) == s
  {
    hide NoBoundary, IsBreak;
    assert [s][1..] == [] && [""][1..] == [];
    AppendNil(s, "" + Weave([s][1..], [""][1..]));
  }

  lemma OneSplit(s: string)
    requires s != "" && RunLen(s, NotBoundary) == |s|
    ensures SplitLines(s) == [s] && NoBoundary(s)
  {
    hide RunLen, IsBoundary;
    assert forall i :: 0 <= i < |s| ==> NotBoundary(s[i]);
  }

  lemma NextLine(s: string, n: nat, skip: nat, more: seq<string>)
    requires n < |s| && n == RunLen(s, NotBoundary)
    requires skip == if s[n] == '\r' && n + 1 < |s| && s[n + 1] == '\n' then 2 else 1
    requires Breaks(SplitLines(s[n + skip..]), more) && Weave(SplitLines(s[n + skip..]), more) == s[n + skip..]
    ensures Breaks(SplitLines(s), [s[n..n + skip]] + more) && Weave(SplitLines(s), [s[n..n + skip]] + more) == s
  {
    hide *;
    NextSplit(s, n, skip);
    BreakHere(s, n, skip);
    var l, b, rest := s[..n], s[n..n + skip], s[n + skip..];
    ThreeStretches(s, n, skip);
    SameCount(SplitLines(rest), more);
    if rest != "" {
      FirstBreak(rest, more);
    }
    NoLines(rest);
    BreaksCons(l, b, SplitLines(rest), more);
    WeaveCons(l, b, SplitLines(rest), more);
  }

  lemma ThreeStretches(s: string, n: nat, skip: nat)
    requires n + skip <= |s|
    ensures s == s[..n] + (s[n..n + skip] + s[n + skip..])
  {
  }

  lemma NextSplit(s: string, n: nat, skip: nat)
    requires n < |s| && n == RunLen(s, NotBoundary)
    requires skip == if s[n] == '\r' && n + 1 < |s| && s[n + 1] == '\n' then 2 else 1
    ensures SplitLines(s) == [s[..n]] + SplitLines(s[n + skip..])
    ensures NoBoundary(s[..n]) && IsBoundary(s[n])
  {
    hide RunLen, IsBoundary;
    assert forall i :: 0 <= i < n ==> NotBoundary(s[i]);
    assert !NotBoundary(s[n]);
  }

  lemma WeaveCons(l: string, b: string, lines: seq<string>, breaks: seq<string>)
    requires |lines| == |breaks|
    ensures Weave([l] + lines, [b] + breaks) == l + (b + Weave(lines, breaks))
  {
    assert ([l] + lines)[1..] == lines && ([b] + breaks)[1..] == breaks;
  }

  lemma SameCount(lines: seq<string>, breaks: seq<string>)
    requires Breaks(lines, breaks)
    ensures |lines| == |breaks|
  {
  }

  lemma NoLines(s: string)
    ensures SplitLines(s) == [] <==> s == ""
  {
  }

  lemma BreakHere(s: string, n: nat, skip: nat)
    requires n < |s| && IsBoundary(s[n])
    requires skip == if s[n] == '\r' && n + 1 < |s| && s[n + 1] == '\n' then 2 else 1
    ensures n + skip <= |s| && IsBreak(s[n..n + skip])
    ensures s[n..n + skip] == "\r" && s[n + skip..] != "" ==> s[n + skip..][0] != '\n'
  {
    var b := s[n..n + skip];
    assert b[0] == s[n];
    if skip == 2 {
      assert b == [s[n], s[n + 1]];
    }
  }

  lemma FirstBreak(s: string, breaks: seq<string>)
    requires s != "" && |SplitLines(s)| == |breaks| && Weave(SplitLines(s), breaks) == s
    ensures SplitLines(s) != []
    ensures SplitLines(s)[0] == "" && breaks[0] != "" ==> breaks[0][0] == s[0]
  {
    hide SplitLines;
    if SplitLines(s) != [] && SplitLines(s)[0] == "" && breaks[0] != "" {
      assert s == "" + (breaks[0] + Weave(SplitLines(s)[1..], breaks[1..]));
    }
  }

  // ---- what becomes of the lines ----------------------------------------------------------

  /** `out` are the lines that the source lines `src` become: page-number lines go, every other
      line with words stands in its place with the same words, and one empty line stands
      where blank lines lie between two of them (`printed`: a line stands before; `gap`:
      and blank lines followed it). */
  ghost predicate Follows(digit: char -> bool, src: seq<string>, out: seq<string>, printed: bool, gap: bool)
    decreases |src|
  {
    if src == [] then out == []
    else if IsPageLine(digit, src[0]) then Follows(digit, src[1..], out, printed, gap)
    else if Words(src[0]) == [] then Follows(digit, src[1..], out, printed, printed)
    else if gap then
      |out| >= 2 && out[0] == "" && Words(out[1]) == Words(src[0]) && Follows(digit, src[1..], out[2..], true, false)
    else |out| >= 1 && Words(out[0]) == Words(src[0]) && Follows(digit, src[1..], out[1..], true, false)
  }

  /** The same on cleaned lines, computed. */
  function Tidy(ls: seq<string>, printed: bool, gap: bool): seq<string> {
    if ls == [] then []
    else if ls[0] == "" then Tidy(ls[1..], printed, printed)
    else (if gap then ["", ls[0]] else [ls[0]]) + Tidy(ls[1..], true, false)
  }

  lemma CleanWords(l: string)
    ensures Words(CleanLine(l)) == Words(l) && (CleanLine(l) == "" <==> Words(l) == [])
  {
    hide Words, Strip, Collapse;
    CollapseWords(l);
    StripWords(Collapse(l));
    TrimTight(Collapse(l), IsSpace);
    StripIsTrim(Collapse(l));
    TightWords(CleanLine(l));
  }

  lemma TightWords(s: string)
    requires Tight(s, IsSpace)
    ensures s == "" <==> Words(s) == []
  {
  }

  lemma {:induction false} TidyFollows(digit: char -> bool, ls: seq<string>, printed: bool, gap: bool)
    ensures Follows(digit, ls, Tidy(CleanLines(digit, ls), printed, gap), printed, gap)
  {
    hide IsPageLine, CleanLine, Words;
    if ls != [] {
      var l, rest := CleanLine(ls[0]), CleanLines(digit, ls[1..]);
      CleanWords(ls[0]);
      TidyFollows(digit, ls[1..], printed, gap);
      TidyFollows(digit, ls[1..], printed, printed);
      TidyFollows(digit, ls[1..], true, false);
      if IsPageLine(digit, ls[0]) {
        AppendNilLeft(rest);
      } else {
        assert ([l] + rest)[1..] == rest;
        var more := Tidy(rest, true, false);
        assert (["", l] + more)[2..] == more && ([l] + more)[1..] == more;
      }
    }
  }

  // ---- from lines to text ----------------------------------------------------------------------

  function Newlines(k: nat): (s: string)
    ensures |s| == k && forall i :: 0 <= i < k ==> s[i] == '\n'
  {
    seq(k, _ => '\n')
  }

  /** The lines behind the first, each with the newline before it. */
  function After(ls: seq<string>): string {
    if ls == [] then "" else "\n" + (ls[0] + After(ls[1..]))
  }

  lemma {:induction false} JoinAfter(l: string, ls: seq<string>)
    ensures Join([l] + ls, "\n") == l + After(ls)
    decreases |ls|
  {
    if ls == [] {
      AppendNil([l], ls);
      AppendNil(l, "");
    } else {
      JoinAfter(ls[0], ls[1..]);
      HeadTail(ls);
      assert ([l] + ls)[1..] == ls;
      Assoc(l, "\n", ls[0] + After(ls[1..]));
    }
  }

  /** A cleaned line: on one line, without outer white space. */
  ghost predicate Plain(l: string) { OneLine(l) && Tight(l, IsSpace) }

  ghost predicate AllPlain(ls: seq<string>) { forall i :: 0 <= i < |ls| ==> Plain(ls[i]) }

  lemma {:induction false} SqueezeLine(w: string, t: string)
    requires OneLine(w)
    ensures Squeeze(w + t) == w + Squeeze(t)
  {
    if w == "" {
      AppendNilLeft(t);
      AppendNilLeft(Squeeze(t));
    } else {
      SqueezeLine(w[1..], t);
      HeadTail(w);
      Assoc([w[0]], w[1..], t);
      Assoc([w[0]], w[1..], Squeeze(t));
      assert (w + t)[1..] == w[1..] + t && (w + t)[0] == w[0];
    }
  }

  lemma SqueezeNewlines(k: nat, t: string)
    requires t == "" || t[0] != '\n'
    ensures Squeeze(Newlines(k) + t) == Newlines(if k >= 3 then 2 else k) + Squeeze(t)
  {
    var s := Newlines(k) + t;
    if k == 0 {
      AppendNilLeft(t);
      AppendNilLeft(Squeeze(t));
      assert Newlines(0) == "";
    } else {
      RunLenIs(s, IsNewline, k);
      assert s[k..] == t && s[..k] == Newlines(k);
      assert Newlines(2) == "\n\n";
    }
  }

  lemma TrimRightOver(a: string, b: string)
    requires a != "" && !IsSpace(a[|a| - 1])
    ensures TrimRight(a + b, IsSpace) == a + TrimRight(b, IsSpace)
    decreases |b|
  {
    if b == "" {
      AppendNil(a, b);
    } else {
      assert (a + b)[|a + b| - 1] == b[|b| - 1];
      if IsSpace(b[|b| - 1]) {
        TrimRightOver(a, b[..|b| - 1]);
        assert (a + b)[..|a + b| - 1] == a + b[..|b| - 1];
      }
    }
  }

  lemma {:induction false} TrimRightNewlines(k: nat)
    ensures TrimRight(Newlines(k), IsSpace) == ""
  {
    if k > 0 {
      TrimRightNewlines(k - 1);
      assert Newlines(k)[..k - 1] == Newlines(k - 1);
    }
  }

  lemma {:induction false} TrimLeftNewlines(k: nat, t: string)
    requires t == "" || !IsSpace(t[0])
    ensures TrimLeft(Newlines(k) + t, IsSpace) == t
  {
    if k == 0 {
      AppendNilLeft(t);
      assert Newlines(0) == "";
    } else {
      TrimLeftNewlines(k - 1, t);
      assert (Newlines(k) + t)[1..] == Newlines(k - 1) + t;
    }
  }

  lemma NewlineNext(k: nat, t: string)
    ensures Newlines(k) + ("\n" + t) == Newlines(k + 1) + t
  {
  }

  /** Pending newlines before a line with text. */
  lemma SqueezeBefore(k: nat, w: string, t: string)
    requires Plain(w) && w != ""
    ensures Squeeze(Newlines(k) + (w + t)) == Newlines(if k >= 3 then 2 else k) + (w + Squeeze(t))
  {
    assert (w + t)[0] == w[0];
    SqueezeNewlines(k, w + t);
    SqueezeLine(w, t);
  }

  lemma {:induction false} TidyAfter(ls: seq<string>, k: nat)
    requires AllPlain(ls)
    ensures TrimRight(Squeeze(Newlines(k) + After(ls)), IsSpace) == After(Tidy(ls, true, k > 0))
    decreases |ls|
  {
    hide TrimRight, Squeeze, Plain;
    if ls == [] {
      AppendNil(Newlines(k), "");
      SqueezeNewlines(k, "");
      SqueezeNothing();
      AppendNil(Newlines(if k >= 3 then 2 else k), "");
      TrimRightNewlines(if k >= 3 then 2 else k);
    } else {
      var w, rest := ls[0], ls[1..];
      NewlineNext(k, w + After(rest));
      if w == "" {
        AppendNilLeft(After(rest));
        TidyAfter(rest, k + 1);
      } else {
        TidyAfter(rest, 0);
        assert Newlines(0) == "";
        AppendNilLeft(After(rest));
        SqueezeBefore(k + 1, w, After(rest));
        var m: nat := if k >= 2 then 2 else k + 1;
        TrimBehind(m, w, Squeeze(After(rest)));
        AfterTidy(ls, k, m);
      }
    }
  }

  lemma SqueezeNothing()
    ensures Squeeze("") == ""
  {
  }

  lemma TrimBehind(m: nat, w: string, t: string)
    requires Plain(w) && w != ""
    ensures TrimRight(Newlines(m) + (w + t), IsSpace) == Newlines(m) + (w + TrimRight(t, IsSpace))
  {
    hide TrimRight;
    var a := Newlines(m) + w;
    assert a[|a| - 1] == w[|w| - 1];
    TrimRightOver(a, t);
    Assoc(Newlines(m), w, t);
    Assoc(Newlines(m), w, TrimRight(t, IsSpace));
  }

  lemma AfterTidy(ls: seq<string>, k: nat, m: nat)
    requires ls != [] && ls[0] != "" && m == if k >= 2 then 2 else k + 1
    ensures After(Tidy(ls, true, k > 0)) == Newlines(m) + (ls[0] + After(Tidy(ls[1..], true, false)))
  {
    var w, more := ls[0], Tidy(ls[1..], true, false);
    TwoNewlines(w + After(more));
    hide After, Newlines;
    AfterCons(w, more);
    if k > 0 {
      AfterCons("", [w] + more);
      AppendNilLeft(After([w] + more));
      assert [""] + ([w] + more) == ["", w] + more;
    }
  }

  lemma AfterCons(l: string, ls: seq<string>)
    ensures After([l] + ls) == "\n" + (l + After(ls))
  {
    assert ([l] + ls)[1..] == ls;
  }

  lemma TwoNewlines(t: string)
    ensures "\n" + t == Newlines(1) + t && "\n" + ("\n" + t) == Newlines(2) + t
  {
  }

  /** The text of the tidied lines. */
  lemma {:induction false} TidyText(ls: seq<string>, k: nat)
    requires AllPlain(ls)
    ensures Strip(Squeeze(Newlines(k) + Join(ls, "\n"))) == Join(Tidy(ls, false, false), "\n")
    decreases |ls|
  {
    hide TrimRight, TrimLeft, Squeeze, Plain;
    if ls == [] {
      OnlyNewlines(k, Join(ls, "\n"));
    } else {
      var w, rest := ls[0], ls[1..];
      HeadTail(ls);
      JoinAfter(w, rest);
      if w == "" {
        if rest == [] {
          OnlyNewlines(k, Join(ls, "\n"));
        } else {
          HeadTail(rest);
          JoinAfter(rest[0], rest[1..]);
          NewlineNext(k, Join(rest, "\n"));
          AppendNilLeft(After(rest));
          TidyText(rest, k + 1);
        }
      } else {
        TextFrom(k, w, rest);
        assert Tidy(ls, false, false) == [w] + Tidy(rest, true, false);
        JoinAfter(w, Tidy(rest, true, false));
      }
    }
  }

  lemma OnlyNewlines(k: nat, t: string)
    requires t == ""
    ensures Strip(Squeeze(Newlines(k) + t)) == ""
  {
    hide TrimRight, TrimLeft, Squeeze;
    SqueezeNewlines(k, "");
    SqueezeNothing();
    TrimLeftNewlines(if k >= 3 then 2 else k, "");
    TrimRightNewlines(0);
    assert Newlines(0) == "";
  }

  lemma TextFrom(k: nat, w: string, rest: seq<string>)
    requires Plain(w) && w != "" && AllPlain(rest)
    ensures Strip(Squeeze(Newlines(k) + (w + After(rest)))) == w + After(Tidy(rest, true, false))
  {
    var m: nat := if k >= 3 then 2 else k;
    var t := Squeeze(After(rest));
    assert !IsSpace((w + t)[0]);
    hide TrimRight, TrimLeft, Squeeze, Plain;
    SqueezeBefore(k, w, After(rest));
    TrimLeftNewlines(m, w + t);
    TidyAfter(rest, 0);
    assert Newlines(0) == "";
    AppendNilLeft(After(rest));
    TrimBehind(0, w, t);
    AppendNilLeft(w + t);
    AppendNilLeft(w + TrimRight(t, IsSpace));
  }

  // ---- the theorem -------------------------------------------------------------------------------

  lemma {:induction false} CleanLinesPlain(digit: char -> bool, ls: seq<string>)
    requires forall i :: 0 <= i < |ls| ==> NoBoundary(ls[i])
    ensures AllPlain(CleanLines(digit, ls))
  {
    hide IsPageLine, CleanLine;
    if ls != [] {
      CleanLinesPlain(digit, ls[1..]);
      if !IsPageLine(digit, ls[0]) {
        CleanLineGood(digit, ls[0]);
        GoodIsOneLine(digit, CleanLine(ls[0]));
      }
    }
  }

  lemma {:induction false} TidyPlain(ls: seq<string>, printed: bool, gap: bool)
    requires AllPlain(ls)
    ensures forall i :: 0 <= i < |Tidy(ls, printed, gap)| ==> OneLine(Tidy(ls, printed, gap)[i])
  {
    hide Tight;
    if ls != [] {
      TidyPlain(ls[1..], printed, printed);
      TidyPlain(ls[1..], true, false);
    }
  }

  /** The lines of a text, none for the empty text. */
  ghost function TextLines(s: string): seq<string> { if s == "" then [] else LinesOf(s) }

  /** The lines of the cleaned text follow those of the text. */
  lemma CleaningKeeps(digit: char -> bool, text: string)
    ensures Follows(digit, SplitLines(text), TextLines(Cleaned(digit, text)), false, false)
  {
    var src := SplitLines(text);
    var ls := CleanLines(digit, src);
    var out := Tidy(ls, false, false);
    SplitLinesNoBoundary(text);
    hide Strip, Squeeze, SplitLines, Follows, Tidy, CleanLines;
    CleanLinesPlain(digit, src);
    TidyText(ls, 0);
    assert Newlines(0) == "";
    AppendNilLeft(Join(ls, "\n"));
    TidyFollows(digit, src, false, false);
    TidyPlain(ls, false, false);
    LinesOfTidy(ls);
  }

  lemma LinesOfTidy(ls: seq<string>)
    requires AllPlain(ls)
    ensures var out := Tidy(ls, false, false); TextLines(Join(out, "\n")) == out
  {
    hide Plain;
    TidyPlain(ls, false, false);
    var out := Tidy(ls, false, false);
    TidyHead(ls);
    if out != [] {
      HeadTail(out);
      JoinAfter(out[0], out[1..]);
      LinesOfJoin(out);
    }
  }

  lemma {:induction false} TidyHead(ls: seq<string>)
    ensures Tidy(ls, false, false) != [] ==> Tidy(ls, false, false)[0] != ""
  {
    if ls != [] && ls[0] == "" {
      TidyHead(ls[1..]);
    }
  }

  /** The words of the lines that are not page-number lines. */
  function KeptWords(digit: char -> bool, ls: seq<string>): seq<string> {
    if ls == [] then [] else (if IsPageLine(digit, ls[0]) then [] else Words(ls[0])) + KeptWords(digit, ls[1..])
  }

  lemma AfterWords(out: seq<string>)
    requires out != []
    ensures Words(After(out)) == Words(out[0]) + Words(After(out[1..]))
  {
    LineWords(out[0], After(out[1..]));
  }

  lemma GapWords(out: seq<string>)
    requires |out| >= 2 && out[0] == ""
    ensures Words(After(out)) == Words(out[1]) + Words(After(out[2..]))
  {
    assert out[1..][1..] == out[2..] && out[1..][0] == out[1];
    NoWords("");
    hide Words, After;
    AfterWords(out);
    AfterWords(out[1..]);
    AppendNilLeft(Words(After(out[1..])));
  }

  lemma {:induction false} FollowsWords(digit: char -> bool, src: seq<string>, out: seq<string>, printed: bool,
                                        gap: bool)
    requires Follows(digit, src, out, printed, gap)
    ensures KeptWords(digit, src) == Words(After(out))
    decreases |src|
  {
    NoWords("");
    assert After([]) == "";
    hide IsPageLine, Words, After;
    if src == [] {
    } else if IsPageLine(digit, src[0]) {
      FollowsWords(digit, src[1..], out, printed, gap);
      AppendNilLeft(KeptWords(digit, src[1..]));
    } else if Words(src[0]) == [] {
      FollowsWords(digit, src[1..], out, printed, printed);
      AppendNilLeft(KeptWords(digit, src[1..]));
    } else if gap {
      FollowsWords(digit, src[1..], out[2..], true, false);
      GapWords(out);
    } else {
      FollowsWords(digit, src[1..], out[1..], true, false);
      AfterWords(out);
    }
  }

  /** A line's words, then the words of the lines behind it. */
  lemma {:induction false} LineWords(l: string, t: string)
    requires t == "" || t[0] == '\n'
    ensures Words("\n" + (l + t)) == Words(l) + Words(t)
  {
    WordsGap("\n", l + t);
    WordsAppend(l, t);
  }

  lemma {:induction false} WordsAppend(l: string, t: string)
    requires t == "" || IsSpace(t[0])
    ensures Words(l + t) == Words(l) + Words(t)
    decreases |l|
  {
    if Words(l) == [] {
      BlankTail(l);
      WordsGap(l, t);
    } else {
      HeadIsWord(l);
      var w := Words(l)[0];
      var left, rest := WordsHead(l);
      SpaceChars(left);
      WordsAppend(rest, t);
      hide Words;
      Assoc(left, w + rest, t);
      Assoc(w, rest, t);
      WordsGap(left, w + rest);
      WordsGap(left, w + (rest + t));
      assert rest + t == "" || IsSpace((rest + t)[0]);
      WordsCons(w, rest + t);
      WordsCons(w, rest);
      Assoc([w], Words(rest), Words(t));
    }
  }

  /** Cleaning keeps the words of the text, in order, except those of page-number lines. */
  lemma CleaningKeepsWords(digit: char -> bool, text: string)
    ensures Words(Cleaned(digit, text)) == KeptWords(digit, SplitLines(text))
  {
    var s := Cleaned(digit, text);
    CleaningKeeps(digit, text);
    hide Words, Cleaned, SplitLines, Follows;
    FollowsWords(digit, SplitLines(text), TextLines(s), false, false);
    if s != "" {
      JoinLinesOf(s);
      HeadTail(LinesOf(s));
      JoinAfter(LinesOf(s)[0], LinesOf(s)[1..]);
      BehindNewline(s);
    }
  }

  lemma BehindNewline(s: string)
    ensures Words("\n" + s) == Words(s)
  {
    WordsGap("\n", s);
  }

  // ---- documents --------------------------------------------------------------------------------

  /** `ps` are the pages among the first `n` whose cleaned text is not empty. */
  ghost predicate FullPages(digit: char -> bool, pages: seq<Page>, n: nat, ps: seq<nat>)
    requires n <= |pages|
  {
    Rising(ps) && forall i :: i in ps <==> 0 <= i < n && Cleaned(digit, pages[i].text) != ""
  }

  lemma {:induction false} CleanPagesSnoc(digit: char -> bool, pages: seq<Page>, p: Page)
    ensures CleanPages(digit, pages + [p])
         == CleanPages(digit, pages)
            + (if Cleaned(digit, p.text) != "" then [Page(p.number, Cleaned(digit, p.text))] else [])
  {
    hide Cleaned;
    var last := if Cleaned(digit, p.text) != "" then [Page(p.number, Cleaned(digit, p.text))] else [];
    if pages == [] {
      AppendNilLeft([p]);
      AppendNilLeft(last);
      assert [p][1..] == [];
      AppendNil(last, CleanPages(digit, [p][1..]));
    } else {
      var text := Cleaned(digit, pages[0].text);
      CleanPagesSnoc(digit, pages[1..], p);
      assert (pages + [p])[1..] == pages[1..] + [p];
      Assoc(if text != "" then [Page(pages[0].number, text)] else [], CleanPages(digit, pages[1..]), last);
    }
  }

  /** The pages of a cleaned document: in order and under their numbers, the pages whose cleaned
      text is not empty. */
  lemma {:induction false} PagesKept(digit: char -> bool, pages: seq<Page>) returns (ps: seq<nat>)
    ensures |ps| == |CleanPages(digit, pages)| && FullPages(digit, pages, |pages|, ps)
    ensures forall k :: 0 <= k < |ps| ==>
              && ps[k] < |pages|
              && CleanPages(digit, pages)[k] == Page(pages[ps[k]].number, Cleaned(digit, pages[ps[k]].text))
    decreases |pages|
  {
    hide Cleaned;
    if pages == [] {
      ps := [];
    } else {
      var n := |pages| - 1;
      var before := PagesKept(digit, pages[..n]);
      ps := LastPage(digit, pages, before);
    }
  }

  lemma LastPage(digit: char -> bool, pages: seq<Page>, before: seq<nat>) returns (ps: seq<nat>)
    requires pages != [] && |before| == |CleanPages(digit, pages[..|pages| - 1])|
    requires FullPages(digit, pages[..|pages| - 1], |pages| - 1, before)
    requires forall k :: 0 <= k < |before| ==>
               && before[k] < |pages| - 1
               && CleanPages(digit, pages[..|pages| - 1])[k]
                  == Page(pages[before[k]].number, Cleaned(digit, pages[before[k]].text))
    ensures |ps| == |CleanPages(digit, pages)| && FullPages(digit, pages, |pages|, ps)
    ensures forall k :: 0 <= k < |ps| ==>
              && ps[k] < |pages|
              && CleanPages(digit, pages)[k] == Page(pages[ps[k]].number, Cleaned(digit, pages[ps[k]].text))
  {
    hide Cleaned, CleanPages;
    var n := |pages| - 1;
    CleanPagesSnoc(digit, pages[..n], pages[n]);
    assert pages == pages[..n] + [pages[n]];
    assert forall i :: 0 <= i < n ==> pages[..n][i] == pages[i];
    ps := before;
    if Cleaned(digit, pages[n].text) != "" {
      RisingSnoc(before, n);
      ps := before + [n];
    }
  }

  /** A document keeps its name, its type and its non-empty metadata. */
  lemma DocumentKept(digit: char -> bool, doc: Document)
    ensures var d := CleanDocument(digit, doc);
            && d.filename == doc.filename && d.contentType == doc.contentType && d.pages == CleanPages(digit, doc.pages)
            && forall k :: (k in d.metadata <==> k in doc.metadata && doc.metadata[k] != "")
                           && (k in d.metadata ==> d.metadata[k] == doc.metadata[k])
  {
    hide CleanPages;
  }
}
