/** Text cleaning: white space is normalised and page-number lines are dropped. */
module Cleaner {
  import opened Collections
  import opened Text

  // ---- lines --------------------------------------------------------------------

  /** The line boundaries of `str.splitlines`. */
  predicate IsBoundary(c: char) {
    var n := c as int;
    0x0A <= n <= 0x0D || 0x1C <= n <= 0x1E || n == 0x85 || n == 0x2028 || n == 0x2029
  }

  predicate NotBoundary(c: char) { !IsBoundary(c) }

  /** `s.splitlines()`: "\r\n" is one boundary and a final boundary opens no line. */
  function SplitLines(s: string): seq<string>
    decreases |s|
  {
    if s == "" then []
    else
      var n := RunLen(s, NotBoundary);
      if n == |s| then [s]
      else
        var skip := if s[n] == '\r' && n + 1 < |s| && s[n + 1] == '\n' then 2 else 1;
        [s[..n]] + SplitLines(s[n + skip..])
  }

  /** `[ \t\u00a0]` */
  predicate IsBlank(c: char) { c == ' ' || c == '\t' || c as int == 0xA0 }

  /** Every run of blanks becomes one space. */
  function Collapse(s: string): string
    decreases |s|
  {
    if s == "" then ""
    else if IsBlank(s[0]) then " " + Collapse(s[RunLen(s, IsBlank)..])
    else [s[0]] + Collapse(s[1..])
  }

  function CleanLine(line: string): string { Strip(Collapse(line)) }

  // ---- page-number lines -----------------------------------------------------------

  predicate Spells(w: string, lower: string, upper: string)
    requires |lower| == |upper|
  {
    |w| == |lower| && forall i :: 0 <= i < |w| ==> w[i] == lower[i] || w[i] == upper[i]
  }

  predicate IsPageWord(w: string) { Spells(w, "page", "PAGE") }

  predicate IsOfWord(w: string) { Spells(w, "of", "OF") }

  /** `\d+`; `digit` is the class of Unicode decimal digits. */
  predicate IsNumber(digit: char -> bool, w: string) {
    w != "" && forall i :: 0 <= i < |w| ==> digit(w[i])
  }

  /** What decimal digits are not: white space or Latin letters. */
  ghost predicate DigitClass(digit: char -> bool) {
    forall c :: digit(c) ==> !IsSpace(c) && !('a' <= c <= 'z') && !('A' <= c <= 'Z')
  }

  predicate NumberWords(digit: char -> bool, ws: seq<string>) {
    && ws != [] && IsNumber(digit, ws[0])
    && (|ws| == 1 || (|ws| == 3 && IsOfWord(ws[1]) && IsNumber(digit, ws[2])))
  }

  predicate PageWords(digit: char -> bool, ws: seq<string>) {
    if ws != [] && IsPageWord(ws[0]) then NumberWords(digit, ws[1..]) else NumberWords(digit, ws)
  }

  /** The matcher, by the words of the line. */
  predicate IsPageLine(digit: char -> bool, line: string) { PageWords(digit, Words(line)) }

  /** How the pattern `^\s*(page\s+)?\d+(\s+of\s+\d+)?\s*$` divides a line. */
  datatype PageMatch = PageMatch(lead: string, page: string, gap: string, number: string,
                                 gap1: string, of: string, gap2: string, total: string, trail: string)

  ghost predicate AllSpace(s: string) { forall i :: 0 <= i < |s| ==> IsSpace(s[i]) }

  ghost predicate Matches(digit: char -> bool, m: PageMatch) {
    && AllSpace(m.lead) && AllSpace(m.trail) && IsNumber(digit, m.number)
    && ((m.page == "" && m.gap == "") || (IsPageWord(m.page) && m.gap != "" && AllSpace(m.gap)))
    && ((m.gap1 == "" && m.of == "" && m.gap2 == "" && m.total == "")
        || (&& m.gap1 != "" && AllSpace(m.gap1) && IsOfWord(m.of) && m.gap2 != "" && AllSpace(m.gap2)
            && IsNumber(digit, m.total)))
  }

  function TailOf(m: PageMatch): string { m.gap1 + (m.of + (m.gap2 + (m.total + m.trail))) }

  function MatchedText(m: PageMatch): string { m.lead + (m.page + (m.gap + (m.number + TailOf(m)))) }

  lemma SpellsIsWord(w: string, lower: string, upper: string)
    requires |lower| == |upper| > 0 && Spells(w, lower, upper)
    requires forall i :: 0 <= i < |lower| ==> !IsSpace(lower[i]) && !IsSpace(upper[i])
    ensures IsWord(w)
  {
  }

  lemma NumberIsWord(digit: char -> bool, w: string)
    requires DigitClass(digit) && IsNumber(digit, w)
    ensures IsWord(w)
  {
  }

  lemma SpaceOpens(gap: string, rest: string)
    requires gap != "" && AllSpace(gap)
    ensures gap + rest != "" && IsSpace((gap + rest)[0])
  {
  }

  lemma WordsGap(gap: string, rest: string)
    requires AllSpace(gap)
    ensures Words(gap + rest) == Words(rest)
  {
    forall c | c in gap ensures IsSpace(c) {
      var i :| 0 <= i < |gap| && gap[i] == c;
    }
    WordsSpaces(gap, rest);
  }

  lemma NoWords(s: string)
    requires AllSpace(s)
    ensures Words(s) == []
  {
    WordsGap(s, "");
    AppendNil(s, "");
  }

  lemma TailWords(digit: char -> bool, m: PageMatch)
    requires DigitClass(digit) && Matches(digit, m)
    ensures Words(TailOf(m)) == if m.of == "" then [] else [m.of, m.total]
    ensures TailOf(m) == "" || IsSpace(TailOf(m)[0])
  {
    hide IsNumber, IsOfWord, IsPageWord, Words;
    if m.of == "" {
      OfNotEmpty();
      AppendEmpties(m.trail);
      NoWords(m.trail);
    } else {
      NumberIsWord(digit, m.total);
      OfIsWord(m.of);
      NoWords(m.trail);
      WordsCons(m.total, m.trail);
      WordsGap(m.gap2, m.total + m.trail);
      SpaceOpens(m.gap2, m.total + m.trail);
      WordsCons(m.of, m.gap2 + (m.total + m.trail));
      WordsGap(m.gap1, m.of + (m.gap2 + (m.total + m.trail)));
      SpaceOpens(m.gap1, m.of + (m.gap2 + (m.total + m.trail)));
    }
  }

  lemma OfNotEmpty()
    ensures !IsOfWord("") && !IsPageWord("")
  {
  }

  lemma OfIsWord(w: string)
    ensures IsOfWord(w) ==> IsWord(w)
    ensures IsPageWord(w) ==> IsWord(w)
  {
    if IsOfWord(w) {
      SpellsIsWord(w, "of", "OF");
    }
    if IsPageWord(w) {
      SpellsIsWord(w, "page", "PAGE");
    }
  }

  lemma AppendEmpties(s: string)
    ensures "" + ("" + ("" + ("" + s))) == s && "" + s == s
  {
  }

  /** A line the pattern matches has the page-number words. */
  lemma MatchHasWords(digit: char -> bool, m: PageMatch)
    requires DigitClass(digit) && Matches(digit, m)
    ensures IsPageLine(digit, MatchedText(m))
  {
    hide IsNumber, IsOfWord, IsPageWord, Words, TailOf;
    TailWords(digit, m);
    NumberIsWord(digit, m.number);
    OfNotEmpty();
    NumberNotPage(digit, m.number);
    var numbered := m.number + TailOf(m);
    WordsCons(m.number, TailOf(m));
    WordsGap(m.gap, numbered);
    if m.page == "" {
      AppendEmpties(numbered);
      WordsGap(m.lead, numbered);
    } else {
      OfIsWord(m.page);
      SpaceOpens(m.gap, numbered);
      WordsCons(m.page, m.gap + numbered);
      WordsGap(m.lead, m.page + (m.gap + numbered));
    }
  }

  lemma NumberNotPage(digit: char -> bool, w: string)
    requires DigitClass(digit) && IsNumber(digit, w)
    ensures !IsPageWord(w)
  {
    assert digit(w[0]);
  }

  /** A line with the page-number words is matched by the pattern. */
  lemma WordsHaveMatch(digit: char -> bool, line: string) returns (m: PageMatch)
    requires IsPageLine(digit, line)
    ensures Matches(digit, m) && MatchedText(m) == line
  {
    hide IsNumber, IsOfWord, IsPageWord, Words;
    var lead, rest := WordsHead(line);
    SpaceChars(lead);
    if IsPageWord(Words(line)[0]) {
      var gap, tail := WordsHead(rest);
      SpaceChars(gap);
      HeadIsWord(rest);
      GapNotEmpty(gap, Words(rest)[0], tail);
      m := NumberedMatch(digit, lead, Words(line)[0], gap, Words(rest)[0], tail);
    } else {
      AppendEmpties(Words(line)[0] + rest);
      m := NumberedMatch(digit, lead, "", "", Words(line)[0], rest);
    }
  }

  lemma SpaceChars(s: string)
    ensures (forall i :: 0 <= i < |s| ==> IsSpace(s[i])) <==> AllSpace(s)
  {
  }

  lemma GapNotEmpty(gap: string, w: string, tail: string)
    requires IsWord(w) && gap + (w + tail) != "" && IsSpace((gap + (w + tail))[0])
    ensures gap != ""
  {
    assert w[0] in w;
  }

  lemma BlankTail(s: string)
    requires Words(s) == []
    ensures AllSpace(s)
  {
    WordsNone(s);
    forall i | 0 <= i < |s| ensures IsSpace(s[i]) {
      assert s[i] in s;
    }
  }

  lemma HeadIsWord(s: string)
    requires Words(s) != []
    ensures IsWord(Words(s)[0])
  {
    WordsAreWords(s);
  }

  /** After the number: nothing but space, or " of " and another number. */
  lemma NumberedMatch(digit: char -> bool, lead: string, page: string, gap: string, number: string, rest: string)
    returns (m: PageMatch)
    requires AllSpace(lead) && IsNumber(digit, number)
    requires (page == "" && gap == "") || (IsPageWord(page) && gap != "" && AllSpace(gap))
    requires rest == "" || IsSpace(rest[0])
    requires Words(rest) == [] ||
             (|Words(rest)| == 2 && IsOfWord(Words(rest)[0]) && IsNumber(digit, Words(rest)[1]))
    ensures Matches(digit, m) && MatchedText(m) == lead + (page + (gap + (number + rest)))
  {
    hide IsNumber, IsOfWord, IsPageWord, Words, AllSpace;
    if Words(rest) == [] {
      BlankTail(rest);
      AppendEmpties(rest);
      m := PageMatch(lead, page, gap, number, "", "", "", "", rest);
    } else {
      var of, total := Words(rest)[0], Words(rest)[1];
      var gap1, rest1 := WordsHead(rest);
      var gap2, rest2 := WordsHead(rest1);
      SpaceChars(gap1);
      SpaceChars(gap2);
      HeadIsWord(rest);
      HeadIsWord(rest1);
      GapNotEmpty(gap1, of, rest1);
      GapNotEmpty(gap2, total, rest2);
      BlankTail(rest2);
      m := PageMatch(lead, page, gap, number, gap1, of, gap2, total, rest2);
    }
  }

  /** The word test decides exactly the language of the pattern. */
  lemma PageLineIffMatch(digit: char -> bool, line: string)
    requires DigitClass(digit)
    ensures IsPageLine(digit, line) <==> exists m :: Matches(digit, m) && MatchedText(m) == line
  {
    if IsPageLine(digit, line) {
      var m := WordsHaveMatch(digit, line);
    }
    if m :| Matches(digit, m) && MatchedText(m) == line {
      MatchHasWords(digit, m);
    }
  }

  // ---- cleaning a line keeps its words --------------------------------------------------

  lemma {:induction false} CollapsePrefix(w: string, t: string)
    requires forall i :: 0 <= i < |w| ==> !IsBlank(w[i])
    ensures Collapse(w + t) == w + Collapse(t)
  {
    if w == "" {
      assert w + t == t;
      assert "" + Collapse(t) == Collapse(t);
    } else {
      assert (w + t)[1..] == w[1..] + t;
      CollapsePrefix(w[1..], t);
      assert w == [w[0]] + w[1..];
      Assoc([w[0]], w[1..], Collapse(t));
    }
  }

  lemma CollapseOpens(t: string)
    requires t == "" || IsSpace(t[0])
    ensures Collapse(t) == "" || IsSpace(Collapse(t)[0])
  {
  }

  lemma {:induction false} CollapseWords(s: string)
    ensures Words(Collapse(s)) == Words(s)
    decreases |s|
  {
    if s == "" {
    } else if IsBlank(s[0]) {
      var n := RunLen(s, IsBlank);
      CollapseWords(s[n..]);
      assert AllSpace(s[..n]) && s == s[..n] + s[n..];
      WordsGap(s[..n], s[n..]);
      WordsGap(" ", Collapse(s[n..]));
    } else if IsSpace(s[0]) {
      CollapseWords(s[1..]);
      WordsGap([s[0]], Collapse(s[1..]));
    } else {
      var n := RunLen(s, NotSpace);
      var w, t := s[..n], s[n..];
      assert s == w + t && w[0] == s[0];
      CollapseWords(t);
      CollapsePrefix(w, t);
      CollapseOpens(t);
      WordOfRun(w);
      hide Words, Collapse;
      WordsCons(w, Collapse(t));
      WordsCons(w, t);
    }
  }

  lemma WordOfRun(w: string)
    requires w != "" && forall i :: 0 <= i < |w| ==> NotSpace(w[i])
    ensures IsWord(w)
  {
  }

  lemma {:induction false} WordsTrailing(s: string, right: string)
    requires AllSpace(right)
    ensures Words(s + right) == Words(s)
    decreases |s|
  {
    if Words(s) == [] {
      BlankTail(s);
      NoWords(s + right);
    } else {
      HeadIsWord(s);
      var w := Words(s)[0];
      var left, rest := WordsHead(s);
      SpaceChars(left);
      WordsTrailing(rest, right);
      hide Words;
      Assoc(left, w + rest, right);
      Assoc(w, rest, right);
      WordsGap(left, w + rest);
      WordsGap(left, w + (rest + right));
      RestOpens(rest, right);
      WordsCons(w, rest);
      WordsCons(w, rest + right);
    }
  }

  lemma RestOpens(rest: string, right: string)
    requires AllSpace(right) && (rest == "" || IsSpace(rest[0]))
    ensures rest + right == "" || IsSpace((rest + right)[0])
  {
  }

  lemma StripWords(s: string)
    ensures Words(Strip(s)) == Words(s)
  {
    hide Words, Strip;
    var left, right := TrimFacts(s, IsSpace);
    StripIsTrim(s);
    SpaceChars(left);
    SpaceChars(right);
    Assoc(left, Strip(s), right);
    WordsGap(left, Strip(s) + right);
    WordsTrailing(Strip(s), right);
  }

  lemma StripIsTrim(s: string)
    ensures Strip(s) == Trim(s, IsSpace)
  {
  }

  /** The page-number test does not see the cleaning of a line. */
  lemma PageLineInvariant(digit: char -> bool, line: string)
    ensures IsPageLine(digit, CleanLine(line)) == IsPageLine(digit, line)
  {
    hide Words, PageWords, Strip, Collapse;
    CollapseWords(line);
    StripWords(Collapse(line));
  }

  // ---- cleaned lines ------------------------------------------------------------------------

  /** No tab, no no-break space, no two spaces in a row. */
  predicate Collapsed(s: string) {
    && (forall i :: 0 <= i < |s| ==> (IsBlank(s[i]) ==> s[i] == ' '))
    && (forall i :: 0 < i < |s| ==> !(IsBlank(s[i - 1]) && IsBlank(s[i])))
  }

  lemma {:induction false} CollapseCollapsed(s: string)
    ensures Collapsed(Collapse(s))
    ensures s != "" && !IsBlank(s[0]) ==> Collapse(s) != "" && !IsBlank(Collapse(s)[0])
    decreases |s|
  {
    if s == "" {
    } else if IsBlank(s[0]) {
      var n := RunLen(s, IsBlank);
      CollapseCollapsed(s[n..]);
      CollapsedCons(' ', Collapse(s[n..]));
    } else {
      CollapseCollapsed(s[1..]);
      CollapsedCons(s[0], Collapse(s[1..]));
    }
  }

  lemma CollapsedCons(c: char, s: string)
    requires Collapsed(s) && (IsBlank(c) ==> c == ' ' && (s == "" || !IsBlank(s[0])))
    ensures Collapsed([c] + s)
  {
    var t := [c] + s;
    forall i | 0 < i < |t| ensures !(IsBlank(t[i - 1]) && IsBlank(t[i])) {
      if i > 1 {
        assert t[i - 1] == s[i - 2] && t[i] == s[i - 1];
      }
    }
  }

  lemma CollapsedInfix(a: string, s: string, b: string)
    requires Collapsed(a + s + b)
    ensures Collapsed(s)
  {
    var t := a + s + b;
    assert forall i :: 0 <= i < |s| ==> s[i] == t[|a| + i];
  }

  lemma {:induction false} CollapseFixed(s: string)
    requires Collapsed(s)
    ensures Collapse(s) == s
    decreases |s|
  {
    if s != "" {
      assert s == [s[0]] + s[1..];
      CollapsedInfix([s[0]], s[1..], "");
      AppendNil([s[0]] + s[1..], "");
      CollapseFixed(s[1..]);
      if IsBlank(s[0]) {
        RunLenIs(s, IsBlank, 1);
      }
    }
  }

  ghost predicate NoBoundary(s: string) { forall i :: 0 <= i < |s| ==> !IsBoundary(s[i]) }

  /** A line as cleaning leaves it. */
  ghost predicate GoodLine(digit: char -> bool, l: string) {
    Collapsed(l) && Tight(l, IsSpace) && NoBoundary(l) && !IsPageLine(digit, l)
  }

  lemma {:induction false} CollapseNoBoundary(s: string)
    requires NoBoundary(s)
    ensures NoBoundary(Collapse(s))
    decreases |s|
  {
    if s != "" {
      if IsBlank(s[0]) {
        CollapseNoBoundary(s[RunLen(s, IsBlank)..]);
      } else {
        CollapseNoBoundary(s[1..]);
      }
    }
  }

  lemma CleanLineGood(digit: char -> bool, line: string)
    requires NoBoundary(line) && !IsPageLine(digit, line)
    ensures GoodLine(digit, CleanLine(line))
  {
    hide IsPageLine, Collapse, Collapsed;
    var c := Collapse(line);
    PageLineInvariant(digit, line);
    CollapseCollapsed(line);
    CollapseNoBoundary(line);
    var left, right := TrimFacts(c, IsSpace);
    StripIsTrim(c);
    CollapsedInfix(left, Strip(c), right);
    InfixNoBoundary(left, Strip(c), right);
    TrimTight(c, IsSpace);
  }

  lemma InfixNoBoundary(a: string, s: string, b: string)
    requires NoBoundary(a + s + b)
    ensures NoBoundary(s)
  {
    assert forall i :: 0 <= i < |s| ==> s[i] == (a + s + b)[|a| + i];
  }

  lemma GoodLineFixed(digit: char -> bool, l: string)
    requires GoodLine(digit, l)
    ensures CleanLine(l) == l
  {
    CollapseFixed(l);
    TrimFixed(l, IsSpace);
  }

  lemma EmptyLineGood(digit: char -> bool)
    ensures GoodLine(digit, "")
  {
  }

  // ---- whole texts ------------------------------------------------------------------------

  /** Cleaned lines, page-number lines dropped. */
  function CleanLines(digit: char -> bool, ls: seq<string>): seq<string> {
    if ls == [] then []
    else (if IsPageLine(digit, ls[0]) then [] else [CleanLine(ls[0])]) + CleanLines(digit, ls[1..])
  }

  predicate IsNewline(c: char) { c == '\n' }

  /** `re.sub(r"\n{3,}", "\n\n", s)` */
  function Squeeze(s: string): string
    decreases |s|
  {
    if s == "" then ""
    else if s[0] != '\n' then [s[0]] + Squeeze(s[1..])
    else
      var n := RunLen(s, IsNewline);
      (if n >= 3 then "\n\n" else s[..n]) + Squeeze(s[n..])
  }

  function Cleaned(digit: char -> bool, text: string): string {
    Strip(Squeeze(Join(CleanLines(digit, SplitLines(text)), "\n")))
  }

  method CleanText(digit: char -> bool, text: string) returns (r: string)
    ensures r == Cleaned(digit, text)
  {
    hide IsPageLine, CleanLine, Strip, Squeeze, Join, SplitLines;
    var all := SplitLines(text);
    var lines: seq<string> := [];
    DropEnds(all);
    for i := 0 to |all|
      invariant lines + CleanLines(digit, all[i..]) == CleanLines(digit, all)
    {
      DropNext(all, i);
      if IsPageLine(digit, all[i]) {
        assert [] + CleanLines(digit, all[i + 1..]) == CleanLines(digit, all[i + 1..]);
        continue;
      }
      Assoc(lines, [CleanLine(all[i])], CleanLines(digit, all[i + 1..]));
      lines := lines + [CleanLine(all[i])];
    }
    AppendNil(lines, CleanLines(digit, all[|all|..]));
    var cleaned := Join(lines, "\n");
    cleaned := Squeeze(cleaned);
    r := Strip(cleaned);
  }

  /** The lines of a text, cut at every newline. */
  ghost function LinesOf(s: string): (r: seq<string>)
    ensures r != []
  {
    if s == "" then [""]
    else
      var r := LinesOf(s[1..]);
      if s[0] == '\n' then [""] + r else [[s[0]] + r[0]] + r[1..]
  }

  ghost predicate AllGood(digit: char -> bool, s: string) {
    forall l :: l in LinesOf(s) ==> GoodLine(digit, l)
  }

  ghost predicate TripleAt(s: string, i: int) {
    0 <= i < |s| - 2 && s[i] == '\n' && s[i + 1] == '\n' && s[i + 2] == '\n'
  }

  ghost predicate NoTriple(s: string) { forall i :: !TripleAt(s, i) }

  /** What cleaned text looks like: good lines, never three newlines in a row, no
      white space at either end. */
  ghost predicate IsClean(digit: char -> bool, s: string) {
    AllGood(digit, s) && NoTriple(s) && Tight(s, IsSpace)
  }

  // -- cutting and joining lines

  predicate OneLine(s: string) { forall i :: 0 <= i < |s| ==> s[i] != '\n' }

  lemma {:induction false} LinesOfLine(s: string)
    requires OneLine(s)
    ensures LinesOf(s) == [s]
  {
    if s != "" {
      LinesOfLine(s[1..]);
      assert s == [s[0]] + s[1..];
    }
  }

  lemma {:induction false} LinesCut(w: string, t: string)
    requires OneLine(w)
    ensures LinesOf(w + ("\n" + t)) == [w] + LinesOf(t)
  {
    if w == "" {
      assert w + ("\n" + t) == "\n" + t;
      assert ("\n" + t)[1..] == t;
    } else {
      LinesCut(w[1..], t);
      assert (w + ("\n" + t))[1..] == w[1..] + ("\n" + t);
      assert w == [w[0]] + w[1..];
      assert ([w[1..]] + LinesOf(t))[1..] == LinesOf(t);
    }
  }

  lemma {:induction false} LinesOfJoin(ls: seq<string>)
    requires ls != [] && forall i :: 0 <= i < |ls| ==> OneLine(ls[i])
    ensures LinesOf(Join(ls, "\n")) == ls
  {
    if |ls| == 1 {
      LinesOfLine(ls[0]);
    } else {
      var rest := Join(ls[1..], "\n");
      LinesOfJoin(ls[1..]);
      Assoc(ls[0], "\n", rest);
      LinesCut(ls[0], rest);
      assert ls == [ls[0]] + ls[1..];
    }
  }

  lemma {:induction false} JoinLinesOf(s: string)
    ensures Join(LinesOf(s), "\n") == s
  {
    if s != "" {
      JoinLinesOf(s[1..]);
      var r := LinesOf(s[1..]);
      assert s == [s[0]] + s[1..];
      if s[0] == '\n' {
        assert ([""] + r)[1..] == r;
        assert "" + "\n" + Join(r, "\n") == "\n" + Join(r, "\n");
      } else {
        JoinHead(s[0], r);
      }
    }
  }

  lemma JoinHead(c: char, r: seq<string>)
    requires r != []
    ensures Join([[c] + r[0]] + r[1..], "\n") == [c] + Join(r, "\n")
  {
    var x := [[c] + r[0]] + r[1..];
    assert x[1..] == r[1..];
    if |r| > 1 {
      Assoc([c], r[0] + "\n", Join(r[1..], "\n"));
      Assoc([c], r[0], "\n");
    }
  }

  lemma {:induction false} SplitLinesNoBoundary(s: string)
    ensures forall l :: l in SplitLines(s) ==> NoBoundary(l)
    decreases |s|
  {
    if s != "" {
      var n := RunLen(s, NotBoundary);
      if n < |s| {
        var skip := if s[n] == '\r' && n + 1 < |s| && s[n + 1] == '\n' then 2 else 1;
        SplitLinesNoBoundary(s[n + skip..]);
      }
    }
  }

  lemma {:induction false} CleanLinesGood(digit: char -> bool, ls: seq<string>)
    requires forall l :: l in ls ==> NoBoundary(l)
    ensures forall i :: 0 <= i < |CleanLines(digit, ls)| ==> GoodLine(digit, CleanLines(digit, ls)[i])
  {
    hide GoodLine, IsPageLine, CleanLine, NoBoundary;
    if ls != [] {
      CleanLinesGood(digit, ls[1..]);
      if !IsPageLine(digit, ls[0]) {
        CleanLineGood(digit, ls[0]);
      }
    }
  }

  lemma GoodIsOneLine(digit: char -> bool, l: string)
    requires GoodLine(digit, l)
    ensures OneLine(l)
  {
    assert IsBoundary('\n');
  }

  lemma JoinedAllGood(digit: char -> bool, ls: seq<string>)
    requires forall i :: 0 <= i < |ls| ==> GoodLine(digit, ls[i])
    ensures AllGood(digit, Join(ls, "\n"))
  {
    hide GoodLine, OneLine;
    if ls == [] {
      EmptyLineGood(digit);
      assert LinesOf("") == [""];
    } else {
      forall i | 0 <= i < |ls| ensures OneLine(ls[i]) {
        GoodIsOneLine(digit, ls[i]);
      }
      LinesOfJoin(ls);
    }
  }

  // -- squeezing

  /** The lines of `k` newlines followed by `t`. */
  lemma {:induction false} NewlineRun(run: string, t: string)
    requires forall i :: 0 <= i < |run| ==> run[i] == '\n'
    ensures |LinesOf(run + t)| == |run| + |LinesOf(t)|
    ensures forall i :: 0 <= i < |run| ==> LinesOf(run + t)[i] == ""
    ensures LinesOf(run + t)[|run|..] == LinesOf(t)
  {
    if run == "" {
      assert run + t == t;
    } else {
      assert (run + t)[1..] == run[1..] + t;
      NewlineRun(run[1..], t);
      var r := LinesOf(run[1..] + t);
      assert LinesOf(run + t) == [""] + r;
      assert ([""] + r)[|run|..] == r[|run| - 1..];
    }
  }

  ghost predicate Among(xs: seq<string>, ys: seq<string>) { forall x :: x in xs ==> x in ys }

  /** Squeezing keeps the first line and invents no other. */
  lemma {:induction false} SqueezeLines(s: string)
    ensures LinesOf(Squeeze(s))[0] == LinesOf(s)[0]
    ensures Among(LinesOf(Squeeze(s))[1..], LinesOf(s)[1..])
    decreases |s|
  {
    if s == "" {
    } else if s[0] != '\n' {
      SqueezeLines(s[1..]);
      var t := Squeeze(s[1..]);
      assert ([s[0]] + t)[1..] == t;
    } else {
      var n := RunLen(s, IsNewline);
      var run, rest := s[..n], s[n..];
      SqueezeLines(rest);
      assert s == run + rest;
      SqueezeRun(run, rest);
    }
  }

  lemma AmongWhole(x: seq<string>, y: seq<string>)
    requires x != [] && y != [] && y[0] == x[0] && Among(y[1..], x[1..])
    ensures Among(y, x)
  {
    forall l | l in y ensures l in x {
      if l != y[0] {
        var i :| 0 <= i < |y| && y[i] == l;
        assert y[1..][i - 1] == l;
        assert l in x[1..];
      }
    }
  }

  /** `b` starts with blank lines and goes on with `y`, `a` likewise with `x`. */
  lemma AmongTails(a: seq<string>, n: nat, x: seq<string>, b: seq<string>, m: nat, y: seq<string>)
    requires 2 <= n <= |a| && m <= |b| && a[n..] == x && b[m..] == y && Among(y, x)
    requires (forall i :: 0 <= i < n ==> a[i] == "") && (forall i :: 0 <= i < m ==> b[i] == "")
    requires b != []
    ensures Among(b[1..], a[1..])
  {
    assert a[1..][0] == "";
    forall l | l in b[1..] ensures l in a[1..] {
      var i :| 0 <= i < |b[1..]| && b[1..][i] == l;
      if i + 1 >= m {
        assert l == y[i + 1 - m];
        assert l in x;
        var j :| 0 <= j < |x| && x[j] == l;
        assert a[1..][n + j - 1] == l;
      }
    }
  }

  lemma SqueezeRun(run: string, rest: string)
    requires run != "" && forall i :: 0 <= i < |run| ==> run[i] == '\n'
    requires LinesOf(Squeeze(rest))[0] == LinesOf(rest)[0]
    requires Among(LinesOf(Squeeze(rest))[1..], LinesOf(rest)[1..])
    ensures var kept := if |run| >= 3 then "\n\n" else run;
            && LinesOf(kept + Squeeze(rest))[0] == LinesOf(run + rest)[0]
            && Among(LinesOf(kept + Squeeze(rest))[1..], LinesOf(run + rest)[1..])
  {
    hide Squeeze, LinesOf, Among;
    var kept := if |run| >= 3 then "\n\n" else run;
    var x, y := LinesOf(rest), LinesOf(Squeeze(rest));
    NewlineRun(run, rest);
    NewlineRun(kept, Squeeze(rest));
    AmongWhole(x, y);
    var a, b := LinesOf(run + rest), LinesOf(kept + Squeeze(rest));
    if |run| >= 2 {
      AmongTails(a, |run|, x, b, |kept|, y);
    }
  }

  lemma SqueezeAllGood(digit: char -> bool, s: string)
    requires AllGood(digit, s)
    ensures AllGood(digit, Squeeze(s))
  {
    hide GoodLine, Squeeze, LinesOf;
    SqueezeLines(s);
    var a, b := LinesOf(Squeeze(s)), LinesOf(s);
    forall l | l in a ensures GoodLine(digit, l) {
      var i :| 0 <= i < |a| && a[i] == l;
      if i == 0 {
        assert b[0] in b;
      } else {
        assert a[1..][i - 1] == l;
        assert l in b[1..];
      }
    }
  }

  lemma NoTripleCons(c: char, s: string)
    requires NoTriple(s) && (c == '\n' && |s| >= 2 ==> !(s[0] == '\n' && s[1] == '\n'))
    ensures NoTriple([c] + s)
  {
    var t := [c] + s;
    forall i ensures !TripleAt(t, i) {
      if 0 < i < |t| - 2 {
        assert t[i] == s[i - 1] && t[i + 1] == s[i] && t[i + 2] == s[i + 1];
        assert !TripleAt(s, i - 1);
      }
    }
  }

  lemma {:induction false} SqueezeNoTriple(s: string)
    ensures NoTriple(Squeeze(s))
    ensures (s == "" || s[0] != '\n') ==> (Squeeze(s) == "" || Squeeze(s)[0] != '\n')
    decreases |s|
  {
    if s == "" {
    } else if s[0] != '\n' {
      SqueezeNoTriple(s[1..]);
      NoTripleCons(s[0], Squeeze(s[1..]));
    } else {
      var n := RunLen(s, IsNewline);
      var rest := Squeeze(s[n..]);
      SqueezeNoTriple(s[n..]);
      NoTripleCons('\n', rest);
      NoTripleCons('\n', "\n" + rest);
      assert "\n" + ("\n" + rest) == "\n\n" + rest;
      if n == 1 {
        assert s[..n] == "\n";
      } else if n == 2 {
        assert s[..n] == "\n\n";
      }
    }
  }

  lemma NoTripleInfix(a: string, s: string, b: string)
    requires NoTriple(a + s + b)
    ensures NoTriple(s)
  {
    var t := a + s + b;
    forall i ensures !TripleAt(s, i) {
      if 0 <= i < |s| - 2 {
        assert s[i] == t[|a| + i] && s[i + 1] == t[|a| + i + 1] && s[i + 2] == t[|a| + i + 2];
        assert !TripleAt(t, |a| + i);
      }
    }
  }

  lemma TripleOfRun(s: string)
    requires RunLen(s, IsNewline) >= 3
    ensures TripleAt(s, 0)
  {
    var n := RunLen(s, IsNewline);
    assert forall i :: 0 <= i < n ==> IsNewline(s[i]);
  }

  lemma ShortRun(s: string)
    requires NoTriple(s)
    ensures RunLen(s, IsNewline) <= 2
  {
    if RunLen(s, IsNewline) >= 3 {
      TripleOfRun(s);
      assert false;
    }
  }

  lemma {:induction false} SqueezeFixed(s: string)
    requires NoTriple(s)
    ensures Squeeze(s) == s
    decreases |s|
  {
    if s != "" {
      hide NoTriple;
      if s[0] != '\n' {
        assert s == [s[0]] + s[1..] + "";
        NoTripleInfix([s[0]], s[1..], "");
        SqueezeFixed(s[1..]);
      } else {
        var n := RunLen(s, IsNewline);
        ShortRun(s);
        assert s == s[..n] + s[n..] + "";
        NoTripleInfix(s[..n], s[n..], "");
        SqueezeFixed(s[n..]);
        assert s == s[..n] + s[n..];
      }
    }
  }

  // -- stripping

  lemma {:induction false} TrimLeftAllGood(digit: char -> bool, s: string)
    requires AllGood(digit, s)
    ensures AllGood(digit, TrimLeft(s, IsSpace))
  {
    if s != "" && IsSpace(s[0]) {
      FirstIsNewline(digit, s);
      var r := LinesOf(s[1..]);
      assert forall l :: l in r ==> l in [""] + r;
      TrimLeftAllGood(digit, s[1..]);
    }
  }

  lemma FirstNotSpace(digit: char -> bool, s: string)
    requires AllGood(digit, s) && s != "" && s[0] != '\n'
    ensures !IsSpace(s[0])
  {
    var l := LinesOf(s)[0];
    assert l in LinesOf(s);
    assert GoodLine(digit, l) && l[0] == s[0];
  }

  lemma FirstIsNewline(digit: char -> bool, s: string)
    requires AllGood(digit, s) && s != "" && IsSpace(s[0])
    ensures s[0] == '\n'
  {
    hide AllGood, IsSpace;
    if s[0] != '\n' {
      FirstNotSpace(digit, s);
      assert false;
    }
  }

  lemma {:induction false} LinesSnoc(s: string)
    ensures LinesOf(s + "\n") == LinesOf(s) + [""]
  {
    if s == "" {
      assert s + "\n" == "\n";
      assert "\n"[1..] == "";
    } else {
      LinesSnoc(s[1..]);
      assert (s + "\n")[1..] == s[1..] + "\n";
      var r := LinesOf(s[1..]);
      assert (r + [""])[1..] == r[1..] + [""];
    }
  }

  lemma {:induction false} LinesLast(s: string)
    requires s != "" && s[|s| - 1] != '\n'
    ensures Last(LinesOf(s)) != "" && Last(Last(LinesOf(s))) == s[|s| - 1]
  {
    if |s| > 1 {
      LinesLast(s[1..]);
      assert s[1..][|s| - 2] == s[|s| - 1];
    } else {
      assert s[1..] == "";
    }
  }

  lemma {:induction false} TrimRightAllGood(digit: char -> bool, s: string)
    requires AllGood(digit, s)
    ensures AllGood(digit, TrimRight(s, IsSpace))
  {
    hide LinesOf;
    if s != "" && IsSpace(s[|s| - 1]) {
      LastIsNewline(digit, s);
      var u := s[..|s| - 1];
      assert s == u + "\n";
      LinesSnoc(u);
      assert forall l :: l in LinesOf(u) ==> l in LinesOf(u) + [""];
      TrimRightAllGood(digit, u);
    }
  }

  lemma LastNotSpace(digit: char -> bool, s: string)
    requires AllGood(digit, s) && s != "" && s[|s| - 1] != '\n'
    ensures !IsSpace(s[|s| - 1])
  {
    hide LinesOf, IsPageLine, Collapsed, NoBoundary;
    LinesLast(s);
    assert Last(LinesOf(s)) in LinesOf(s);
    assert GoodLine(digit, Last(LinesOf(s)));
  }

  lemma LastIsNewline(digit: char -> bool, s: string)
    requires AllGood(digit, s) && s != "" && IsSpace(s[|s| - 1])
    ensures s[|s| - 1] == '\n'
  {
    hide AllGood, IsSpace;
    if s[|s| - 1] != '\n' {
      LastNotSpace(digit, s);
      assert false;
    }
  }

  // -- the results

  /** Cleaning any text yields clean text. */
  lemma CleanedIsClean(digit: char -> bool, text: string)
    ensures IsClean(digit, Cleaned(digit, text))
  {
    hide GoodLine, AllGood, NoTriple, Strip;
    var ls := CleanLines(digit, SplitLines(text));
    var squeezed := Squeeze(Join(ls, "\n"));
    SplitLinesNoBoundary(text);
    CleanLinesGood(digit, SplitLines(text));
    JoinedAllGood(digit, ls);
    SqueezeAllGood(digit, Join(ls, "\n"));
    SqueezeNoTriple(Join(ls, "\n"));
    StripIsTrim(squeezed);
    TrimLeftAllGood(digit, squeezed);
    TrimRightAllGood(digit, TrimLeft(squeezed, IsSpace));
    var left, right := TrimFacts(squeezed, IsSpace);
    NoTripleInfix(left, Strip(squeezed), right);
    TrimTight(squeezed, IsSpace);
  }

  lemma GoodNotPage(digit: char -> bool, l: string)
    requires GoodLine(digit, l)
    ensures !IsPageLine(digit, l)
  {
  }

  lemma {:induction false} CleanLinesFixed(digit: char -> bool, ls: seq<string>)
    requires forall l :: l in ls ==> GoodLine(digit, l)
    ensures CleanLines(digit, ls) == ls
  {
    hide GoodLine, CleanLine, IsPageLine;
    if ls != [] {
      assert ls[0] in ls;
      GoodLineFixed(digit, ls[0]);
      GoodNotPage(digit, ls[0]);
      CleanLinesFixed(digit, ls[1..]);
      assert ls == [ls[0]] + ls[1..];
    }
  }

  lemma {:induction false} SplitLinesIsLinesOf(s: string)
    requires s != "" && s[|s| - 1] != '\n'
    requires forall i :: 0 <= i < |s| ==> (IsBoundary(s[i]) ==> s[i] == '\n')
    ensures SplitLines(s) == LinesOf(s)
    decreases |s|
  {
    var n := RunLen(s, NotBoundary);
    if n == |s| {
      assert OneLine(s) by { assert IsBoundary('\n'); }
      LinesOfLine(s);
    } else {
      var w, t := s[..n], s[n + 1..];
      assert s[n] == '\n';
      assert OneLine(w) by { assert IsBoundary('\n'); }
      assert s == w + ("\n" + t);
      SplitLinesIsLinesOf(t);
      LinesCut(w, t);
    }
  }

  lemma {:induction false} GoodBoundaries(digit: char -> bool, s: string)
    requires forall l :: l in LinesOf(s) ==> NoBoundary(l)
    ensures forall i :: 0 <= i < |s| ==> (IsBoundary(s[i]) ==> s[i] == '\n')
  {
    if s != "" {
      var r := LinesOf(s[1..]);
      if s[0] == '\n' {
        assert forall l :: l in r ==> l in [""] + r;
        GoodBoundaries(digit, s[1..]);
      } else {
        var l0 := [s[0]] + r[0];
        assert l0 in LinesOf(s);
        assert l0[0] == s[0] && NoBoundary(l0);
        forall l | l in r ensures NoBoundary(l) {
          if l == r[0] {
            assert forall i :: 0 <= i < |l| ==> l[i] == l0[i + 1];
          } else {
            assert l in r[1..];
          }
        }
        GoodBoundaries(digit, s[1..]);
      }
    }
  }

  /** Clean text is left alone. */
  lemma CleanIsFixed(digit: char -> bool, s: string)
    requires IsClean(digit, s)
    ensures Cleaned(digit, s) == s
  {
    hide GoodLine, Squeeze;
    if s == "" {
      EmptyFixed(digit);
    } else {
      forall l | l in LinesOf(s) ensures NoBoundary(l) {
        GoodNoBoundary(digit, l);
      }
      GoodBoundaries(digit, s);
      assert IsSpace('\n');
      hide LinesOf, SplitLines, NoTriple, Strip;
      SplitLinesIsLinesOf(s);
      CleanLinesFixed(digit, LinesOf(s));
      JoinLinesOf(s);
      SqueezeFixed(s);
      StripIsTrim(s);
      TrimFixed(s, IsSpace);
    }
  }

  lemma GoodNoBoundary(digit: char -> bool, l: string)
    requires GoodLine(digit, l)
    ensures NoBoundary(l)
  {
  }

  lemma EmptyFixed(digit: char -> bool)
    ensures Cleaned(digit, "") == ""
  {
    assert SplitLines("") == [];
  }

  /** Cleaning is idempotent, and the texts it leaves alone are exactly the clean ones. */
  lemma CleanIdempotent(digit: char -> bool, text: string)
    ensures Cleaned(digit, Cleaned(digit, text)) == Cleaned(digit, text)
    ensures Cleaned(digit, text) == text <==> IsClean(digit, text)
  {
    hide *;
    CleanedIsClean(digit, text);
    CleanIsFixed(digit, Cleaned(digit, text));
    if IsClean(digit, text) {
      CleanIsFixed(digit, text);
    }
  }

  // ---- documents ------------------------------------------------------------------------

  datatype Page = Page(number: int, text: string)

  datatype Document = Document(filename: string, contentType: string, pages: seq<Page>, metadata: map<string, string>)

  function CleanPages(digit: char -> bool, pages: seq<Page>): seq<Page> {
    if pages == [] then []
    else
      var text := Cleaned(digit, pages[0].text);
      (if text != "" then [Page(pages[0].number, text)] else []) + CleanPages(digit, pages[1..])
  }

  function CleanDocument(digit: char -> bool, doc: Document): Document {
    Document(doc.filename, doc.contentType, CleanPages(digit, doc.pages),
             map k | k in doc.metadata && doc.metadata[k] != "" :: doc.metadata[k])
  }

  lemma {:induction false} CleanPagesFacts(digit: char -> bool, pages: seq<Page>)
    ensures forall i :: 0 <= i < |CleanPages(digit, pages)| ==>
              CleanPages(digit, pages)[i].text != "" && IsClean(digit, CleanPages(digit, pages)[i].text)
    ensures CleanPages(digit, CleanPages(digit, pages)) == CleanPages(digit, pages)
  {
    hide Cleaned, IsClean;
    if pages != [] {
      CleanPagesFacts(digit, pages[1..]);
      CleanIdempotent(digit, pages[0].text);
      CleanedIsClean(digit, pages[0].text);
      var rest := CleanPages(digit, pages[1..]);
      var head := Page(pages[0].number, Cleaned(digit, pages[0].text));
      assert ([head] + rest)[1..] == rest;
      assert [] + rest == rest;
    }
  }

  /** Cleaning a document twice is cleaning it once; no page is left empty. */
  lemma CleanDocumentIdempotent(digit: char -> bool, doc: Document)
    ensures CleanDocument(digit, CleanDocument(digit, doc)) == CleanDocument(digit, doc)
    ensures forall i :: 0 <= i < |CleanDocument(digit, doc).pages| ==> CleanDocument(digit, doc).pages[i].text != ""
  {
    hide Cleaned, IsClean, CleanPages;
    CleanPagesFacts(digit, doc.pages);
    var once := CleanDocument(digit, doc).metadata;
    assert (map k | k in once && once[k] != "" :: once[k]) == once;
  }
}
