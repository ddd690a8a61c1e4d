/** The minimal Markdown renderer: inline tokens and the block loop over lines. */
module Markdown {
  import opened Collections
  import opened Text

  // ---- inline tokens ------------------------------------------------------------

  datatype Inline = Plain(s: string) | Strong(s: string) | Code(s: string) {
    /** The stretch of text this node was made from. */
    function Source(): string {
      match this
      case Plain(s) => s
      case Strong(s) => "**" + s + "**"
      case Code(s) => "`" + s + "`"
    }
  }

  predicate NotStar(c: char) { c != '*' }

  predicate NotTick(c: char) { c != '`' }

  /** Text of the token pattern's two shapes, delimiters included. */
  predicate IsToken(t: string) {
    || (|t| >= 5 && "**" <= t && t[|t| - 2..] == "**" && forall i :: 2 <= i < |t| - 2 ==> NotStar(t[i]))
    || (|t| >= 3 && t[0] == '`' && t[|t| - 1] == '`' && forall i :: 1 <= i < |t| - 1 ==> NotTick(t[i]))
  }

  /** Length of the match of `\*\*[^*]+\*\*` or `` `[^`]+` `` at `p`, 0 when there is none. */
  function MatchLen(text: string, p: nat): (n: nat)
    requires p <= |text|
    ensures p + n <= |text|
    ensures n > 0 ==> n >= 3
  {
    var s := text[p..];
    if "**" <= s then
      var n := RunLen(s[2..], NotStar);
      if n >= 1 && n + 4 <= |s| && s[n + 2] == '*' && s[n + 3] == '*' then n + 4 else 0
    else if "`" <= s then
      var n := RunLen(s[1..], NotTick);
      if n >= 1 && n + 2 <= |s| then n + 2 else 0
    else 0
  }

  /** A match has the shape of a token. */
  lemma MatchIsToken(text: string, p: nat)
    requires p <= |text| && MatchLen(text, p) > 0
    ensures IsToken(text[p..p + MatchLen(text, p)])
  {
    var s, len := text[p..], MatchLen(text, p);
    var t := text[p..p + len];
    assert t == s[..len];
    if "**" <= s {
      assert forall i :: 2 <= i < len - 2 ==> t[i] == s[2..][i - 2];
    } else {
      assert s[1..][len - 2] == '`';
      assert forall i :: 1 <= i < len - 1 ==> t[i] == s[1..][i - 1];
    }
  }

  /** Where a token starts the match is that token, so the test is exact. */
  lemma TokenIsMatched(text: string, p: nat, len: nat)
    requires p + len <= |text| && IsToken(text[p..p + len])
    ensures MatchLen(text, p) == len
  {
    var s, t := text[p..], text[p..p + len];
    assert t == s[..len];
    if "**" <= s {
      var body := s[2..];
      assert t[len - 2..][0] == t[len - 2] && t[len - 2..][1] == t[len - 1];
      assert body[len - 4] == t[len - 2];
      assert forall i :: 0 <= i < len - 4 ==> body[i] == t[i + 2];
      RunLenIs(body, NotStar, len - 4);
    } else {
      var body := s[1..];
      assert body[len - 2] == t[len - 1];
      assert forall i :: 0 <= i < len - 2 ==> body[i] == t[i + 1];
      RunLenIs(body, NotTick, len - 2);
    }
  }

  /** The node a token becomes: `slice(2, -2)` or `slice(1, -1)`. */
  function NodeOf(tok: string): (r: Inline)
    requires |tok| >= 3
  {
    if "**" <= tok && |tok| >= 4 then Strong(tok[2..|tok| - 2]) else Code(tok[1..|tok| - 1])
  }

  lemma NodeSource(tok: string)
    requires IsToken(tok)
    ensures NodeOf(tok).Source() == tok && !NodeOf(tok).Plain?
  {
    if "**" <= tok {
      Between(tok, 2);
      assert tok[..2] == "**";
    } else {
      Between(tok, 1);
      assert tok[..1] == "`" && tok[|tok| - 1..] == "`";
    }
  }

  lemma Between(t: string, n: nat)
    requires 2 * n <= |t|
    ensures t == t[..n] + t[n..|t| - n] + t[|t| - n..]
  {
  }

  /** `re.exec`: the leftmost match from `p` on, |text| when there is none. */
  function NextMatch(text: string, p: nat): (k: nat)
    requires p <= |text|
    ensures p <= k <= |text| && (k < |text| ==> MatchLen(text, k) > 0)
    ensures forall q :: p <= q < k ==> MatchLen(text, q) == 0
    decreases |text| - p
  {
    if p == |text| || MatchLen(text, p) > 0 then p else NextMatch(text, p + 1)
  }

  function TokenAt(text: string, k: nat): string
    requires k <= |text|
  {
    text[k..k + MatchLen(text, k)]
  }

  /** The node starting at `last`: a token if the pattern matches there, else plain
      text up to the next match. */
  function NodeAt(text: string, last: nat): Inline
    requires last < |text|
  {
    if MatchLen(text, last) > 0 then NodeOf(TokenAt(text, last)) else Plain(text[last..NextMatch(text, last)])
  }

  function NodeEnd(text: string, last: nat): (end: nat)
    requires last < |text|
    ensures last < end <= |text|
  {
    if MatchLen(text, last) > 0 then last + MatchLen(text, last) else NextMatch(text, last)
  }

  /** The nodes for the text from `last` on. */
  function NodesFrom(text: string, last: nat): seq<Inline>
    requires last <= |text|
    decreases |text| - last
  {
    if last == |text| then [] else [NodeAt(text, last)] + NodesFrom(text, NodeEnd(text, last))
  }

  lemma NodesStep(text: string, last: nat)
    requires last < |text|
    ensures NodesFrom(text, last) == [NodeAt(text, last)] + NodesFrom(text, NodeEnd(text, last))
  {
  }

  lemma NoNodes(text: string)
    ensures NodesFrom(text, |text|) == []
  {
  }

  method InlineMd(text: string) returns (nodes: seq<Inline>)
    ensures nodes == NodesFrom(text, 0)
  {
    hide *;
    nodes := [];
    var last := 0;
    var m := NextMatch(text, last);
    while m < |text|
      invariant 0 <= last <= |text| && m == NextMatch(text, last)
      invariant nodes + NodesFrom(text, last) == NodesFrom(text, 0)
      decreases |text| - last
    {
      if m > last {
        NodesStep(text, last);
        GapNode(text, last);
        Assoc(nodes, [Plain(text[last..m])], NodesFrom(text, m));
        nodes := nodes + [Plain(text[last..m])];
      }
      var tok := TokenAt(text, m);
      TokenNode(text, m);
      NodesStep(text, m);
      Assoc(nodes, [NodeOf(tok)], NodesFrom(text, m + |tok|));
      nodes := nodes + [NodeOf(tok)];
      last := m + |tok|;
      m := NextMatch(text, last);
    }
    NoNodes(text);
    if last < |text| {
      NodesStep(text, last);
      GapNode(text, last);
      assert text[last..|text|] == text[last..];
      nodes := nodes + [Plain(text[last..])];
    }
  }

  lemma TokenNode(text: string, m: nat)
    requires m < |text| && MatchLen(text, m) > 0
    ensures |TokenAt(text, m)| == MatchLen(text, m) && NodeEnd(text, m) == m + |TokenAt(text, m)|
    ensures NodeAt(text, m) == NodeOf(TokenAt(text, m))
  {
  }

  lemma GapNode(text: string, last: nat)
    requires last < |text| && NextMatch(text, last) > last
    ensures NodeAt(text, last) == Plain(text[last..NextMatch(text, last)])
    ensures NodeEnd(text, last) == NextMatch(text, last)
  {
  }

  function Sources(nodes: seq<Inline>): string {
    if nodes == [] then "" else nodes[0].Source() + Sources(nodes[1..])
  }

  /** A node stands for the stretch [at, end): a token the pattern matches there, or
      plain text in which it matches nowhere, reaching to the next match or the end. */
  ghost predicate Fits(n: Inline, text: string, at: nat, end: nat) {
    && at < end <= |text| && n.Source() == text[at..end]
    && (if n.Plain? then
          (forall q :: at <= q < end ==> MatchLen(text, q) == 0) && (end == |text| || MatchLen(text, end) > 0)
        else MatchLen(text, at) == end - at)
  }

  /** The nodes cut the text from `at` on, without gap or overlap. */
  ghost predicate Tiles(nodes: seq<Inline>, text: string, at: nat) {
    if nodes == [] then at == |text|
    else Fits(nodes[0], text, at, at + |nodes[0].Source()|)
         && Tiles(nodes[1..], text, at + |nodes[0].Source()|)
  }

  lemma NodeFits(text: string, last: nat)
    requires last < |text|
    ensures Fits(NodeAt(text, last), text, last, NodeEnd(text, last))
    ensures last + |NodeAt(text, last).Source()| == NodeEnd(text, last)
  {
    hide MatchLen, NodeOf, IsToken;
    if MatchLen(text, last) > 0 {
      MatchIsToken(text, last);
      NodeSource(TokenAt(text, last));
    }
  }

  lemma {:induction false} NodesTile(text: string, last: nat)
    requires last <= |text|
    ensures Tiles(NodesFrom(text, last), text, last)
    decreases |text| - last
  {
    hide Fits, NodeAt, NodeEnd;
    if last < |text| {
      var n, end := NodeAt(text, last), NodeEnd(text, last);
      NodeFits(text, last);
      NodesTile(text, end);
      assert ([n] + NodesFrom(text, end))[1..] == NodesFrom(text, end);
    }
  }

  lemma {:induction false} TilesSources(nodes: seq<Inline>, text: string, at: nat)
    requires at <= |text| && Tiles(nodes, text, at)
    ensures Sources(nodes) == text[at..]
    decreases |nodes|
  {
    hide *;
    if nodes == [] {
      TilesNothing(text, at);
    } else {
      TilesHead(nodes, text, at);
      FitsStretch(nodes[0], text, at, at + |nodes[0].Source()|);
      TilesSources(nodes[1..], text, at + |nodes[0].Source()|);
      SourcesCons(nodes);
    }
  }

  lemma TilesNothing(text: string, at: nat)
    requires at <= |text| && Tiles([], text, at)
    ensures Sources([]) == text[at..] && at == |text|
  {
  }

  lemma TilesHead(nodes: seq<Inline>, text: string, at: nat)
    requires nodes != [] && Tiles(nodes, text, at)
    ensures Fits(nodes[0], text, at, at + |nodes[0].Source()|)
    ensures Tiles(nodes[1..], text, at + |nodes[0].Source()|)
  {
    hide Fits;
  }

  lemma SourcesCons(nodes: seq<Inline>)
    requires nodes != []
    ensures Sources(nodes) == nodes[0].Source() + Sources(nodes[1..])
  {
  }

  lemma FitsStretch(n: Inline, text: string, at: nat, end: nat)
    requires Fits(n, text, at, end)
    ensures at < end <= |text| && text[at..] == n.Source() + text[end..]
  {
    assert text[at..] == text[at..end] + text[end..];
  }

  lemma NextMatchIs(text: string, p: nat, k: nat)
    requires p <= k <= |text| && (k < |text| ==> MatchLen(text, k) > 0)
    requires forall q :: p <= q < k ==> MatchLen(text, q) == 0
    ensures NextMatch(text, p) == k
  {
    hide MatchLen;
  }

  /** Only one node fits at a position. */
  lemma FitsUnique(n: Inline, text: string, at: nat, end: nat)
    requires Fits(n, text, at, end)
    ensures at < |text| && n == NodeAt(text, at) && end == NodeEnd(text, at)
  {
    hide MatchLen, NodeOf, IsToken;
    if n.Plain? {
      NextMatchIs(text, at, end);
    } else {
      MatchIsToken(text, at);
      NodeSource(TokenAt(text, at));
      SameSource(n, NodeOf(TokenAt(text, at)));
    }
  }

  /** There is only one such cutting, the one the loop makes. */
  lemma {:induction false} TilesUnique(nodes: seq<Inline>, text: string, at: nat)
    requires at <= |text| && Tiles(nodes, text, at)
    ensures nodes == NodesFrom(text, at)
    decreases |nodes|
  {
    hide *;
    if nodes == [] {
      TilesNothing(text, at);
      NoNodes(text);
    } else {
      var end := at + |nodes[0].Source()|;
      TilesHead(nodes, text, at);
      FitsUnique(nodes[0], text, at, end);
      TilesUnique(nodes[1..], text, end);
      NodesStep(text, at);
      HeadTail(nodes);
    }
  }

  lemma SameSource(a: Inline, b: Inline)
    requires !a.Plain? && !b.Plain? && a.Source() == b.Source() && IsToken(b.Source())
    ensures a == b
  {
    var s := a.Source();
    assert a.Strong? ==> s[0] == '*';
    assert a.Code? ==> s[0] == '`';
    assert b.Strong? ==> s[0] == '*';
    assert b.Code? ==> s[0] == '`';
    if a.Strong? {
      assert a.s == s[2..|s| - 2] && b.s == s[2..|s| - 2];
    } else {
      assert a.s == s[1..|s| - 1] && b.s == s[1..|s| - 1];
    }
  }

  /** The segments of the tokenising loop tile their input exactly. */
  lemma InlineRebuilds(text: string)
    ensures Tiles(NodesFrom(text, 0), text, 0) && Sources(NodesFrom(text, 0)) == text
  {
    NodesTile(text, 0);
    TilesSources(NodesFrom(text, 0), text, 0);
  }

  // ---- line shapes -----------------------------------------------------------------

  function Trimmed(l: string): string { TrimLeft(l, IsJsSpace) }

  predicate IsBlankLine(l: string) { Trim(l, IsJsSpace) == "" }

  /** `/^\s*[-*]\s+/`: what is left after the bullet. */
  function BulletItem(l: string): Option<string> {
    var t := Trimmed(l);
    if |t| >= 2 && (t[0] == '-' || t[0] == '*') && IsJsSpace(t[1]) then Some(Trimmed(t[1..])) else None
  }

  predicate IsBullet(l: string) { BulletItem(l).Some? }

  /** `/^\s*\d+\.\s+/`: what is left after the number. */
  function NumItem(l: string): Option<string> {
    var t := Trimmed(l);
    var n := RunLen(t, AsciiDigit);
    if n >= 1 && n + 2 <= |t| && t[n] == '.' && IsJsSpace(t[n + 1]) then Some(Trimmed(t[n + 1..])) else None
  }

  predicate IsNum(l: string) { NumItem(l).Some? }

  predicate IsHash(c: char) { c == '#' }

  /** `/^#{1,4}\s+/` */
  predicate IsHeading(l: string) {
    var n := RunLen(l, IsHash);
    1 <= n <= 4 && n < |l| && IsJsSpace(l[n])
  }

  /** What `.` does not match. */
  predicate IsLineTerminator(c: char) {
    c == '\n' || c == '\r' || c as int == 0x2028 || c as int == 0x2029
  }

  predicate DotAll(s: string) { forall i :: 0 <= i < |s| ==> !IsLineTerminator(s[i]) }

  /** `/^(#{1,4})\s+(.*)$/`: number of hashes and title. */
  function HeadingMatch(l: string): Option<(nat, string)> {
    var n := RunLen(l, IsHash);
    if IsHeading(l) && DotAll(Trimmed(l[n..])) then Some((n, Trimmed(l[n..]))) else None
  }

  /** A division of the line that the heading pattern allows. */
  ghost predicate HeadingParts(l: string, hashes: string, gap: string, title: string) {
    && l == hashes + gap + title
    && 1 <= |hashes| <= 4 && (forall i :: 0 <= i < |hashes| ==> hashes[i] == '#')
    && gap != "" && (forall i :: 0 <= i < |gap| ==> IsJsSpace(gap[i]))
    && DotAll(title)
  }

  /** The pattern, backtracking included, matches exactly when the greedy reading does. */
  lemma HeadingMatchIff(l: string)
    ensures HeadingMatch(l).Some? <==> exists h, g, t :: HeadingParts(l, h, g, t)
  {
    hide HeadingMatch, HeadingParts;
    if HeadingMatch(l).Some? {
      var h, g, t := MatchParts(l);
    }
    if h, g, t :| HeadingParts(l, h, g, t) {
      PartsMatch(l, h, g, t);
    }
  }

  lemma MatchParts(l: string) returns (h: string, g: string, t: string)
    requires HeadingMatch(l).Some?
    ensures HeadingParts(l, h, g, t)
  {
    hide Trimmed, TrimLeft;
    var n := RunLen(l, IsHash);
    h, t := l[..n], Trimmed(l[n..]);
    g := GapOf(l[n..]);
    assert l[n..][0] == l[n];
    assert l == h + l[n..];
    Assoc(h, g, t);
    assert forall i :: 0 <= i < n ==> h[i] == l[i];
  }

  lemma GapOf(s: string) returns (g: string)
    ensures s == g + Trimmed(s) && (forall i :: 0 <= i < |g| ==> IsJsSpace(g[i]))
    ensures s != "" && IsJsSpace(s[0]) ==> g != ""
  {
    g := TrimLeftCut(s, IsJsSpace);
  }

  lemma PartsMatch(l: string, h: string, g: string, t: string)
    requires HeadingParts(l, h, g, t)
    ensures HeadingMatch(l).Some?
  {
    var n := |h|;
    assert forall i :: 0 <= i < n ==> l[i] == h[i];
    assert l[n] == g[0] && !IsHash(g[0]);
    RunLenIs(l, IsHash, n);
    assert l[n..] == g + t;
    var r := Trimmed(l[n..]);
    TrimPast(g, t);
    forall i | 0 <= i < |r| ensures !IsLineTerminator(r[i]) {
      assert r[i] == t[|t| - |r| + i];
    }
  }

  /** Trimming white space and more cuts at least the white space. */
  lemma {:induction false} TrimPast(g: string, t: string)
    requires forall i :: 0 <= i < |g| ==> IsJsSpace(g[i])
    ensures Trimmed(g + t) == Trimmed(t) && |Trimmed(t)| <= |t| && Trimmed(t) == t[|t| - |Trimmed(t)|..]
  {
    if g == "" {
      assert g + t == t;
      TrimLeftSuffix(t, IsJsSpace);
    } else {
      assert (g + t)[1..] == g[1..] + t;
      TrimPast(g[1..], t);
    }
  }

  // ---- the block loop --------------------------------------------------------------------

  datatype Block =
    | Heading(level: nat, title: seq<Inline>)
    | Bullets(items: seq<seq<Inline>>)
    | Numbers(items: seq<seq<Inline>>)
    | Paragraph(text: seq<Inline>)

  predicate IsPara(l: string) { !IsBlankLine(l) && !IsBullet(l) && !IsNum(l) && !IsHeading(l) }

  /** A line that reads as a heading when a paragraph must stop, but not when a
      heading is to be rendered. */
  predicate Stuck(l: string) { IsHeading(l) && HeadingMatch(l).None? }

  /** First line from `i` on for which `p` fails. */
  function RunEnd(lines: seq<string>, i: nat, p: string -> bool): (j: nat)
    requires i <= |lines|
    ensures i <= j <= |lines| && (j < |lines| ==> !p(lines[j]))
    ensures forall m :: i <= m < j ==> p(lines[m])
    decreases |lines| - i
  {
    if i == |lines| || !p(lines[i]) then i else RunEnd(lines, i + 1, p)
  }

  /** Where one round of the block loop leaves the line counter. */
  function Next(lines: seq<string>, i: nat): (j: nat)
    requires i < |lines|
    ensures i <= j <= |lines|
  {
    var l := lines[i];
    if IsBlankLine(l) || HeadingMatch(l).Some? then i + 1
    else if IsBullet(l) then RunEnd(lines, i, IsBullet)
    else if IsNum(l) then RunEnd(lines, i, IsNum)
    else RunEnd(lines, i, IsPara)
  }

  lemma HeadingIsNothingElse(l: string)
    requires IsHeading(l)
    ensures !IsBlankLine(l) && !IsBullet(l) && !IsNum(l)
  {
    assert l[0] == '#' && !IsJsSpace(l[0]);
    TrimBlank(l, IsJsSpace);
    assert Trimmed(l) == l;
  }

  /** A round moves on exactly when the line it starts at is not stuck. */
  lemma Progress(lines: seq<string>, i: nat)
    requires i < |lines|
    ensures Next(lines, i) > i <==> !Stuck(lines[i])
  {
    hide IsBlankLine, IsBullet, IsNum;
    if IsHeading(lines[i]) {
      HeadingIsNothingElse(lines[i]);
    }
  }

  /** No round moves past a stuck line. */
  lemma StuckStops(lines: seq<string>, i: nat, s: nat)
    requires i <= s < |lines| && Stuck(lines[s])
    ensures Next(lines, i) <= s
  {
    hide *;
    StuckIsNothing(lines[s]);
    if i < s {
      RunStops(lines, i, s);
      NextIs(lines, i);
    } else {
      Progress(lines, i);
    }
  }

  lemma StuckIsNothing(l: string)
    requires Stuck(l)
    ensures !IsBlankLine(l) && !IsBullet(l) && !IsNum(l) && !IsPara(l)
  {
    HeadingIsNothingElse(l);
  }

  lemma RunStops(lines: seq<string>, i: nat, s: nat)
    requires i <= s < |lines| && !IsBullet(lines[s]) && !IsNum(lines[s]) && !IsPara(lines[s])
    ensures RunEnd(lines, i, IsBullet) <= s && RunEnd(lines, i, IsNum) <= s && RunEnd(lines, i, IsPara) <= s
  {
    hide IsBullet, IsNum, IsPara, RunEnd;
  }

  lemma NextIs(lines: seq<string>, i: nat)
    requires i < |lines|
    ensures Next(lines, i) == i + 1 || Next(lines, i) == RunEnd(lines, i, IsBullet)
            || Next(lines, i) == RunEnd(lines, i, IsNum) || Next(lines, i) == RunEnd(lines, i, IsPara)
  {
    hide IsBullet, IsNum, IsPara, RunEnd, IsBlankLine, HeadingMatch;
  }

  /** The line counter after `n` rounds of the loop. */
  function Rounds(lines: seq<string>, n: nat): (i: nat)
    ensures i <= |lines|
  {
    if n == 0 then 0
    else
      var i := Rounds(lines, n - 1);
      if i < |lines| then Next(lines, i) else i
  }

  lemma {:induction false} StuckForever(lines: seq<string>, s: nat, n: nat)
    requires s < |lines| && Stuck(lines[s])
    ensures Rounds(lines, n) <= s
  {
    hide Stuck, Next;
    if n > 0 {
      StuckForever(lines, s, n - 1);
      StuckStops(lines, Rounds(lines, n - 1), s);
    }
  }

  lemma {:induction false} MovesOn(lines: seq<string>, n: nat)
    requires forall i :: 0 <= i < |lines| ==> !Stuck(lines[i])
    ensures Rounds(lines, n) >= n || Rounds(lines, n) == |lines|
  {
    hide Stuck, Next;
    if n > 0 {
      MovesOn(lines, n - 1);
      var i := Rounds(lines, n - 1);
      if i < |lines| {
        Progress(lines, i);
      }
    }
  }

  /** The block loop comes to the end of the lines exactly when no line is stuck. */
  lemma TerminatesIff(lines: seq<string>)
    ensures (exists n :: Rounds(lines, n) == |lines|) <==> (forall i :: 0 <= i < |lines| ==> !Stuck(lines[i]))
  {
    hide Stuck, Next;
    if s :| 0 <= s < |lines| && Stuck(lines[s]) {
      forall n: nat ensures Rounds(lines, n) != |lines| {
        StuckForever(lines, s, n);
      }
    } else {
      MovesOn(lines, |lines|);
    }
  }

  /** Without the line separators U+2028 and U+2029 (and the removed carriage returns)
      a line cannot be stuck. */
  lemma PlainLineNotStuck(l: string)
    requires DotAll(l)
    ensures !Stuck(l)
  {
    if IsHeading(l) {
      var n := RunLen(l, IsHash);
      var t := Trimmed(l[n..]);
      TrimLeftSuffix(l[n..], IsJsSpace);
      forall i | 0 <= i < |t| ensures !IsLineTerminator(t[i]) {
        assert t[i] == l[n..][|l[n..]| - |t| + i];
        assert l[n..][|l[n..]| - |t| + i] == l[n + (|l[n..]| - |t| + i)];
      }
    }
  }

  /** The failing input: a heading whose title contains U+2028. */
  lemma SeparatorSticks()
    ensures Stuck("# a\U{2028}b")
    ensures forall n :: Rounds(["# a\U{2028}b"], n) == 0
  {
    hide *;
    SeparatorLine();
    forall n: nat ensures Rounds(["# a\U{2028}b"], n) == 0 {
      StuckForever(["# a\U{2028}b"], 0, n);
    }
  }

  lemma SeparatorLine()
    ensures Stuck("# a\U{2028}b")
  {
    var l, t := "# a\U{2028}b", "a\U{2028}b";
    RunLenIs(l, IsHash, 1);
    assert l[1..] == " " + t;
    SpaceTrims(t);
    assert IsLineTerminator(t[1]);
  }

  lemma SpaceTrims(t: string)
    requires t != "" && !IsJsSpace(t[0])
    ensures Trimmed(" " + t) == t
  {
    assert (" " + t)[1..] == t;
    TrimLeftDrops(" " + t, IsJsSpace);
    TrimLeftStays(t, IsJsSpace);
  }

  // ---- segments -----------------------------------------------------------------------------

  datatype Kind = BlankKind | HeadingKind | BulletKind | NumKind | ParaKind

  /** The lines [lo, hi) that one round handles. */
  datatype Segment = Segment(kind: Kind, lo: nat, hi: nat)

  function KindOf(l: string): Kind {
    if IsBlankLine(l) then BlankKind
    else if HeadingMatch(l).Some? then HeadingKind
    else if IsBullet(l) then BulletKind
    else if IsNum(l) then NumKind
    else ParaKind
  }

  ghost predicate Unstuck(lines: seq<string>) { forall i :: 0 <= i < |lines| ==> !Stuck(lines[i]) }

  ghost function Segments(lines: seq<string>, i: nat): seq<Segment>
    requires i <= |lines| && Unstuck(lines)
    decreases |lines| - i
  {
    if i == |lines| then []
    else
      Progress(lines, i);
      [Segment(KindOf(lines[i]), i, Next(lines, i))] + Segments(lines, Next(lines, i))
  }

  /** A segment holds lines of its kind only; blank lines and headings stand alone,
      lists and paragraphs go on as long as they can. */
  ghost predicate SegmentOk(lines: seq<string>, s: Segment) {
    && s.lo < s.hi <= |lines|
    && (forall m :: s.lo <= m < s.hi ==> KindOf(lines[m]) == s.kind)
    && (if s.kind.BlankKind? || s.kind.HeadingKind? then s.hi == s.lo + 1
        else s.hi == |lines| || KindOf(lines[s.hi]) != s.kind)
  }

  /** The segments follow each other from `i` to the end of the lines; two neighbouring
      lists or paragraphs are of different kinds, so each is a maximal run. */
  ghost predicate Partition(lines: seq<string>, segs: seq<Segment>, i: nat) {
    if segs == [] then i == |lines|
    else segs[0].lo == i && SegmentOk(lines, segs[0]) && Partition(lines, segs[1..], segs[0].hi)
  }

  lemma KindsOf(l: string)
    requires !Stuck(l)
    ensures KindOf(l).BulletKind? <==> IsBullet(l)
    ensures KindOf(l).NumKind? <==> IsNum(l)
    ensures KindOf(l).ParaKind? <==> IsPara(l)
    ensures KindOf(l).HeadingKind? <==> IsHeading(l)
  {
    if IsHeading(l) {
      HeadingIsNothingElse(l);
    }
    if IsBullet(l) || IsNum(l) {
      TrimmedNotBlank(l);
    }
    assert AsciiDigit('-') == false && AsciiDigit('*') == false;
  }

  lemma TrimmedNotBlank(l: string)
    requires Trimmed(l) != ""
    ensures !IsBlankLine(l)
  {
    if IsBlankLine(l) {
      TrimBlank(l, IsJsSpace);
      TrimLeftAll(l, IsJsSpace);
    }
  }

  lemma NextSegment(lines: seq<string>, i: nat)
    requires i < |lines| && Unstuck(lines)
    ensures SegmentOk(lines, Segment(KindOf(lines[i]), i, Next(lines, i)))
  {
    hide IsBlankLine, IsBullet, IsNum, IsHeading, HeadingMatch, IsPara, Stuck;
    forall m | 0 <= m < |lines| ensures
        && (KindOf(lines[m]).BulletKind? <==> IsBullet(lines[m])) && (KindOf(lines[m]).NumKind? <==> IsNum(lines[m]))
        && (KindOf(lines[m]).ParaKind? <==> IsPara(lines[m]))
    {
      KindsOf(lines[m]);
    }
    Progress(lines, i);
  }

  /** Every line lands in exactly one segment, in order, and non-blank lines in a
      heading, list or paragraph. */
  lemma {:induction false} SegmentsPartition(lines: seq<string>, i: nat)
    requires i <= |lines| && Unstuck(lines)
    ensures Partition(lines, Segments(lines, i), i)
    decreases |lines| - i
  {
    if i < |lines| {
      var s := Segment(KindOf(lines[i]), i, Next(lines, i));
      assert !Stuck(lines[i]);
      hide *;
      Progress(lines, i);
      NextSegment(lines, i);
      SegmentsPartition(lines, Next(lines, i));
      SegmentsStep(lines, i);
      PartitionCons(lines, s, Segments(lines, Next(lines, i)));
    }
  }

  lemma SegmentsStep(lines: seq<string>, i: nat)
    requires i < |lines| && Unstuck(lines)
    ensures Segments(lines, i) == [Segment(KindOf(lines[i]), i, Next(lines, i))] + Segments(lines, Next(lines, i))
  {
    hide KindOf, Next, Stuck;
  }

  lemma PartitionCons(lines: seq<string>, s: Segment, rest: seq<Segment>)
    requires SegmentOk(lines, s) && Partition(lines, rest, s.hi)
    ensures Partition(lines, [s] + rest, s.lo)
  {
    hide SegmentOk;
    assert ([s] + rest)[1..] == rest;
  }

  // ---- rendering --------------------------------------------------------------------------

  /** `text.replace(/\r/g, "").split("\n")` */
  function LinesIn(text: string): seq<string> { SplitOn(WithoutCr(text), "\n") }

  function WithoutCr(s: string): string {
    if s == "" then "" else (if s[0] == '\r' then "" else [s[0]]) + WithoutCr(s[1..])
  }

  /** Item texts of the lines [lo, hi), rendered. */
  function ItemsOf(lines: seq<string>, lo: nat, hi: nat, item: string -> Option<string>): (r: seq<seq<Inline>>)
    requires lo <= hi <= |lines|
    ensures |r| == hi - lo
  {
    if lo == hi then []
    else ItemsOf(lines, lo, hi - 1, item)
         + [match item(lines[hi - 1]) case Some(t) => NodesFrom(t, 0) case None => []]
  }

  /** The block of a segment; blank lines render to nothing. */
  function RenderSegment(lines: seq<string>, s: Segment): seq<Block>
    requires s.lo < s.hi <= |lines|
  {
    match s.kind
    case BlankKind => []
    case HeadingKind =>
      (match HeadingMatch(lines[s.lo])
       case Some((n, title)) => [Heading(if n + 1 < 6 then n + 1 else 6, NodesFrom(title, 0))]
       case None => [])
    case BulletKind => [Bullets(ItemsOf(lines, s.lo, s.hi, BulletItem))]
    case NumKind => [Numbers(ItemsOf(lines, s.lo, s.hi, NumItem))]
    case ParaKind => [Paragraph(NodesFrom(Join(lines[s.lo..s.hi], " "), 0))]
  }

  /** What the block loop still has to produce from line `i` on. */
  ghost function RenderFrom(lines: seq<string>, i: nat): seq<Block>
    requires i <= |lines| && Unstuck(lines)
    decreases |lines| - i
  {
    if i == |lines| then []
    else
      Progress(lines, i);
      RenderSegment(lines, Segment(KindOf(lines[i]), i, Next(lines, i))) + RenderFrom(lines, Next(lines, i))
  }

  ghost function RenderAll(lines: seq<string>, segs: seq<Segment>): seq<Block>
    requires forall i :: 0 <= i < |segs| ==> segs[i].lo < segs[i].hi <= |lines|
  {
    if segs == [] then [] else RenderSegment(lines, segs[0]) + RenderAll(lines, segs[1..])
  }

  lemma RunEndNext(lines: seq<string>, i: nat, p: string -> bool)
    requires i < |lines| && p(lines[i])
    ensures RunEnd(lines, i, p) == RunEnd(lines, i + 1, p)
  {
  }

  method ReadBullets(lines: seq<string>, i0: nat) returns (items: seq<seq<Inline>>, i: nat)
    requires i0 <= |lines|
    ensures i == RunEnd(lines, i0, IsBullet) && items == ItemsOf(lines, i0, i, BulletItem)
  {
    items, i := [], i0;
    while i < |lines| && IsBullet(lines[i])
      invariant i0 <= i <= |lines| && RunEnd(lines, i, IsBullet) == RunEnd(lines, i0, IsBullet)
      invariant items == ItemsOf(lines, i0, i, BulletItem)
      decreases |lines| - i
    {
      hide BulletItem;
      RunEndNext(lines, i, IsBullet);
      var item := BulletItem(lines[i]).value;
      var nodes := InlineMd(item);
      items := items + [nodes];
      i := i + 1;
    }
  }

  method ReadNumbers(lines: seq<string>, i0: nat) returns (items: seq<seq<Inline>>, i: nat)
    requires i0 <= |lines|
    ensures i == RunEnd(lines, i0, IsNum) && items == ItemsOf(lines, i0, i, NumItem)
  {
    items, i := [], i0;
    while i < |lines| && IsNum(lines[i])
      invariant i0 <= i <= |lines| && RunEnd(lines, i, IsNum) == RunEnd(lines, i0, IsNum)
      invariant items == ItemsOf(lines, i0, i, NumItem)
      decreases |lines| - i
    {
      hide NumItem;
      RunEndNext(lines, i, IsNum);
      var item := NumItem(lines[i]).value;
      var nodes := InlineMd(item);
      items := items + [nodes];
      i := i + 1;
    }
  }

  method ReadParagraph(lines: seq<string>, i0: nat) returns (para: seq<string>, i: nat)
    requires i0 <= |lines|
    ensures i == RunEnd(lines, i0, IsPara) && para == lines[i0..i]
  {
    hide *;
    para, i := [], i0;
    while i < |lines| && !IsBlankLine(lines[i]) && !IsBullet(lines[i]) && !IsNum(lines[i]) && !IsHeading(lines[i])
      invariant i0 <= i <= |lines| && RunEnd(lines, i, IsPara) == RunEnd(lines, i0, IsPara)
      invariant para == lines[i0..i]
      decreases |lines| - i
    {
      ParaIs(lines[i]);
      RunEndNext(lines, i, IsPara);
      SliceSnoc(lines, i0, i);
      para := para + [lines[i]];
      i := i + 1;
    }
    if i < |lines| {
      ParaIs(lines[i]);
    }
    RunEndHere(lines, i, IsPara);
  }

  lemma ParaIs(l: string)
    ensures IsPara(l) <==> !IsBlankLine(l) && !IsBullet(l) && !IsNum(l) && !IsHeading(l)
  {
  }

  lemma SliceSnoc<T>(xs: seq<T>, lo: nat, hi: nat)
    requires lo <= hi < |xs|
    ensures xs[lo..hi + 1] == xs[lo..hi] + [xs[hi]]
  {
  }

  lemma RunEndHere(lines: seq<string>, i: nat, p: string -> bool)
    requires i <= |lines| && (i < |lines| ==> !p(lines[i]))
    ensures RunEnd(lines, i, p) == i
  {
  }

  /** The blocks one round adds. */
  function RoundBlocks(lines: seq<string>, i: nat): seq<Block>
    requires i < |lines| && Next(lines, i) > i
  {
    RenderSegment(lines, Segment(KindOf(lines[i]), i, Next(lines, i)))
  }

  lemma RenderStep(lines: seq<string>, i: nat, blocks: seq<Block>)
    requires i < |lines| && Unstuck(lines)
    ensures Next(lines, i) > i
    ensures blocks + RenderFrom(lines, i)
         == (blocks + RoundBlocks(lines, i)) + RenderFrom(lines, Next(lines, i))
  {
    hide RenderSegment, KindOf, Next, Stuck;
    Progress(lines, i);
    Assoc(blocks, RoundBlocks(lines, i), RenderFrom(lines, Next(lines, i)));
  }

  /** What a round does, case by case in the order of the loop body. */
  lemma RoundCases(lines: seq<string>, i: nat)
    requires i < |lines| && Next(lines, i) > i
    ensures var l := lines[i];
            if IsBlankLine(l) then Next(lines, i) == i + 1 && RoundBlocks(lines, i) == []
            else if HeadingMatch(l).Some? then
              var (n, title) := HeadingMatch(l).value;
              Next(lines, i) == i + 1
              && RoundBlocks(lines, i) == [Heading(if n + 1 < 6 then n + 1 else 6, NodesFrom(title, 0))]
            else if IsBullet(l) then
              Next(lines, i) == RunEnd(lines, i, IsBullet)
              && RoundBlocks(lines, i) == [Bullets(ItemsOf(lines, i, Next(lines, i), BulletItem))]
            else if IsNum(l) then
              Next(lines, i) == RunEnd(lines, i, IsNum)
              && RoundBlocks(lines, i) == [Numbers(ItemsOf(lines, i, Next(lines, i), NumItem))]
            else
              Next(lines, i) == RunEnd(lines, i, IsPara)
              && RoundBlocks(lines, i) == [Paragraph(NodesFrom(Join(lines[i..Next(lines, i)], " "), 0))]
  {
    hide IsBlankLine, IsBullet, IsNum, HeadingMatch, RunEnd, ItemsOf, NodesFrom, Join;
  }

  /** The block loop; it needs that no line is stuck, for otherwise it does not end. */
  method Render(text: string) returns (blocks: seq<Block>)
    requires Unstuck(LinesIn(text))
    ensures blocks == RenderFrom(LinesIn(text), 0)
  {
    hide *;
    var lines := LinesIn(text);
    blocks := [];
    var i := 0;
    AppendNilLeft(RenderFrom(lines, 0));
    while i < |lines|
      invariant 0 <= i <= |lines|
      invariant blocks + RenderFrom(lines, i) == RenderFrom(lines, 0)
      decreases |lines| - i
    {
      RenderStep(lines, i, blocks);
      RoundCases(lines, i);
      var line := lines[i];
      if IsBlankLine(line) {
        AppendNil(blocks, RoundBlocks(lines, i));
        i := i + 1;
        continue;
      }
      var h := HeadingMatch(line);
      if h.Some? {
        var (n, title) := h.value;
        var nodes := InlineMd(title);
        blocks := blocks + [Heading(if n + 1 < 6 then n + 1 else 6, nodes)];
        i := i + 1;
        continue;
      }
      if IsBullet(line) {
        var items;
        items, i := ReadBullets(lines, i);
        blocks := blocks + [Bullets(items)];
        continue;
      }
      if IsNum(line) {
        var items;
        items, i := ReadNumbers(lines, i);
        blocks := blocks + [Numbers(items)];
        continue;
      }
      var para;
      para, i := ReadParagraph(lines, i);
      var nodes := InlineMd(Join(para, " "));
      blocks := blocks + [Paragraph(nodes)];
    }
    NothingLeft(lines);
    AppendNil(blocks, RenderFrom(lines, |lines|));
  }

  lemma NothingLeft(lines: seq<string>)
    requires Unstuck(lines)
    ensures RenderFrom(lines, |lines|) == []
  {
  }

  /** The blocks are the renderings of the segments. */
  lemma {:induction false} RenderIsSegments(lines: seq<string>, i: nat)
    requires i <= |lines| && Unstuck(lines)
    ensures forall m :: 0 <= m < |Segments(lines, i)| ==>
              Segments(lines, i)[m].lo < Segments(lines, i)[m].hi <= |lines|
    ensures RenderFrom(lines, i) == RenderAll(lines, Segments(lines, i))
    decreases |lines| - i
  {
    hide RenderSegment, KindOf, Next, Stuck;
    if i < |lines| {
      var s, rest := Segment(KindOf(lines[i]), i, Next(lines, i)), Segments(lines, Next(lines, i));
      Progress(lines, i);
      RenderIsSegments(lines, Next(lines, i));
      assert ([s] + rest)[1..] == rest;
    }
  }

  /** For a text without U+2028 and U+2029 the loop ends and every line lands in
      exactly one segment. */
  lemma PlainTextRenders(text: string)
    requires forall i :: 0 <= i < |text| ==> text[i] as int != 0x2028 && text[i] as int != 0x2029
    ensures Unstuck(LinesIn(text)) && Partition(LinesIn(text), Segments(LinesIn(text), 0), 0)
  {
    hide Partition, Stuck;
    var lines := LinesIn(text);
    CrGone(text);
    forall i | 0 <= i < |lines| ensures !Stuck(lines[i]) {
      LineChars(WithoutCr(text), i);
      PlainLineNotStuck(lines[i]);
    }
    SegmentsPartition(lines, 0);
  }

  predicate PlainChar(c: char) { c != '\r' && c as int != 0x2028 && c as int != 0x2029 }

  lemma {:induction false} CrGone(s: string)
    requires forall i :: 0 <= i < |s| ==> s[i] as int != 0x2028 && s[i] as int != 0x2029
    ensures forall i :: 0 <= i < |WithoutCr(s)| ==> PlainChar(WithoutCr(s)[i])
  {
    if s != "" {
      CrGone(s[1..]);
    }
  }

  /** A line of a text has no newline and only characters of the text. */
  lemma {:induction false} LineChars(s: string, i: nat)
    requires i < |SplitOn(s, "\n")| && forall j :: 0 <= j < |s| ==> PlainChar(s[j])
    ensures DotAll(SplitOn(s, "\n")[i])
    decreases |s|
  {
    var k := IndexOf(s, "\n");
    if k < 0 {
      NoNewlineDotAll(s, |s|);
      assert s[..|s|] == s;
    } else if i == 0 {
      NoNewlineDotAll(s, k);
    } else {
      var rest := s[k + 1..];
      assert forall j :: 0 <= j < |rest| ==> rest[j] == s[k + 1 + j];
      LineChars(s[k + 1..], i - 1);
    }
  }

  lemma NoNewlineDotAll(s: string, n: nat)
    requires n <= |s| && (forall j :: 0 <= j < |s| ==> PlainChar(s[j]))
    requires forall j :: 0 <= j < n ==> !At(s, "\n", j)
    ensures DotAll(s[..n])
  {
    forall j | 0 <= j < n ensures s[j] != '\n' {
      assert !At(s, "\n", j);
      assert s[j..j + 1] == [s[j]];
    }
  }
}
