/** What the Markdown blocks show, read off the lines: which lines are what, and what is left
    of each once its marker is taken away. */
module MarkdownMeaning {
  import opened Collections
  import opened Text
  import opened Markdown

  // ---- line shapes ---------------------------------------------------------------------

  ghost predicate Spaces(s: string) { forall i :: 0 <= i < |s| ==> IsJsSpace(s[i]) }

  /** Text behind a gap: the gap took all the white space there was. */
  predicate Begins(t: string) { t == "" || !IsJsSpace(t[0]) }

  /** White space, a bullet, a gap, the item. */
  ghost predicate BulletParts(l: string, lead: string, mark: char, gap: string, item: string) {
    l == lead + ([mark] + (gap + item)) && Spaces(lead) && (mark == '-' || mark == '*')
    && gap != "" && Spaces(gap) && Begins(item)
  }

  /** White space, digits, a full stop, a gap, the item. */
  ghost predicate NumParts(l: string, lead: string, digits: string, gap: string, item: string) {
    && l == lead + (digits + ("." + (gap + item))) && Spaces(lead)
    && digits != "" && (forall i :: 0 <= i < |digits| ==> '0' <= digits[i] <= '9')
    && gap != "" && Spaces(gap) && Begins(item)
  }

  lemma {:induction false} TrimOver(g: string, t: string)
    requires Spaces(g) && Begins(t)
    ensures Trimmed(g + t) == t
  {
    if g == "" {
      AppendNilLeft(t);
    } else {
      assert (g + t)[1..] == g[1..] + t && (g + t)[0] == g[0];
      TrimOver(g[1..], t);
    }
  }

  lemma TrimParts(l: string) returns (lead: string)
    ensures l == lead + Trimmed(l) && Spaces(lead) && Begins(Trimmed(l))
    ensures l != "" && IsJsSpace(l[0]) ==> lead != ""
  {
    lead := GapOf(l);
  }

  /** The bullet pattern matches a line, leaving `item`, exactly if it divides so. */
  lemma BulletItemIff(l: string, item: string)
    ensures BulletItem(l) == Some(item) <==> exists lead, mark, gap :: BulletParts(l, lead, mark, gap, item)
  {
    if BulletItem(l) == Some(item) {
      var lead := TrimParts(l);
      var t := Trimmed(l);
      var gap := TrimParts(t[1..]);
      assert t[1..][0] == t[1];
      assert t == [t[0]] + (gap + item);
      assert BulletParts(l, lead, t[0], gap, item);
    }
    if lead, mark, gap :| BulletParts(l, lead, mark, gap, item) {
      var t := [mark] + (gap + item);
      TrimOver(lead, t);
      assert t[1..] == gap + item && t[1] == gap[0];
      TrimOver(gap, item);
    }
  }

  lemma NumItemIff(l: string, item: string)
    ensures NumItem(l) == Some(item) <==> exists lead, digits, gap :: NumParts(l, lead, digits, gap, item)
  {
    if NumItem(l) == Some(item) {
      var lead, digits, gap := NumDivided(l, item);
    }
    if lead, digits, gap :| NumParts(l, lead, digits, gap, item) {
      NumMatched(l, lead, digits, gap, item);
    }
  }

  lemma NumDivided(l: string, item: string) returns (lead: string, digits: string, gap: string)
    requires NumItem(l) == Some(item)
    ensures NumParts(l, lead, digits, gap, item)
  {
    lead := TrimParts(l);
    var t := Trimmed(l);
    var n := RunLen(t, AsciiDigit);
    digits := t[..n];
    forall i | 0 <= i < |digits| ensures '0' <= digits[i] <= '9' {
      assert AsciiDigit(t[i]);
    }
    gap := TrimParts(t[n + 1..]);
    assert t[n + 1..][0] == t[n + 1];
    assert t == digits + ("." + t[n + 1..]);
  }

  lemma NumMatched(l: string, lead: string, digits: string, gap: string, item: string)
    requires NumParts(l, lead, digits, gap, item)
    ensures NumItem(l) == Some(item)
  {
    var n, t := |digits|, digits + ("." + (gap + item));
    forall i | 0 <= i < n ensures AsciiDigit(t[i]) {
      assert t[i] == digits[i];
    }
    assert t[n] == '.' && t[n + 1] == gap[0] && t[n + 1..] == gap + item;
    assert t[0] == digits[0];
    TrimOver(lead, t);
    RunLenIs(t, AsciiDigit, n);
    TrimOver(gap, item);
  }

  /** The heading pattern matches with `n` hashes and this title exactly if the line divides so. */
  lemma HeadingIs(l: string, n: nat, title: string)
    ensures HeadingMatch(l) == Some((n, title)) <==>
            exists h, g :: HeadingParts(l, h, g, title) && |h| == n && Begins(title)
  {
    if HeadingMatch(l) == Some((n, title)) {
      var h, g, t := MatchParts(l);
      HashCount(l, h, g, t);
      TrimmedBegins(l[n..]);
      var gap := TrimParts(l[n..]);
      assert l[n..][0] == l[n];
      assert l == l[..n] + l[n..];
      Assoc(l[..n], gap, title);
      assert forall i :: 0 <= i < n ==> IsHash(l[i]);
      assert HeadingParts(l, l[..n], gap, title);
    }
    if h, g :| HeadingParts(l, h, g, title) && |h| == n && Begins(title) {
      PartsMatch(l, h, g, title);
      HashCount(l, h, g, title);
      assert l[n..] == g + title;
      TrimOver(g, title);
    }
  }

  lemma HashCount(l: string, h: string, g: string, t: string)
    requires HeadingParts(l, h, g, t)
    ensures RunLen(l, IsHash) == |h|
  {
    assert forall i :: 0 <= i < |h| ==> l[i] == h[i];
    assert l[|h|] == g[0];
    RunLenIs(l, IsHash, |h|);
  }

  lemma TrimmedBegins(s: string)
    ensures Begins(Trimmed(s))
  {
  }

  // ---- what a segment's block shows ------------------------------------------------------------

  /** The block of the lines [lo, hi), by kind. Nodes spell their text: see `InlineRebuilds`. */
  ghost predicate Shows(lines: seq<string>, s: Segment, b: Block)
    requires s.lo < s.hi <= |lines|
  {
    match s.kind
    case BlankKind => false
    case HeadingKind =>
      b.Heading? && exists h, g, t ::
        HeadingParts(lines[s.lo], h, g, t) && Begins(t) && b.level == |h| + 1 && Spells(b.title, t)
    case BulletKind =>
      && b.Bullets? && |b.items| == s.hi - s.lo
      && forall m :: 0 <= m < |b.items| ==> BulletShows(lines[s.lo + m], b.items[m])
    case NumKind =>
      && b.Numbers? && |b.items| == s.hi - s.lo
      && forall m :: 0 <= m < |b.items| ==> NumShows(lines[s.lo + m], b.items[m])
    case ParaKind => b.Paragraph? && Spells(b.text, Join(lines[s.lo..s.hi], " "))
  }

  /** The nodes are the tiling of the text by tokens and the stretches between them. */
  ghost predicate Spells(nodes: seq<Inline>, t: string) { Tiles(nodes, t, 0) && Sources(nodes) == t }

  ghost predicate BulletShows(l: string, item: seq<Inline>) {
    exists lead, mark, gap, t :: BulletParts(l, lead, mark, gap, t) && Spells(item, t)
  }

  ghost predicate NumShows(l: string, item: seq<Inline>) {
    exists lead, digits, gap, t :: NumParts(l, lead, digits, gap, t) && Spells(item, t)
  }

  lemma Spelled(t: string)
    ensures Spells(NodesFrom(t, 0), t)
  {
    InlineRebuilds(t);
  }

  lemma BulletShown(l: string)
    requires IsBullet(l)
    ensures BulletShows(l, NodesFrom(BulletItem(l).value, 0))
  {
    var t := BulletItem(l).value;
    hide BulletItem, Spells, BulletParts, NodesFrom;
    BulletItemIff(l, t);
    Spelled(t);
    var lead, mark, gap :| BulletParts(l, lead, mark, gap, t);
  }

  lemma NumShown(l: string)
    requires IsNum(l)
    ensures NumShows(l, NodesFrom(NumItem(l).value, 0))
  {
    var t := NumItem(l).value;
    hide NumItem, Spells, NumParts, NodesFrom;
    NumItemIff(l, t);
    Spelled(t);
    var lead, digits, gap :| NumParts(l, lead, digits, gap, t);
  }

  lemma {:induction false} ItemAt(lines: seq<string>, lo: nat, hi: nat, item: string -> Option<string>, m: nat)
    requires lo + m < hi <= |lines| && item(lines[lo + m]).Some?
    ensures ItemsOf(lines, lo, hi, item)[m] == NodesFrom(item(lines[lo + m]).value, 0)
    decreases hi
  {
    hide NodesFrom;
    if lo + m < hi - 1 {
      ItemAt(lines, lo, hi - 1, item, m);
    }
  }

  lemma BlockShows(lines: seq<string>, s: Segment)
    requires SegmentOk(lines, s) && Unstuck(lines) && !s.kind.BlankKind?
    ensures |RenderSegment(lines, s)| == 1 && Shows(lines, s, RenderSegment(lines, s)[0])
  {
    assert KindOf(lines[s.lo]) == s.kind && !Stuck(lines[s.lo]);
    hide *;
    match s.kind {
      case HeadingKind => HeadingShown(lines, s);
      case BulletKind => BulletsShown(lines, s);
      case NumKind => NumbersShown(lines, s);
      case ParaKind => ParagraphShown(lines, s);
    }
  }

  lemma HeadingShown(lines: seq<string>, s: Segment)
    requires s.lo < s.hi <= |lines| && s.kind.HeadingKind? && KindOf(lines[s.lo]) == s.kind
    ensures |RenderSegment(lines, s)| == 1 && Shows(lines, s, RenderSegment(lines, s)[0])
  {
    hide HeadingMatch, HeadingParts, Spells, NodesFrom, IsBlankLine, IsBullet, IsNum;
    var l := lines[s.lo];
    var (n, title) := HeadingMatch(l).value;
    HeadingIs(l, n, title);
    Spelled(title);
    var h, g :| HeadingParts(l, h, g, title) && |h| == n && Begins(title);
    AtMostFour(l, h, g, title);
    assert RenderSegment(lines, s)[0] == Heading(n + 1, NodesFrom(title, 0));
  }

  lemma AtMostFour(l: string, h: string, g: string, t: string)
    requires HeadingParts(l, h, g, t)
    ensures 1 <= |h| <= 4
  {
  }

  lemma BulletsShown(lines: seq<string>, s: Segment)
    requires SegmentOk(lines, s) && s.kind.BulletKind?
    ensures |RenderSegment(lines, s)| == 1 && Shows(lines, s, RenderSegment(lines, s)[0])
  {
    hide IsBlankLine, HeadingMatch, BulletShows, NodesFrom, BulletItem, IsNum;
    forall m | 0 <= m < s.hi - s.lo
      ensures BulletShows(lines[s.lo + m], ItemsOf(lines, s.lo, s.hi, BulletItem)[m])
    {
      assert KindOf(lines[s.lo + m]) == s.kind;
      BulletShown(lines[s.lo + m]);
      ItemAt(lines, s.lo, s.hi, BulletItem, m);
    }
  }

  lemma NumbersShown(lines: seq<string>, s: Segment)
    requires SegmentOk(lines, s) && s.kind.NumKind?
    ensures |RenderSegment(lines, s)| == 1 && Shows(lines, s, RenderSegment(lines, s)[0])
  {
    hide IsBlankLine, HeadingMatch, NumShows, NodesFrom, IsBullet, NumItem;
    forall m | 0 <= m < s.hi - s.lo
      ensures NumShows(lines[s.lo + m], ItemsOf(lines, s.lo, s.hi, NumItem)[m])
    {
      assert KindOf(lines[s.lo + m]) == s.kind;
      NumShown(lines[s.lo + m]);
      ItemAt(lines, s.lo, s.hi, NumItem, m);
    }
  }

  lemma ParagraphShown(lines: seq<string>, s: Segment)
    requires s.lo < s.hi <= |lines| && s.kind.ParaKind?
    ensures |RenderSegment(lines, s)| == 1 && Shows(lines, s, RenderSegment(lines, s)[0])
  {
    hide NodesFrom, Spells, Join;
    Spelled(Join(lines[s.lo..s.hi], " "));
  }

  // ---- which lines are what ------------------------------------------------------------------------

  ghost predicate IsHeadingLine(l: string) { exists h, g, t :: HeadingParts(l, h, g, t) }

  ghost predicate IsBulletLine(l: string) {
    exists lead, mark, gap, t :: BulletParts(l, lead, mark, gap, t)
  }

  ghost predicate IsNumLine(l: string) {
    exists lead, digits, gap, t :: NumParts(l, lead, digits, gap, t)
  }

  /** The kinds, in order of precedence. */
  lemma KindIs(l: string)
    ensures KindOf(l) == if Spaces(l) then BlankKind else if IsHeadingLine(l) then HeadingKind
                         else if IsBulletLine(l) then BulletKind else if IsNumLine(l) then NumKind else ParaKind
  {
    hide HeadingMatch, HeadingParts, BulletParts, NumParts, BulletItem, NumItem;
    TrimBlank(l, IsJsSpace);
    HeadingMatchIff(l);
    BulletLine(l);
    NumLine(l);
  }

  lemma BulletLine(l: string)
    ensures IsBullet(l) <==> IsBulletLine(l)
  {
    hide BulletParts, BulletItem;
    if IsBullet(l) {
      BulletItemIff(l, BulletItem(l).value);
    }
    if lead, mark, gap, t :| BulletParts(l, lead, mark, gap, t) {
      BulletItemIff(l, t);
    }
  }

  lemma NumLine(l: string)
    ensures IsNum(l) <==> IsNumLine(l)
  {
    hide NumParts, NumItem;
    if IsNum(l) {
      NumItemIff(l, NumItem(l).value);
    }
    if lead, digits, gap, t :| NumParts(l, lead, digits, gap, t) {
      NumItemIff(l, t);
    }
  }

  // ---- the whole text ---------------------------------------------------------------------------------

  /** Block by block: nothing for a blank line, one block for every other segment, in order. */
  ghost predicate AllShown(lines: seq<string>, segs: seq<Segment>, blocks: seq<Block>)
    requires forall i :: 0 <= i < |segs| ==> segs[i].lo < segs[i].hi <= |lines|
  {
    if segs == [] then blocks == []
    else if segs[0].kind.BlankKind? then AllShown(lines, segs[1..], blocks)
    else blocks != [] && Shows(lines, segs[0], blocks[0]) && AllShown(lines, segs[1..], blocks[1..])
  }

  lemma {:induction false} SegmentsShown(lines: seq<string>, segs: seq<Segment>, i: nat)
    requires Unstuck(lines) && Partition(lines, segs, i)
    ensures forall m :: 0 <= m < |segs| ==> segs[m].lo < segs[m].hi <= |lines|
    ensures AllShown(lines, segs, RenderAll(lines, segs))
    decreases |segs|
  {
    hide Unstuck, Shows, KindOf;
    if segs != [] {
      var s, rest := segs[0], segs[1..];
      SegmentsShown(lines, rest, s.hi);
      HeadTail(segs);
      if s.kind.BlankKind? {
        AppendNilLeft(RenderAll(lines, rest));
      } else {
        BlockShows(lines, s);
        var b := RenderSegment(lines, s);
        assert (b + RenderAll(lines, rest))[1..] == RenderAll(lines, rest);
      }
    }
  }

  /** The lines are the text without carriage returns, cut at every newline. */
  lemma LinesAre(text: string)
    ensures Join(LinesIn(text), "\n") == Filter((c: char) => c != '\r', text)
    ensures forall i :: 0 <= i < |LinesIn(text)| ==> '\n' !in LinesIn(text)[i]
  {
    JoinSplit(WithoutCr(text), "\n");
    FilteredCr(text);
    NoNewlineLeft(WithoutCr(text));
  }

  lemma {:induction false} FilteredCr(s: string)
    ensures WithoutCr(s) == Filter((c: char) => c != '\r', s)
  {
    if s != "" {
      FilteredCr(s[1..]);
    }
  }

  lemma {:induction false} NoNewlineLeft(s: string)
    ensures forall i :: 0 <= i < |SplitOn(s, "\n")| ==> '\n' !in SplitOn(s, "\n")[i]
    decreases |s|
  {
    var k := IndexOf(s, "\n");
    if k >= 0 {
      NoNewlineLeft(s[k + 1..]);
      BeforeFirst(s, k);
    } else {
      BeforeFirst(s, |s|);
      assert s[..|s|] == s;
    }
  }

  lemma BeforeFirst(s: string, k: nat)
    requires k <= |s| && forall j :: 0 <= j < k ==> !At(s, "\n", j)
    ensures '\n' !in s[..k]
  {
    forall j | 0 <= j < k ensures s[j] != '\n' {
      assert !At(s, "\n", j);
      assert s[j..j + 1] == [s[j]];
    }
  }

  /** Whatever text is rendered: its lines partition into segments, and the blocks show
      the segments in order. */
  lemma RenderShows(text: string)
    requires Unstuck(LinesIn(text))
    ensures var lines := LinesIn(text);
            var segs := Segments(lines, 0);
            && Partition(lines, segs, 0)
            && (forall m :: 0 <= m < |segs| ==> segs[m].lo < segs[m].hi <= |lines|)
            && AllShown(lines, segs, RenderFrom(lines, 0))
  {
    hide *;
    var lines := LinesIn(text);
    SegmentsPartition(lines, 0);
    SegmentsShown(lines, Segments(lines, 0), 0);
    RenderIsSegments(lines, 0);
  }
}
