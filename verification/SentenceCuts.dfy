/** Where sentences are cut. */
module SentenceCuts {
  import opened Collections
  import opened Text
  import opened WindowChunkers

  /** Inside a sentence no white space follows a full stop, exclamation or question mark. */
  predicate Uncut(s: string) {
    forall j :: 0 < j < |s| && IsSpace(s[j]) ==> s[j - 1] != '.' && s[j - 1] != '!' && s[j - 1] != '?'
  }

  predicate EndsIt(s: string) { s != "" && (s[|s| - 1] == '.' || s[|s| - 1] == '!' || s[|s| - 1] == '?') }

  function Weave(ss: seq<string>, gaps: seq<string>): string
    requires |ss| == |gaps| + 1
  {
    if gaps == [] then ss[0] else ss[0] + (gaps[0] + Weave(ss[1..], gaps[1..]))
  }

  predicate Whole(s: string) { s != "" && Tight(s, IsSpace) && Uncut(s) }

  predicate Gap(g: string) { g != "" && forall i :: 0 <= i < |g| ==> IsSpace(g[i]) }

  /** The text is its sentences with white space between them, and every sentence but the
      last ends in a full stop, exclamation or question mark. */
  predicate Cuts(text: string, ss: seq<string>, gaps: seq<string>) {
    && |ss| == |gaps| + 1 && Weave(ss, gaps) == text
    && (forall i :: 0 <= i < |ss| ==> Whole(ss[i]))
    && (forall i :: 0 <= i < |gaps| ==> Gap(gaps[i]) && EndsIt(ss[i]))
  }

  lemma CutsCons(p: string, g: string, text: string, ss: seq<string>, gaps: seq<string>)
    requires Whole(p) && EndsIt(p) && Gap(g) && Cuts(text, ss, gaps)
    ensures Cuts(p + (g + text), [p] + ss, [g] + gaps)
  {
    hide Whole, EndsIt, Gap;
    assert ([p] + ss)[1..] == ss && ([g] + gaps)[1..] == gaps;
  }

  lemma {:induction false} PartsCut(part: string, s: string) returns (gaps: seq<string>)
    requires part + s != "" && Tight(part + s, IsSpace) && Uncut(part)
    ensures Cuts(part + s, SentenceParts(part, s), gaps)
    decreases |s|
  {
    var all := part + s;
    if s == "" {
      AppendNil(part, s);
      gaps := [];
    } else if IsSpace(s[0]) && part != "" && EndsSentence(part[|part| - 1]) {
      var g := TrimLeftCut(s, IsSpace);
      var t := TrimLeft(s, IsSpace);
      RestTight(part, g, s, t);
      var more := PartsCut("", t);
      AppendNilLeft(t);
      gaps := [g] + more;
      PartWhole(part, s);
      CutsCons(part, g, t, SentenceParts("", t), more);
    } else {
      MovesOn(part, s);
      gaps := PartsCut(part + [s[0]], s[1..]);
    }
  }

  lemma RestTight(part: string, g: string, s: string, t: string)
    requires s != "" && Tight(part + s, IsSpace) && IsSpace(s[0])
    requires s == g + t && t == TrimLeft(s, IsSpace) && forall i :: 0 <= i < |g| ==> IsSpace(g[i])
    ensures Gap(g) && t != "" && Tight(t, IsSpace) && |t| < |s|
  {
    var all := part + s;
    assert all[|all| - 1] == s[|s| - 1];
    assert t == "" ==> s == g;
  }

  lemma PartWhole(part: string, s: string)
    requires part != "" && Tight(part + s, IsSpace) && Uncut(part) && EndsSentence(part[|part| - 1])
    ensures Whole(part) && EndsIt(part)
  {
    assert (part + s)[0] == part[0];
  }

  lemma MovesOn(part: string, s: string)
    requires s != "" && Tight(part + s, IsSpace) && Uncut(part)
    requires !(IsSpace(s[0]) && part != "" && EndsSentence(part[|part| - 1]))
    ensures part + s == (part + [s[0]]) + s[1..] && Uncut(part + [s[0]])
  {
    var more := part + [s[0]];
    forall j | 0 < j < |more| && IsSpace(more[j])
      ensures more[j - 1] != '.' && more[j - 1] != '!' && more[j - 1] != '?'
    {
      if j < |part| {
        assert more[j] == part[j] && more[j - 1] == part[j - 1];
      }
    }
  }

  lemma {:induction false} WholeStays(ss: seq<string>)
    requires forall i :: 0 <= i < |ss| ==> Whole(ss[i])
    ensures NonBlank(ss) == ss
  {
    if ss != [] {
      WholeStays(ss[1..]);
      TrimFixed(ss[0], IsSpace);
    }
  }

  /** The sentences of a text are cut exactly at the white space that follows a full stop,
      exclamation or question mark; a blank text has none. */
  lemma SentencesCut(text: string) returns (gaps: seq<string>)
    ensures Strip(text) == "" ==> SplitSentences(text) == []
    ensures Strip(text) != "" ==> Cuts(Strip(text), SplitSentences(text), gaps)
  {
    gaps := [];
    var x := Strip(text);
    TrimTight(text, IsSpace);
    if x == "" {
      BlankHasNone();
    } else {
      hide Strip, Tight;
      AppendNilLeft(x);
      gaps := PartsCut("", x);
      WholeStays(SentenceParts("", x));
    }
  }

  lemma BlankHasNone()
    ensures NonBlank(SentenceParts("", "")) == []
  {
    assert SentenceParts("", "") == [""];
    assert [""][1..] == [];
    TrimFixed("", IsSpace);
  }
}
