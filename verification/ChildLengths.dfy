/** When a child chunk can be longer than the parent it was cut from. */
module ChildLengths {
  import opened Collections
  import opened Text
  import opened Chunkers

  // ---- how long a chunk of a longer text can get ------------------------------------

  /** White-space-ended separators followed by the empty one. */
  predicate SpacedSeparators(seps: seq<string>) {
    && seps != [] && seps[|seps| - 1] == ""
    && forall i :: 0 <= i < |seps| - 1 ==> EndsInSpace(seps[i])
  }

  /** What a text too long to be kept whole is cut into. */
  predicate Loose(p: string) { |p| <= 1 || EndsInSpace(p) }

  predicate AllLoose(ps: seq<string>) { forall i :: 0 <= i < |ps| ==> Loose(ps[i]) }

  lemma {:induction false} SplitLoose(t: string, seps: seq<string>, size: int)
    requires 1 <= size < |t| && SpacedSeparators(seps)
    ensures AllLoose(SplitText(t, seps, size))
    decreases |seps|, 0
  {
    PiecesLoose(Cut(t, seps[0]), seps[0], seps[1..], size);
  }

  lemma {:induction false} PiecesLoose(pieces: seq<string>, sep: string, rest: seq<string>, size: int)
    requires size >= 1
    requires if sep == "" then AllAtMost(pieces, 1) else EndsInSpace(sep) && SpacedSeparators(rest)
    ensures AllLoose(SplitPieces(pieces, sep, rest, size))
    decreases |rest|, 1 + |pieces|
  {
    if pieces != [] {
      var piece := WithSep(pieces[0], sep);
      if |piece| > size {
        SplitLoose(piece, rest, size);
      }
      PiecesLoose(pieces[1..], sep, rest, size);
    }
  }

  /** The length from which on a parent is at least as long as its children. */
  function Longest(size: int, overlap: int): int {
    if size == 1 then size + overlap else size + overlap - 1
  }

  /** At most `m` characters remain once the text is stripped. */
  predicate Within(s: string, m: int) { |s| <= m || (|s| == m + 1 && EndsInSpace(s)) }

  lemma StripWithin(s: string, m: int)
    requires Within(s, m)
    ensures |Strip(s)| <= m
  {
    var left, right := TrimFacts(s, IsSpace);
    TrimTight(s, IsSpace);
    assert |Strip(s)| == |s| ==> s == Strip(s);
  }

  lemma {:induction false} MergeWithin(pieces: seq<string>, w: Window, size: int, overlap: int, m: int)
    requires size >= 2 && overlap >= 0 && m >= size && m >= size + overlap - 1
    requires AllAtMost(pieces, size) && AllLoose(pieces) && Within(w.Text(), m)
    ensures forall i :: 0 <= i < |Merge(pieces, w, size, overlap)| ==>
              Within(Merge(pieces, w, size, overlap)[i].Text(), m)
    decreases |pieces|
  {
    if pieces != [] {
      if |w.Text()| + |pieces[0]| <= size {
        MergeWithin(pieces[1..], Window(w.carry, w.added + pieces[0]), size, overlap, m);
      } else {
        var next := Window(Carried(w.Text(), overlap), pieces[0]);
        assert Loose(pieces[0]) && |next.carry| <= overlap;
        MergeWithin(pieces[1..], next, size, overlap, m);
      }
    }
  }

  lemma {:induction false} RenderedWithin(ws: seq<Window>, m: int)
    requires forall i :: 0 <= i < |ws| ==> Within(ws[i].Text(), m)
    ensures AllAtMost(Rendered(ws), m)
  {
    hide Strip, Within;
    if ws != [] {
      RenderedWithin(ws[1..], m);
      StripWithin(ws[0].Text(), m);
    }
  }

  lemma DefaultsSpaced()
    ensures SpacedSeparators(DEFAULT_SEPARATORS) && "" in DEFAULT_SEPARATORS
  {
    DefaultsEndEmpty();
  }

  /** No child is longer than a parent that fits one child or has the length `Longest`. */
  lemma ChildFits(parent: string, childSize: int, childOverlap: int)
    requires childSize >= 1 && childOverlap >= 0
    requires |parent| <= childSize || |parent| >= Longest(childSize, childOverlap)
    ensures AllAtMost(Chunks(parent, childSize, childOverlap, DEFAULT_SEPARATORS), |parent|)
  {
    var n := |parent|;
    DefaultsSpaced();
    if n <= childSize {
      WholeChunk(parent, childSize, childOverlap, DEFAULT_SEPARATORS);
      StripNeat(parent, n);
    } else if n >= childSize + childOverlap {
      ChunksBounded(parent, childSize, childOverlap, DEFAULT_SEPARATORS);
    } else {
      SplitLoose(parent, DEFAULT_SEPARATORS, childSize);
      SplitBounded(parent, DEFAULT_SEPARATORS, childSize);
      MergeWithin(SplitText(parent, DEFAULT_SEPARATORS, childSize), Window("", ""), childSize, childOverlap, n);
      RenderedWithin(Windows(parent, childSize, childOverlap, DEFAULT_SEPARATORS), n);
    }
  }

  // ---- a window that a given piece starts ---------------------------------------------

  function Min(a: int, b: int): int { if a <= b then a else b }

  lemma MergeFull(ys: seq<string>, w: Window, size: int, overlap: int)
    requires |w.Text()| > size
    ensures Merge(ys, w, size, overlap) != [] && Merge(ys, w, size, overlap)[0] == w
  {
  }

  /** The current window ends what has been merged so far and holds as much of it as the
      overlap allows. */
  ghost predicate Holds(s: string, before: string, overlap: int) {
    IsSuffix(s, before) && |s| >= Min(|before|, overlap)
  }

  lemma CarriedHolds(s: string, before: string, overlap: int)
    requires overlap >= 0 && Holds(s, before, overlap)
    ensures IsSuffix(Carried(s, overlap), before) && |Carried(s, overlap)| == Min(|before|, overlap)
  {
    CarriedSuffix(s, overlap);
    SuffixTrans(Carried(s, overlap), s, before);
  }

  lemma HoldsAppend(s: string, before: string, p: string, overlap: int)
    requires Holds(s, before, overlap)
    ensures Holds(s + p, before + p, overlap)
  {
    SuffixAppend(s, before, p);
  }

  lemma MergeCons(p: string, ps: seq<string>, w: Window, size: int, overlap: int)
    ensures Merge([p] + ps, w, size, overlap)
         == if |w.Text()| + |p| <= size then Merge(ps, Window(w.carry, w.added + p), size, overlap)
            else [w] + Merge(ps, Window(Carried(w.Text(), overlap), p), size, overlap)
  {
    assert ([p] + ps)[1..] == ps;
  }

  /** Whatever is merged before, the window a piece overflows into carries as much of the
      text before it as the overlap allows. */
  lemma {:induction false} MergeOverflows(xs: seq<string>, z: string, ys: seq<string>, w: Window, before: string,
                                          size: int, overlap: int) returns (k: nat, c: string)
    requires overlap >= 0 && Holds(w.Text(), before, overlap)
    requires Min(|before + Flatten(xs)|, overlap) + |z| > size
    ensures k < |Merge(xs + ([z] + ys), w, size, overlap)|
    ensures Merge(xs + ([z] + ys), w, size, overlap)[k].Text() == c + z
    ensures IsSuffix(c, before + Flatten(xs)) && |c| == Min(|before + Flatten(xs)|, overlap)
    decreases |xs|
  {
    if xs == [] {
      k, c := OverflowsNow(z, ys, w, before, size, overlap);
      assert xs + ([z] + ys) == [z] + ys && Flatten(xs) == "";
      AppendNil(before, "");
    } else {
      FlattenCons(xs);
      hide *;
      var p, rest := xs[0], xs[1..];
      HeadTail(xs);
      Assoc([p], rest, [z] + ys);
      Assoc(before, p, Flatten(rest));
      MergeCons(p, rest + ([z] + ys), w, size, overlap);
      if |w.Text()| + |p| <= size {
        AddedText(w, p);
        HoldsAppend(w.Text(), before, p, overlap);
        k, c := MergeOverflows(rest, z, ys, Window(w.carry, w.added + p), before + p, size, overlap);
      } else {
        var next := Window(Carried(w.Text(), overlap), p);
        NextHolds(w, p, before, overlap);
        k, c := MergeOverflows(rest, z, ys, next, before + p, size, overlap);
        k := k + 1;
      }
    }
  }

  lemma AddedText(w: Window, p: string)
    ensures Window(w.carry, w.added + p).Text() == w.Text() + p
  {
    Assoc(w.carry, w.added, p);
  }

  lemma NextHolds(w: Window, p: string, before: string, overlap: int)
    requires overlap >= 0 && Holds(w.Text(), before, overlap)
    ensures Holds(Window(Carried(w.Text(), overlap), p).Text(), before + p, overlap)
  {
    hide Carried, IsSuffix;
    CarriedHolds(w.Text(), before, overlap);
    HoldsAppend(Carried(w.Text(), overlap), before, p, overlap);
  }

  lemma OverflowsNow(z: string, ys: seq<string>, w: Window, before: string, size: int, overlap: int)
    returns (k: nat, c: string)
    requires overlap >= 0 && Holds(w.Text(), before, overlap) && Min(|before|, overlap) + |z| > size
    ensures k < |Merge([z] + ys, w, size, overlap)| && Merge([z] + ys, w, size, overlap)[k].Text() == c + z
    ensures IsSuffix(c, before) && |c| == Min(|before|, overlap)
  {
    hide Carried, IsSuffix, Merge;
    CarriedHolds(w.Text(), before, overlap);
    var next := Window(Carried(w.Text(), overlap), z);
    k, c := 1, next.carry;
    MergeCons(z, ys, w, size, overlap);
    MergeFull(ys, next, size, overlap);
  }

  lemma {:induction false} RenderedHas(ws: seq<Window>, k: nat)
    requires k < |ws| && Strip(ws[k].Text()) != ""
    ensures Strip(ws[k].Text()) in Rendered(ws)
  {
    hide Strip;
    if k > 0 {
      RenderedHas(ws[1..], k - 1);
    }
  }

  /** The chunk that a piece overflowing its window ends up in. */
  lemma OverflowChunk(text: string, xs: seq<string>, z: string, ys: seq<string>, size: int, overlap: int)
    returns (c: string)
    requires overlap >= 0 && SplitText(text, DEFAULT_SEPARATORS, size) == xs + ([z] + ys)
    requires Min(|Flatten(xs)|, overlap) + |z| > size
    ensures IsSuffix(c, Flatten(xs)) && |c| == Min(|Flatten(xs)|, overlap)
    ensures Strip(c + z) != "" ==> Strip(c + z) in Chunks(text, size, overlap, DEFAULT_SEPARATORS)
  {
    hide Strip;
    AppendNilLeft(Flatten(xs));
    assert Holds("", "", overlap);
    var k;
    k, c := MergeOverflows(xs, z, ys, Window("", ""), "", size, overlap);
    if Strip(c + z) != "" {
      RenderedHas(Windows(text, size, overlap, DEFAULT_SEPARATORS), k);
    }
  }

  // ---- how a text without line breaks and full stops is cut ----------------------------

  lemma SplitAbsent(s: string, sep: string)
    requires sep != "" && sep[0] !in s
    ensures SplitOn(s, sep) == [s]
  {
    forall j ensures !At(s, sep, j) {
      if 0 <= j && j + |sep| <= |s| {
        assert s[j..j + |sep|][0] == s[j];
      }
    }
  }

  lemma SplitAfter(body: string, c: char, rest: string)
    requires c !in body
    ensures SplitOn(body + [c] + rest, [c]) == [body] + SplitOn(rest, [c])
  {
    var s := body + [c] + rest;
    forall j | 0 <= j < |body| ensures !At(s, [c], j) {
      assert s[j] == body[j];
      assert s[j..j + 1] == [s[j]];
    }
    assert s[|body|..|body| + 1] == [c];
    IndexOfUnique(s, [c], |body|);
    assert s[..|body|] == body && s[|body| + 1..] == rest;
  }

  lemma SplitEmpty(c: char)
    ensures SplitOn("", [c]) == [""]
  {
    SplitAbsent("", [c]);
  }

  lemma OnePiece(piece: string, sep: string, rest: seq<string>, size: int)
    requires |WithSep(piece, sep)| > size
    ensures SplitPieces([piece], sep, rest, size) == SplitText(WithSep(piece, sep), rest, size)
  {
    assert [piece][1..] == [];
  }

  lemma PiecesCons(piece: string, pieces: seq<string>, sep: string, rest: seq<string>, size: int)
    ensures SplitPieces([piece] + pieces, sep, rest, size)
         == (if |WithSep(piece, sep)| <= size then [WithSep(piece, sep)]
             else SplitText(WithSep(piece, sep), rest, size))
            + SplitPieces(pieces, sep, rest, size)
  {
    assert ([piece] + pieces)[1..] == pieces;
  }

  predicate Plain(t: string) { '\n' !in t && '.' !in t }

  const WORDS := [" ", ""]

  /** The first three separators only add a line break and a full stop. */
  lemma PlainSplit(t: string, size: int)
    requires Plain(t) && 0 <= size < |t|
    ensures SplitText(t, DEFAULT_SEPARATORS, size) == SplitText(t + "\n. ", WORDS, size) + ["", ""]
  {
    var d := DEFAULT_SEPARATORS;
    assert d[1..][1..][1..] == WORDS && d[0] == "\n\n" && d[1..][0] == "\n" && d[1..][1..][0] == ". ";
    var t1, t2, t3 := t + "\n\n", t + "\n", t + "\n. ";
    assert t2 + ". " == t3;
    hide SplitText, SplitPieces, SplitOn;
    SplitUnfold(t, d, size);
    SplitAbsent(t, "\n\n");
    OnePiece(t, "\n\n", d[1..], size);
    SplitUnfold(t1, d[1..], size);
    BreaksSplit(t);
    PiecesCons(t, ["", ""], "\n", d[1..][1..], size);
    NothingLeft("\n", d[1..][1..], size);
    SplitUnfold(t2, d[1..][1..], size);
    SplitAbsent(t2, ". ");
    OnePiece(t2, ". ", WORDS, size);
  }

  lemma SplitUnfold(t: string, seps: seq<string>, size: int)
    requires |t| > size && seps != []
    ensures SplitText(t, seps, size) == SplitPieces(Cut(t, seps[0]), seps[0], seps[1..], size)
  {
  }

  lemma BreaksSplit(t: string)
    requires '\n' !in t
    ensures SplitOn(t + "\n\n", "\n") == [t] + ["", ""]
  {
    hide SplitOn;
    SplitAfter(t, '\n', "\n");
    SplitAfter("", '\n', "");
    SplitEmpty('\n');
    assert t + "\n\n" == t + ['\n'] + "\n";
    assert "" + ['\n'] + "" == "\n";
  }

  lemma NothingLeft(sep: string, rest: seq<string>, size: int)
    requires size >= 0
    ensures SplitPieces(["", ""], sep, rest, size) == ["", ""]
    ensures SplitPieces([""], sep, rest, size) == [""]
  {
    assert SplitPieces([], sep, rest, size) == [];
    PiecesCons("", [], sep, rest, size);
    PiecesCons("", [""], sep, rest, size);
    assert [""] + [] == [""] && [""] + [""] == ["", ""];
  }

  // ---- parents with a longer child ------------------------------------------------------

  function As(n: nat): (s: string)
    ensures |s| == n && forall i :: 0 <= i < n ==> s[i] == 'a'
  {
    seq(n, _ => 'a')
  }

  lemma StripSpaceEnd(s: string, c: char)
    requires s != "" && Tight(s, IsSpace) && IsSpace(c)
    ensures Strip(s + [c]) == s
  {
    hide TrimLeft;
    assert (s + [c])[0] == s[0];
    TrimLeftStays(s + [c], IsSpace);
    assert (s + [c])[..|s|] == s;
    assert TrimRight(s + [c], IsSpace) == TrimRight(s, IsSpace) == s;
  }

  /** Two words, the second just long enough to fill a chunk with what splitting adds. */
  function TwoWords(n: nat, size: int): string
    requires 4 <= size < n
  {
    As(n - size + 2) + " " + As(size - 3)
  }

  /** How the last level cuts a word, a blank, another word and the final blank. */
  lemma TwoPieces(a: string, z: string, size: int) returns (xs: seq<string>)
    requires ' ' !in a && ' ' !in z && z != "" && |z| + 1 <= size < |a + " " + (z + " ")|
    ensures Flatten(xs) == a + " "
    ensures a != "" ==> SplitText(a + " " + (z + " "), WORDS, size) == xs + ([z + " "] + [""])
    ensures a != "" && |a| + 1 <= size ==> xs == [a + " "]
  {
    var u := a + " " + (z + " ");
    xs := if |a + " "| <= size then [a + " "] else SplitText(a + " ", [""], size);
    FlattenOne(a + " ");
    CharsExact(a + " ", size);
    assert WORDS[0] == " " && WORDS[1..] == [""];
    hide SplitText, SplitPieces, SplitOn;
    SplitUnfold(u, WORDS, size);
    CutWords(a, z);
    PiecesCons(a, [z] + [""], " ", [""], size);
    PiecesCons(z, [""], " ", [""], size);
    NothingLeft(" ", [""], size);
  }

  lemma CutWords(a: string, z: string)
    requires ' ' !in a && ' ' !in z
    ensures SplitOn(a + " " + (z + " "), " ") == [a] + ([z] + [""])
  {
    hide SplitOn;
    SplitAfter(a, ' ', z + " ");
    SplitAfter(z, ' ', "");
    SplitEmpty(' ');
    assert z + [' '] + "" == z + " ";
    assert [' '] == " ";
  }

  lemma TwoWordsSplit(n: nat, size: int) returns (xs: seq<string>)
    requires 4 <= size < n
    ensures Flatten(xs) == As(n - size + 2) + " "
    ensures SplitText(TwoWords(n, size), DEFAULT_SEPARATORS, size)
         == xs + ([As(size - 3) + "\n. "] + ["", "", ""])
  {
    var a, b := As(n - size + 2), As(size - 3);
    var t := TwoWords(n, size);
    assert Plain(t);
    assert t + "\n. " == a + " " + (b + "\n." + " ");
    assert b + "\n." + " " == b + "\n. ";
    hide SplitText, SplitPieces, SplitOn, As, TwoWords;
    PlainSplit(t, size);
    xs := TwoPieces(a, b + "\n.", size);
    Regroup(xs, [b + "\n. "]);
  }

  lemma Regroup(xs: seq<string>, zs: seq<string>)
    ensures xs + (zs + [""]) + ["", ""] == xs + (zs + ["", "", ""])
  {
  }

  lemma TwoWordsOutgrow(n: nat, size: int, overlap: int) returns (child: string)
    requires 4 <= size < n < Longest(size, overlap)
    ensures child in Chunks(TwoWords(n, size), size, overlap, DEFAULT_SEPARATORS) && |child| > n
  {
    hide Chunks, Strip;
    var xs := TwoWordsSplit(n, size);
    var x, z := Flatten(xs), As(size - 3) + "\n. ";
    var c := OverflowChunk(TwoWords(n, size), xs, z, ["", "", ""], size, overlap);
    child := c + As(size - 3) + "\n.";
    assert c[0] == x[|x| - |c|] == 'a';
    assert c + z == child + [' '];
    StripSpaceEnd(child, ' ');
  }

  /** One word, cut into characters. */
  lemma OneWordSplit(n: nat, size: int) returns (xs: seq<string>)
    requires 1 <= size < n
    ensures Flatten(xs) == As(n) + "\n"
    ensures SplitText(As(n), DEFAULT_SEPARATORS, size) == xs + (["."] + [" ", "", "", ""])
  {
    var t := As(n);
    assert Plain(t) && ' ' !in t + "\n.";
    hide As;
    xs := Chars(t + "\n");
    CharsFlatten(t + "\n");
    hide SplitText, SplitPieces, SplitOn, Chars;
    PlainSplit(t, size);
    OneWordPieces(t + "\n.", size);
    assert t + "\n." + " " == t + "\n. ";
    CharsOf(t);
    Regroup(xs + ["."], [" "]);
    assert xs + ["."] + ([" "] + ["", "", ""]) == xs + (["."] + [" ", "", "", ""]);
  }

  lemma CharsOf(t: string)
    ensures Chars(t + "\n. ") == Chars(t + "\n") + ["."] + [" "]
  {
  }

  /** How the last level cuts a single word that is too long. */
  lemma OneWordPieces(t: string, size: int)
    requires t != "" && ' ' !in t && 1 <= size < |t|
    ensures SplitText(t + " ", WORDS, size) == Chars(t + " ") + [""]
  {
    var u := t + " ";
    assert WORDS[0] == " " && WORDS[1..] == [""];
    assert u == t + [' '] + "";
    CharPieces(Chars(u), size);
    hide SplitText, SplitPieces, SplitOn, Chars;
    SplitUnfold(u, WORDS, size);
    SplitAfter(t, ' ', "");
    SplitEmpty(' ');
    PiecesCons(t, [""], " ", [""], size);
    SplitUnfold(u, [""], size);
    NothingLeft(" ", [""], size);
  }

  lemma OneWordOutgrows(n: nat, size: int, overlap: int) returns (child: string)
    requires 1 <= size < n <= overlap
    ensures child in Chunks(As(n), size, overlap, DEFAULT_SEPARATORS) && |child| > n
  {
    hide Chunks, Strip;
    var xs := OneWordSplit(n, size);
    var x := Flatten(xs);
    var c := OverflowChunk(As(n), xs, ".", [" ", "", "", ""], size, overlap);
    child := c + ".";
    assert c[0] == x[|x| - |c|] == 'a';
    TrimFixed(child, IsSpace);
    StripIs(child);
  }

  lemma StripIs(s: string)
    ensures Strip(s) == Trim(s, IsSpace)
  {
  }

  /** A long line, cut into characters, and a short one that fills a chunk of three. */
  function TwoLines(m: nat): string { As(m) + "\n" + "aa" }

  lemma LinesSplit(b: string)
    requires '\n' !in b
    ensures SplitOn(b + "\n" + "aa" + "\n\n", "\n") == [b] + (["aa"] + ["", ""])
  {
    hide SplitOn;
    SplitAfter(b, '\n', "aa" + "\n\n");
    BreaksSplit("aa");
    assert b + "\n" + "aa" + "\n\n" == b + ['\n'] + ("aa" + "\n\n");
  }

  lemma LongLine(b: string)
    requires Plain(b) && ' ' !in b && |b| >= 3
    ensures SplitText(b + "\n", [". ", " ", ""], 3) == Chars(b + "\n. ") + [""]
  {
    assert [". ", " ", ""][1..] == WORDS;
    assert b + "\n" + ". " == b + "\n." + " " == b + "\n. ";
    hide SplitText, SplitPieces, SplitOn, Chars;
    SplitUnfold(b + "\n", [". ", " ", ""], 3);
    SplitAbsent(b + "\n", ". ");
    OnePiece(b + "\n", ". ", WORDS, 3);
    OneWordPieces(b + "\n.", 3);
  }

  lemma TwoLinesSplit(m: nat) returns (xs: seq<string>)
    requires m >= 3
    ensures Flatten(xs) == As(m) + "\n. "
    ensures SplitText(TwoLines(m), DEFAULT_SEPARATORS, 3) == xs + (["aa\n"] + ["", ""])
  {
    var d, b, t := DEFAULT_SEPARATORS, As(m), TwoLines(m);
    var lines := [". ", " ", ""];
    assert d[1..][1..] == lines && d[0] == "\n\n" && d[1..][0] == "\n" && "aa" + "\n" == "aa\n";
    assert Plain(b) && ' ' !in b;
    NoDoubleBreak(b);
    xs := Chars(b + "\n. ") + [""];
    CharsFlatten(b + "\n. ");
    FlattenSnoc(Chars(b + "\n. "), "");
    AppendNil(b + "\n. ", "");
    hide SplitText, SplitPieces, SplitOn, Chars, As;
    SplitUnfold(t, d, 3);
    OnePiece(t, "\n\n", d[1..], 3);
    SplitUnfold(t + "\n\n", d[1..], 3);
    LinesSplit(b);
    PiecesCons(b, ["aa"] + ["", ""], "\n", lines, 3);
    PiecesCons("aa", ["", ""], "\n", lines, 3);
    NothingLeft("\n", lines, 3);
    LongLine(b);
  }

  lemma NoDoubleBreak(b: string)
    requires '\n' !in b
    ensures SplitOn(b + "\n" + "aa", "\n\n") == [b + "\n" + "aa"]
  {
    var t := b + "\n" + "aa";
    forall j ensures !At(t, "\n\n", j) {
      if 0 <= j && j + 2 <= |t| {
        assert t[j..j + 2][0] == t[j] && t[j..j + 2][1] == t[j + 1];
      }
    }
  }

  lemma TwoLinesOutgrow(m: nat) returns (child: string)
    requires m >= 3
    ensures child in Chunks(TwoLines(m), 3, m + 2, DEFAULT_SEPARATORS) && |child| > m + 3
  {
    hide Chunks, Strip;
    var xs := TwoLinesSplit(m);
    var x := Flatten(xs);
    var c := OverflowChunk(TwoLines(m), xs, "aa\n", ["", ""], 3, m + 2);
    child := c + "aa";
    assert c[0] == x[|x| - |c|] == 'a';
    assert c + "aa\n" == child + ['\n'];
    StripSpaceEnd(child, '\n');
  }

  // ---- the exact condition ------------------------------------------------------------------

  ghost predicate ChildrenFit(parent: string, childSize: int, childOverlap: int) {
    AllAtMost(Chunks(parent, childSize, childOverlap, DEFAULT_SEPARATORS), |parent|)
  }

  /** A stripped parent of the given length with a longer child. */
  function Outgrown(n: nat, childSize: int, childOverlap: int): string
    requires 1 <= childSize < n < Longest(childSize, childOverlap)
  {
    if childSize >= 4 then TwoWords(n, childSize) else if n <= childOverlap then As(n) else TwoLines(n - 3)
  }

  /** What the exact condition leaves open: four characters with overlap 3 and five with
      overlap 4, when children have three. */
  predicate Open(n: int, childSize: int, childOverlap: int) {
    childSize == 3 && n == childOverlap + 1 && 3 < n <= 5
  }

  lemma ChildOutgrows(n: nat, childSize: int, childOverlap: int) returns (child: string)
    requires 1 <= childSize < n < Longest(childSize, childOverlap) && !Open(n, childSize, childOverlap)
    ensures var parent := Outgrown(n, childSize, childOverlap);
            && |parent| == n && Tight(parent, IsSpace)
            && child in Chunks(parent, childSize, childOverlap, DEFAULT_SEPARATORS) && |child| > n
  {
    hide Chunks;
    if childSize >= 4 {
      child := TwoWordsOutgrow(n, childSize, childOverlap);
    } else if n <= childOverlap {
      child := OneWordOutgrows(n, childSize, childOverlap);
    } else {
      child := TwoLinesOutgrow(n - 3);
    }
  }

  /** No stripped parent of length `n` has a longer child exactly when `n` is at most the
      child size or at least `Longest`. */
  lemma ChildrenFitIff(n: nat, childSize: int, childOverlap: int)
    requires childSize >= 1 && childOverlap >= 0 && !Open(n, childSize, childOverlap)
    ensures (forall parent: string :: |parent| == n && Tight(parent, IsSpace) ==>
               ChildrenFit(parent, childSize, childOverlap))
        <==> n <= childSize || n >= Longest(childSize, childOverlap)
  {
    hide Chunks, Tight;
    if n <= childSize || n >= Longest(childSize, childOverlap) {
      forall parent: string | |parent| == n && Tight(parent, IsSpace)
        ensures ChildrenFit(parent, childSize, childOverlap)
      {
        ChildFits(parent, childSize, childOverlap);
      }
    } else {
      var child := ChildOutgrows(n, childSize, childOverlap);
      var parent := Outgrown(n, childSize, childOverlap);
      var i :| 0 <= i < |Chunks(parent, childSize, childOverlap, DEFAULT_SEPARATORS)|
               && Chunks(parent, childSize, childOverlap, DEFAULT_SEPARATORS)[i] == child;
      assert !ChildrenFit(parent, childSize, childOverlap);
    }
  }

  function PairsIn(text: string, parentSize: int, childSize: int, childOverlap: int): seq<Pair> {
    PairsOf(Chunks(text, parentSize, 0, DEFAULT_SEPARATORS), childSize, childOverlap)
  }

  ghost predicate PairsFit(text: string, parentSize: int, childSize: int, childOverlap: int) {
    forall i :: 0 <= i < |PairsIn(text, parentSize, childSize, childOverlap)| ==>
      var p := PairsIn(text, parentSize, childSize, childOverlap)[i];
      |p.child| <= |p.parent|
  }

  lemma {:induction false} PairFrom(parents: seq<string>, childSize: int, childOverlap: int, i: nat)
    requires i < |PairsOf(parents, childSize, childOverlap)|
    ensures var p := PairsOf(parents, childSize, childOverlap)[i];
            p.parent in parents && p.child in Chunks(p.parent, childSize, childOverlap, DEFAULT_SEPARATORS)
  {
    hide Chunks;
    var children := Chunks(parents[0], childSize, childOverlap, DEFAULT_SEPARATORS);
    if i >= |children| {
      PairFrom(parents[1..], childSize, childOverlap, i - |children|);
    }
  }

  lemma OnlyParent(parent: string, parentSize: int)
    requires parent != "" && Tight(parent, IsSpace) && |parent| <= parentSize
    ensures Chunks(parent, parentSize, 0, DEFAULT_SEPARATORS) == [parent]
  {
    hide Chunks;
    WholeChunk(parent, parentSize, 0, DEFAULT_SEPARATORS);
    TrimFixed(parent, IsSpace);
  }

  lemma PairsOfOne(parent: string, childSize: int, childOverlap: int, child: string)
    requires child in Chunks(parent, childSize, childOverlap, DEFAULT_SEPARATORS)
    ensures Pair(child, parent) in PairsOf([parent], childSize, childOverlap)
  {
    hide Chunks;
    var children := Chunks(parent, childSize, childOverlap, DEFAULT_SEPARATORS);
    var i :| 0 <= i < |children| && children[i] == child;
    assert PairsWith(children, parent)[i] == Pair(child, parent);
    assert [parent][1..] == [];
    AppendNil(PairsWith(children, parent), []);
  }

  /** For every text no child is longer than its parent exactly when a parent fits one
      child or the overlap leaves no length at which a child outgrows its parent. */
  lemma PairsFitIff(parentSize: int, childSize: int, childOverlap: int)
    requires parentSize >= 1 && childSize >= 1 && childOverlap >= 0 && !Open(childSize + 1, childSize, childOverlap)
    ensures (forall text :: PairsFit(text, parentSize, childSize, childOverlap))
        <==> parentSize <= childSize || Longest(childSize, childOverlap) <= childSize + 1
  {
    hide Chunks, PairsOf, Tight;
    if parentSize <= childSize || Longest(childSize, childOverlap) <= childSize + 1 {
      forall text ensures PairsFit(text, parentSize, childSize, childOverlap) {
        AllPairsFit(text, parentSize, childSize, childOverlap);
      }
    } else {
      var n := childSize + 1;
      var child := ChildOutgrows(n, childSize, childOverlap);
      var parent := Outgrown(n, childSize, childOverlap);
      OnlyParent(parent, parentSize);
      PairsOfOne(parent, childSize, childOverlap, child);
      var i :| 0 <= i < |PairsIn(parent, parentSize, childSize, childOverlap)|
               && PairsIn(parent, parentSize, childSize, childOverlap)[i] == Pair(child, parent);
      assert !PairsFit(parent, parentSize, childSize, childOverlap);
    }
  }

  lemma AllPairsFit(text: string, parentSize: int, childSize: int, childOverlap: int)
    requires parentSize >= 1 && childSize >= 1 && childOverlap >= 0
    requires parentSize <= childSize || Longest(childSize, childOverlap) <= childSize + 1
    ensures PairsFit(text, parentSize, childSize, childOverlap)
  {
    hide Chunks, PairsOf, Longest;
    var parents := Chunks(text, parentSize, 0, DEFAULT_SEPARATORS);
    DefaultsEndEmpty();
    ChunksBounded(text, parentSize, 0, DEFAULT_SEPARATORS);
    forall i | 0 <= i < |PairsIn(text, parentSize, childSize, childOverlap)|
      ensures |PairsIn(text, parentSize, childSize, childOverlap)[i].child|
           <= |PairsIn(text, parentSize, childSize, childOverlap)[i].parent|
    {
      PairFrom(parents, childSize, childOverlap, i);
      var p := PairsIn(text, parentSize, childSize, childOverlap)[i];
      ChildFits(p.parent, childSize, childOverlap);
    }
  }

  lemma SixSplit() returns (xs: seq<string>)
    ensures xs == ["aaaa "]
    ensures SplitText("aaaa b", DEFAULT_SEPARATORS, 5) == xs + (["b\n. "] + ["", "", ""])
  {
    var t, a, z := "aaaa b", "aaaa", "b\n.";
    assert Plain(t) && |t| == 6 && |a| == 4 && |z| == 3 && ' ' !in a && ' ' !in z;
    assert a + " " == "aaaa " && z + " " == "b\n. ";
    assert t + "\n. " == a + " " + (z + " ");
    hide *;
    PlainSplit(t, 5);
    xs := TwoPieces(a, z, 5);
    Regroup(xs, ["b\n. "]);
  }

  /** The failing input: a parent of six characters with a child of seven. */
  lemma LongerChild()
    ensures "aaa b\n." in Chunks("aaaa b", 5, 4, DEFAULT_SEPARATORS)
  {
    hide SplitText, SplitPieces, SplitOn, Chunks, Strip, DEFAULT_SEPARATORS, Windows;
    var xs := SixSplit();
    var z := "b\n. ";
    FlattenOne("aaaa ");
    var c := OverflowChunk("aaaa b", xs, z, ["", "", ""], 5, 4);
    LastFour(c);
    assert c + z == "aaa b\n." + [' '];
    StripSpaceEnd("aaa b\n.", ' ');
  }

  lemma LastFour(c: string)
    requires IsSuffix(c, "aaaa ") && |c| == 4
    ensures c == "aaa "
  {
  }
}
