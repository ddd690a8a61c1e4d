/** The chunking strategies: what they keep of the text and how long their pieces get. */
module Chunkers {
  import opened Collections
  import opened Text

  // ---- erasing white space and separators ---------------------------------------

  /** White space and every character of every separator: what chunking may drop or add. */
  ghost predicate IsNoise(seps: seq<string>, c: char) {
    IsSpace(c) || exists i :: 0 <= i < |seps| && c in seps[i]
  }

  ghost function Erase(seps: seq<string>, s: string): string {
    if s == "" then ""
    else (if IsNoise(seps, s[0]) then "" else [s[0]]) + Erase(seps, s[1..])
  }

  lemma EraseCons(seps: seq<string>, c: char, s: string)
    ensures Erase(seps, [c] + s) == (if IsNoise(seps, c) then "" else [c]) + Erase(seps, s)
  {
    assert ([c] + s)[1..] == s;
  }

  lemma {:induction false} EraseAppend(seps: seq<string>, a: string, b: string)
    ensures Erase(seps, a + b) == Erase(seps, a) + Erase(seps, b)
  {
    if a == "" {
      assert a + b == b;
      assert "" + Erase(seps, b) == Erase(seps, b);
    } else {
      hide *;
      EraseAppend(seps, a[1..], b);
      EraseCons(seps, a[0], a[1..]);
      EraseCons(seps, a[0], a[1..] + b);
      HeadTail(a);
      Assoc([a[0]], a[1..], b);
      Assoc(if IsNoise(seps, a[0]) then "" else [a[0]], Erase(seps, a[1..]), Erase(seps, b));
    }
  }

  lemma {:induction false} EraseAll(seps: seq<string>, s: string)
    requires forall i :: 0 <= i < |s| ==> IsNoise(seps, s[i])
    ensures Erase(seps, s) == ""
  {
    if s != "" {
      EraseAll(seps, s[1..]);
    }
  }

  lemma EraseSep(seps: seq<string>, sep: string)
    requires sep in seps
    ensures Erase(seps, sep) == ""
  {
    forall i | 0 <= i < |sep| ensures IsNoise(seps, sep[i]) {
      var k :| 0 <= k < |seps| && seps[k] == sep;
      assert sep[i] in seps[k];
    }
    EraseAll(seps, sep);
  }

  lemma EraseStrip(seps: seq<string>, s: string)
    ensures Erase(seps, Strip(s)) == Erase(seps, s)
  {
    var left, right := TrimFacts(s, IsSpace);
    EraseAll(seps, left);
    EraseAll(seps, right);
    EraseAppend(seps, left, Strip(s));
    EraseAppend(seps, left + Strip(s), right);
  }

  lemma EraseBlank(seps: seq<string>, s: string)
    requires Strip(s) == ""
    ensures Erase(seps, s) == ""
  {
    EraseStrip(seps, s);
  }

  /** Erased texts of a list. */
  ghost function EraseEach(seps: seq<string>, ss: seq<string>): (r: seq<string>)
    ensures |r| == |ss| && forall i :: 0 <= i < |ss| ==> r[i] == Erase(seps, ss[i])
  {
    seq(|ss|, i requires 0 <= i < |ss| => Erase(seps, ss[i]))
  }

  // ---- recursive splitting --------------------------------------------------------

  function Chars(t: string): (r: seq<string>)
    ensures |r| == |t| && forall i :: 0 <= i < |t| ==> r[i] == [t[i]]
  {
    seq(|t|, i requires 0 <= i < |t| => [t[i]])
  }

  /** `t.split(sep) if sep else list(t)` */
  function Cut(t: string, sep: string): seq<string> {
    if sep != "" then SplitOn(t, sep) else Chars(t)
  }

  /** `piece + sep if sep and piece else piece` */
  function WithSep(piece: string, sep: string): string {
    if sep != "" && piece != "" then piece + sep else piece
  }

  function SplitText(t: string, seps: seq<string>, size: int): seq<string>
    decreases |seps|, 0
  {
    if |t| <= size || seps == [] then [t]
    else SplitPieces(Cut(t, seps[0]), seps[0], seps[1..], size)
  }

  function SplitPieces(pieces: seq<string>, sep: string, rest: seq<string>, size: int): seq<string>
    decreases |rest|, 1 + |pieces|
  {
    if pieces == [] then []
    else
      var piece := WithSep(pieces[0], sep);
      (if |piece| <= size then [piece] else SplitText(piece, rest, size)) + SplitPieces(pieces[1..], sep, rest, size)
  }

  /** The inner `_split`; it ends because every call has one separator fewer. */
  method Split(t: string, seps: seq<string>, size: int) returns (out: seq<string>)
    ensures out == SplitText(t, seps, size)
    decreases |seps|
  {
    if |t| <= size || seps == [] {
      return [t];
    }
    var sep, rest := seps[0], seps[1..];
    var pieces := Cut(t, sep);
    out := [];
    DropEnds(pieces);
    for i := 0 to |pieces|
      invariant out + SplitPieces(pieces[i..], sep, rest, size) == SplitText(t, seps, size)
    {
      DropNext(pieces, i);
      var piece := WithSep(pieces[i], sep);
      if |piece| <= size {
        Assoc(out, [piece], SplitPieces(pieces[i + 1..], sep, rest, size));
        out := out + [piece];
      } else {
        var more := Split(piece, rest, size);
        Assoc(out, more, SplitPieces(pieces[i + 1..], sep, rest, size));
        out := out + more;
      }
    }
  }

  lemma {:induction false} CharsFlatten(t: string)
    ensures Flatten(Chars(t)) == t
  {
    if t != "" {
      CharsFlatten(t[1..]);
      assert Chars(t)[1..] == Chars(t[1..]);
      assert t == [t[0]] + t[1..];
    }
  }

  lemma {:induction false} EraseJoin(seps: seq<string>, parts: seq<string>, sep: string)
    requires sep in seps
    ensures Erase(seps, Join(parts, sep)) == Erase(seps, Flatten(parts))
  {
    if |parts| == 1 {
      assert Flatten(parts) == parts[0] + Flatten(parts[1..]);
      assert Flatten(parts[1..]) == "";
      AppendNil(parts[0], "");
    } else if parts != [] {
      var rest := Join(parts[1..], sep);
      EraseJoin(seps, parts[1..], sep);
      EraseSep(seps, sep);
      EraseAppend(seps, parts[0] + sep, rest);
      EraseAppend(seps, parts[0], sep);
      EraseAppend(seps, parts[0], Flatten(parts[1..]));
    }
  }

  lemma CutConserves(seps: seq<string>, t: string, sep: string)
    requires sep in seps
    ensures Erase(seps, Flatten(Cut(t, sep))) == Erase(seps, t)
  {
    if sep != "" {
      JoinSplit(t, sep);
      EraseJoin(seps, SplitOn(t, sep), sep);
    } else {
      CharsFlatten(t);
    }
  }

  lemma WithSepErased(seps: seq<string>, piece: string, sep: string)
    requires sep in seps
    ensures Erase(seps, WithSep(piece, sep)) == Erase(seps, piece)
  {
    EraseSep(seps, sep);
    EraseAppend(seps, piece, sep);
  }

  /** Splitting conserves the text up to white space and separator characters. */
  lemma {:induction false} SplitConserves(all: seq<string>, t: string, seps: seq<string>, size: int)
    requires forall s :: s in seps ==> s in all
    ensures Erase(all, Flatten(SplitText(t, seps, size))) == Erase(all, t)
    decreases |seps|, 0
  {
    if |t| <= size || seps == [] {
      FlattenOne(t);
    } else {
      PiecesConserve(all, Cut(t, seps[0]), seps[0], seps[1..], size);
      CutConserves(all, t, seps[0]);
    }
  }

  lemma FlattenOne<T>(x: seq<T>)
    ensures Flatten([x]) == x
  {
    assert Flatten([x][1..]) == [];
  }

  lemma {:induction false} PiecesConserve(all: seq<string>, pieces: seq<string>, sep: string, rest: seq<string>,
                                          size: int)
    requires sep in all && forall s :: s in rest ==> s in all
    ensures Erase(all, Flatten(SplitPieces(pieces, sep, rest, size))) == Erase(all, Flatten(pieces))
    decreases |rest|, 1 + |pieces|
  {
    hide Erase, WithSep;
    if pieces != [] {
      var piece := WithSep(pieces[0], sep);
      var head := if |piece| <= size then [piece] else SplitText(piece, rest, size);
      if |piece| <= size {
        FlattenOne(piece);
      } else {
        SplitConserves(all, piece, rest, size);
      }
      PiecesConserve(all, pieces[1..], sep, rest, size);
      WithSepErased(all, pieces[0], sep);
      FlattenAppend(head, SplitPieces(pieces[1..], sep, rest, size));
      EraseAppend(all, Flatten(head), Flatten(SplitPieces(pieces[1..], sep, rest, size)));
      EraseAppend(all, pieces[0], Flatten(pieces[1..]));
    }
  }

  /** Cutting into single characters loses nothing. */
  lemma CharsExact(t: string, size: int)
    ensures Flatten(SplitText(t, [""], size)) == t
  {
    if |t| <= size {
      FlattenOne(t);
    } else {
      CharPieces(Chars(t), size);
      CharsFlatten(t);
    }
  }

  lemma {:induction false} CharPieces(pieces: seq<string>, size: int)
    ensures SplitPieces(pieces, "", [], size) == pieces
  {
    if pieces != [] {
      CharPieces(pieces[1..], size);
    }
  }

  predicate EndsInSpace(s: string) { s != "" && IsSpace(s[|s| - 1]) }

  predicate AllAtMost(ss: seq<string>, n: int) { forall i :: 0 <= i < |ss| ==> |ss[i]| <= n }

  /** With an empty separator among the separators no piece exceeds `size`. */
  lemma {:induction false} SplitBounded(t: string, seps: seq<string>, size: int)
    requires size >= 1 && "" in seps
    ensures AllAtMost(SplitText(t, seps, size), size)
    decreases |seps|, 0
  {
    if |t| > size {
      PiecesBounded(Cut(t, seps[0]), seps[0], seps[1..], size);
    }
  }

  lemma {:induction false} PiecesBounded(pieces: seq<string>, sep: string, rest: seq<string>, size: int)
    requires size >= 1
    requires "" in rest || (sep == "" && AllAtMost(pieces, 1))
    ensures AllAtMost(SplitPieces(pieces, sep, rest, size), size)
    decreases |rest|, 1 + |pieces|
  {
    if pieces != [] {
      var piece := WithSep(pieces[0], sep);
      if |piece| > size {
        SplitBounded(piece, rest, size);
      }
      PiecesBounded(pieces[1..], sep, rest, size);
    }
  }

  // ---- merging with overlap ----------------------------------------------------------

  /** `current` of the merge loop: the tail carried over and the pieces added since. */
  datatype Window = Window(carry: string, added: string) {
    function Text(): string { carry + added }
  }

  /** `current[-overlap:] if overlap else ""` */
  function Carried(s: string, overlap: int): string {
    if overlap == 0 then ""
    else if overlap > 0 then (if overlap >= |s| then s else s[|s| - overlap..])
    else if -overlap >= |s| then "" else s[-overlap..]
  }

  function Merge(pieces: seq<string>, w: Window, size: int, overlap: int): seq<Window>
    decreases |pieces|
  {
    if pieces == [] then [w]
    else if |w.Text()| + |pieces[0]| <= size then
      Merge(pieces[1..], Window(w.carry, w.added + pieces[0]), size, overlap)
    else [w] + Merge(pieces[1..], Window(Carried(w.Text(), overlap), pieces[0]), size, overlap)
  }

  /** The non-blank windows, stripped. */
  function Rendered(ws: seq<Window>): seq<string> {
    if ws == [] then []
    else (if Strip(ws[0].Text()) != "" then [Strip(ws[0].Text())] else []) + Rendered(ws[1..])
  }

  function Windows(text: string, size: int, overlap: int, seps: seq<string>): seq<Window> {
    Merge(SplitText(text, seps, size), Window("", ""), size, overlap)
  }

  function Chunks(text: string, size: int, overlap: int, seps: seq<string>): seq<string> {
    Rendered(Windows(text, size, overlap, seps))
  }

  const DEFAULT_SEPARATORS := ["\n\n", "\n", ". ", " ", ""]

  method RecursiveChunks(text: string, size: int, overlap: int, seps: seq<string>) returns (merged: seq<string>)
    ensures merged == Chunks(text, size, overlap, seps)
  {
    var pieces := Split(text, seps, size);
    merged := [];
    var current := "";
    ghost var w := Window("", "");
    DropEnds(pieces);
    for i := 0 to |pieces|
      invariant current == w.Text()
      invariant merged + Rendered(Merge(pieces[i..], w, size, overlap)) == Chunks(text, size, overlap, seps)
    {
      hide Strip, Carried, Rendered;
      DropNext(pieces, i);
      var piece := pieces[i];
      if |current| + |piece| <= size {
        Assoc(w.carry, w.added, piece);
        current := current + piece;
        w := Window(w.carry, w.added + piece);
      } else {
        var next := Window(Carried(current, overlap), piece);
        RenderedCons(w, Merge(pieces[i + 1..], next, size, overlap));
        if Strip(current) != "" {
          Assoc(merged, [Strip(current)], Rendered(Merge(pieces[i + 1..], next, size, overlap)));
          merged := merged + [Strip(current)];
        }
        current := Carried(current, overlap) + piece;
        w := next;
      }
    }
    RenderedCons(w, []);
    if Strip(current) != "" {
      merged := merged + [Strip(current)];
    }
  }

  lemma RenderedCons(w: Window, ws: seq<Window>)
    ensures Rendered([w] + ws) == (if Strip(w.Text()) != "" then [Strip(w.Text())] else []) + Rendered(ws)
    ensures ws == [] ==> Rendered([w] + ws) == (if Strip(w.Text()) != "" then [Strip(w.Text())] else [])
    ensures Strip(w.Text()) == "" ==> Rendered([w] + ws) == Rendered(ws)
  {
    hide Strip;
    assert ([w] + ws)[1..] == ws;
  }

  // ---- length of chunks -----------------------------------------------------------------

  lemma {:induction false} MergeBounded(pieces: seq<string>, w: Window, size: int, overlap: int)
    requires size >= 1 && overlap >= 0 && AllAtMost(pieces, size)
    requires |w.Text()| <= size + overlap && |w.carry| <= overlap
    ensures forall i :: 0 <= i < |Merge(pieces, w, size, overlap)| ==>
              |Merge(pieces, w, size, overlap)[i].Text()| <= size + overlap
              && |Merge(pieces, w, size, overlap)[i].carry| <= overlap
    decreases |pieces|
  {
    if pieces != [] {
      if |w.Text()| + |pieces[0]| <= size {
        MergeBounded(pieces[1..], Window(w.carry, w.added + pieces[0]), size, overlap);
      } else {
        MergeBounded(pieces[1..], Window(Carried(w.Text(), overlap), pieces[0]), size, overlap);
      }
    }
  }

  /** Stripped, not blank and no longer than `n`. */
  predicate Neat(s: string, n: int) { s != "" && Tight(s, IsSpace) && |s| <= n }

  predicate AllNeat(ss: seq<string>, n: int) { forall i :: 0 <= i < |ss| ==> Neat(ss[i], n) }

  lemma {:induction false} RenderedBounded(ws: seq<Window>, n: int)
    requires forall i :: 0 <= i < |ws| ==> |ws[i].Text()| <= n
    ensures AllNeat(Rendered(ws), n)
  {
    hide Strip, Neat;
    if ws != [] {
      RenderedBounded(ws[1..], n);
      StripNeat(ws[0].Text(), n);
      if Strip(ws[0].Text()) != "" {
        NeatCons(Strip(ws[0].Text()), Rendered(ws[1..]), n);
      } else {
        AppendNilLeft(Rendered(ws[1..]));
      }
    }
  }

  lemma NeatCons(s: string, ss: seq<string>, n: int)
    requires Neat(s, n) && AllNeat(ss, n)
    ensures AllNeat([s] + ss, n)
  {
    hide Neat;
  }

  lemma StripNeat(s: string, n: int)
    requires |s| <= n
    ensures Strip(s) != "" ==> Neat(Strip(s), n)
  {
    TrimTight(s, IsSpace);
  }

  /** Every chunk is non-blank, stripped and at most `size + overlap` long. */
  lemma ChunksBounded(text: string, size: int, overlap: int, seps: seq<string>)
    requires size >= 1 && overlap >= 0 && "" in seps
    ensures AllNeat(Chunks(text, size, overlap, seps), size + overlap)
  {
    SplitBounded(text, seps, size);
    MergeBounded(SplitText(text, seps, size), Window("", ""), size, overlap);
    RenderedBounded(Windows(text, size, overlap, seps), size + overlap);
  }

  // ---- conservation -------------------------------------------------------------------------

  ghost predicate IsSuffix(s: string, t: string) { |s| <= |t| && t[|t| - |s|..] == s }

  lemma SuffixAppend(s: string, t: string, x: string)
    requires IsSuffix(s, t)
    ensures IsSuffix(s + x, t + x)
  {
    assert t == t[..|t| - |s|] + s;
    assert t + x == t[..|t| - |s|] + (s + x);
  }

  lemma SuffixTrans(r: string, s: string, t: string)
    requires IsSuffix(r, s) && IsSuffix(s, t)
    ensures IsSuffix(r, t)
  {
  }

  lemma CarriedSuffix(s: string, overlap: int)
    ensures IsSuffix(Carried(s, overlap), s)
  {
  }

  lemma EraseSuffix(seps: seq<string>, s: string, t: string)
    requires IsSuffix(s, t)
    ensures IsSuffix(Erase(seps, s), Erase(seps, t))
  {
    EraseAppend(seps, t[..|t| - |s|], s);
    assert t == t[..|t| - |s|] + s;
  }

  function FreshParts(ws: seq<Window>): (r: seq<string>)
    ensures |r| == |ws|
  {
    if ws == [] then [] else [ws[0].added] + FreshParts(ws[1..])
  }

  /** Each window's carried part is a suffix of everything merged before it. */
  ghost predicate Carries(ws: seq<Window>, before: string) {
    ws == [] || (IsSuffix(ws[0].carry, before) && Carries(ws[1..], before + ws[0].added))
  }

  lemma {:induction false} MergeCarries(pieces: seq<string>, w: Window, size: int, overlap: int, before: string)
    requires IsSuffix(w.carry, before)
    ensures Carries(Merge(pieces, w, size, overlap), before)
    decreases |pieces|
  {
    hide IsSuffix, Carried;
    if pieces == [] {
    } else if |w.Text()| + |pieces[0]| <= size {
      MergeCarries(pieces[1..], Window(w.carry, w.added + pieces[0]), size, overlap, before);
    } else {
      var next := Window(Carried(w.Text(), overlap), pieces[0]);
      SuffixAppend(w.carry, before, w.added);
      CarriedSuffix(w.Text(), overlap);
      SuffixTrans(next.carry, w.Text(), before + w.added);
      MergeCarries(pieces[1..], next, size, overlap, before + w.added);
      var rest := Merge(pieces[1..], next, size, overlap);
      assert ([w] + rest)[1..] == rest;
    }
  }

  /** The fresh parts, put together, are the pieces put together. */
  lemma {:induction false} MergeFresh(pieces: seq<string>, w: Window, size: int, overlap: int)
    ensures Flatten(FreshParts(Merge(pieces, w, size, overlap))) == w.added + Flatten(pieces)
    decreases |pieces|
  {
    hide Carried;
    if pieces == [] {
      assert FreshParts([w][1..]) == [];
      FlattenOne(w.added);
    } else if |w.Text()| + |pieces[0]| <= size {
      MergeFresh(pieces[1..], Window(w.carry, w.added + pieces[0]), size, overlap);
      Assoc(w.added, pieces[0], Flatten(pieces[1..]));
    } else {
      var next := Window(Carried(w.Text(), overlap), pieces[0]);
      MergeFresh(pieces[1..], next, size, overlap);
      var rest := Merge(pieces[1..], next, size, overlap);
      assert ([w] + rest)[1..] == rest;
      assert ([w.added] + FreshParts(rest))[1..] == FreshParts(rest);
    }
  }

  /** Chunk by chunk: `chunks[i]` ends with `parts[i]`, and is itself the end of what
      `parts[..i + 1]` has rebuilt so far; so what precedes `parts[i]` in it is carried over. */
  ghost predicate Rebuilds(chunks: seq<string>, parts: seq<string>, before: string) {
    && |chunks| == |parts|
    && (chunks == [] ||
        (&& IsSuffix(parts[0], chunks[0]) && IsSuffix(chunks[0], before + parts[0])
         && Rebuilds(chunks[1..], parts[1..], before + parts[0])))
  }

  /** Erased fresh parts of the windows that are not blank. */
  ghost function ErasedFresh(seps: seq<string>, ws: seq<Window>): seq<string> {
    if ws == [] then []
    else (if Strip(ws[0].Text()) != "" then [Erase(seps, ws[0].added)] else []) + ErasedFresh(seps, ws[1..])
  }

  lemma {:induction false} ErasedFreshFlatten(seps: seq<string>, ws: seq<Window>)
    ensures Flatten(ErasedFresh(seps, ws)) == Erase(seps, Flatten(FreshParts(ws)))
  {
    hide Erase, Strip;
    if ws == [] {
      EraseAll(seps, "");
    } else {
      var w, rest := ws[0], ErasedFresh(seps, ws[1..]);
      ErasedFreshFlatten(seps, ws[1..]);
      assert FreshParts(ws)[1..] == FreshParts(ws[1..]);
      EraseAppend(seps, w.added, Flatten(FreshParts(ws[1..])));
      if Strip(w.Text()) != "" {
        assert ([Erase(seps, w.added)] + rest)[1..] == rest;
      } else {
        EraseBlank(seps, w.Text());
        EraseAppend(seps, w.carry, w.added);
        AppendNilLeft(rest);
        AppendNilLeft(Flatten(rest));
      }
    }
  }

  lemma EraseWindow(seps: seq<string>, w: Window, before: string)
    requires IsSuffix(w.carry, before)
    ensures Erase(seps, Strip(w.Text())) == Erase(seps, w.carry) + Erase(seps, w.added)
    ensures IsSuffix(Erase(seps, w.added), Erase(seps, Strip(w.Text())))
    ensures IsSuffix(Erase(seps, Strip(w.Text())), Erase(seps, before) + Erase(seps, w.added))
    ensures Erase(seps, before + w.added) == Erase(seps, before) + Erase(seps, w.added)
  {
    hide Erase, Strip;
    EraseStrip(seps, w.Text());
    EraseAppend(seps, w.carry, w.added);
    EraseAppend(seps, before, w.added);
    EraseSuffix(seps, w.carry, before);
    SuffixAppend(Erase(seps, w.carry), Erase(seps, before), Erase(seps, w.added));
  }

  lemma {:induction false} RenderedRebuilds(seps: seq<string>, ws: seq<Window>, before: string)
    requires Carries(ws, before)
    ensures Rebuilds(EraseEach(seps, Rendered(ws)), ErasedFresh(seps, ws), Erase(seps, before))
    decreases |ws|
  {
    hide Erase, Strip, IsSuffix;
    if ws != [] {
      var w := ws[0];
      RenderedRebuilds(seps, ws[1..], before + w.added);
      EraseWindow(seps, w, before);
      var cs, fs := EraseEach(seps, Rendered(ws[1..])), ErasedFresh(seps, ws[1..]);
      if Strip(w.Text()) != "" {
        EraseEachCons(seps, Strip(w.Text()), Rendered(ws[1..]));
        assert ([Erase(seps, w.added)] + fs)[1..] == fs;
      } else {
        EraseAll(seps, "");
        EmptyParts(Erase(seps, w.carry), Erase(seps, w.added));
        AppendNil(Erase(seps, before), "");
        AppendNilLeft(Rendered(ws[1..]));
        AppendNilLeft(fs);
      }
    }
  }

  lemma EmptyParts(a: string, b: string)
    ensures a + b == "" ==> a == "" && b == ""
  {
  }

  lemma EraseEachCons(seps: seq<string>, s: string, ss: seq<string>)
    ensures EraseEach(seps, [s] + ss) == [Erase(seps, s)] + EraseEach(seps, ss)
    ensures EraseEach(seps, [s] + ss)[1..] == EraseEach(seps, ss)
  {
    hide Erase;
  }

  /** Content is conserved: after erasing white space and separator characters there are
      fresh parts, one for each chunk, that concatenate to the erased text, each chunk
      being a carried-over tail of the text so far followed by its fresh part. */
  lemma ChunksConserve(text: string, size: int, overlap: int, seps: seq<string>)
    ensures var parts := ErasedFresh(seps, Windows(text, size, overlap, seps));
            && Flatten(parts) == Erase(seps, text)
            && Rebuilds(EraseEach(seps, Chunks(text, size, overlap, seps)), parts, "")
  {
    hide Erase, IsSuffix;
    var pieces := SplitText(text, seps, size);
    var ws := Windows(text, size, overlap, seps);
    SplitConserves(seps, text, seps, size);
    MergeFresh(pieces, Window("", ""), size, overlap);
    AppendNilLeft(Flatten(pieces));
    ErasedFreshFlatten(seps, ws);
    SelfSuffix("");
    MergeCarries(pieces, Window("", ""), size, overlap, "");
    RenderedRebuilds(seps, ws, "");
    EraseAll(seps, "");
  }

  lemma SelfSuffix(s: string)
    ensures IsSuffix(s, s)
  {
  }

  ghost predicate IsPieceOf(s: string, t: string) { exists a, b :: t == a + s + b }

  lemma {:induction false} RebuildsPieces(chunks: seq<string>, parts: seq<string>, before: string, i: nat)
    requires Rebuilds(chunks, parts, before) && i < |chunks|
    ensures IsPieceOf(chunks[i], before + Flatten(parts))
    decreases |chunks|
  {
    hide IsSuffix;
    if i == 0 {
      var head := before + parts[0];
      var a := SuffixSplit(chunks[0], head);
      Assoc(before, parts[0], Flatten(parts[1..]));
      assert before + Flatten(parts) == a + chunks[0] + Flatten(parts[1..]);
    } else {
      RebuildsPieces(chunks[1..], parts[1..], before + parts[0], i - 1);
      Assoc(before, parts[0], Flatten(parts[1..]));
    }
  }

  lemma SuffixSplit(s: string, t: string) returns (a: string)
    requires IsSuffix(s, t)
    ensures t == a + s
  {
    a := t[..|t| - |s|];
  }

  /** Each erased chunk is a contiguous piece of the erased text. */
  lemma ChunkIsPiece(text: string, size: int, overlap: int, seps: seq<string>, i: nat)
    requires i < |Chunks(text, size, overlap, seps)|
    ensures IsPieceOf(Erase(seps, Chunks(text, size, overlap, seps)[i]), Erase(seps, text))
  {
    hide Erase, Rebuilds;
    ChunksConserve(text, size, overlap, seps);
    var parts := ErasedFresh(seps, Windows(text, size, overlap, seps));
    RebuildsPieces(EraseEach(seps, Chunks(text, size, overlap, seps)), parts, "", i);
    AppendNilLeft(Flatten(parts));
  }

  /** Without overlap nothing is carried and the erased chunks are the erased text. */
  lemma ChunksConserveExactly(text: string, size: int, seps: seq<string>)
    ensures Flatten(EraseEach(seps, Chunks(text, size, 0, seps))) == Erase(seps, text)
  {
    ChunksConserve(text, size, 0, seps);
    var ws := Windows(text, size, 0, seps);
    NoCarry(SplitText(text, seps, size), Window("", ""), size);
    NoCarryFresh(seps, ws);
  }

  lemma {:induction false} NoCarry(pieces: seq<string>, w: Window, size: int)
    requires w.carry == ""
    ensures forall i :: 0 <= i < |Merge(pieces, w, size, 0)| ==> Merge(pieces, w, size, 0)[i].carry == ""
    decreases |pieces|
  {
    if pieces != [] {
      if |w.Text()| + |pieces[0]| <= size {
        NoCarry(pieces[1..], Window(w.carry, w.added + pieces[0]), size);
      } else {
        NoCarry(pieces[1..], Window("", pieces[0]), size);
      }
    }
  }

  lemma {:induction false} NoCarryFresh(seps: seq<string>, ws: seq<Window>)
    requires forall i :: 0 <= i < |ws| ==> ws[i].carry == ""
    ensures EraseEach(seps, Rendered(ws)) == ErasedFresh(seps, ws)
  {
    hide Erase, Strip;
    if ws != [] {
      var w := ws[0];
      NoCarryFresh(seps, ws[1..]);
      AppendNilLeft(w.added);
      EraseStrip(seps, w.Text());
      if Strip(w.Text()) != "" {
        EraseEachCons(seps, Strip(w.Text()), Rendered(ws[1..]));
      } else {
        AppendNilLeft(Rendered(ws[1..]));
        AppendNilLeft(ErasedFresh(seps, ws[1..]));
      }
    }
  }

  /** The carried-over part of a chunk is never longer than the overlap. */
  lemma CarryBounded(text: string, size: int, overlap: int, seps: seq<string>)
    requires size >= 1 && overlap >= 0 && "" in seps
    ensures var parts := ErasedFresh(seps, Windows(text, size, overlap, seps));
            var chunks := EraseEach(seps, Chunks(text, size, overlap, seps));
            |chunks| == |parts| && forall i :: 0 <= i < |parts| ==> |chunks[i]| <= |parts[i]| + overlap
  {
    SplitBounded(text, seps, size);
    MergeBounded(SplitText(text, seps, size), Window("", ""), size, overlap);
    CarryShort(seps, Windows(text, size, overlap, seps), overlap);
  }

  lemma {:induction false} EraseShorter(seps: seq<string>, s: string)
    ensures |Erase(seps, s)| <= |s|
  {
    if s != "" {
      EraseShorter(seps, s[1..]);
    }
  }

  lemma {:induction false} CarryShort(seps: seq<string>, ws: seq<Window>, overlap: int)
    requires forall i :: 0 <= i < |ws| ==> |ws[i].carry| <= overlap
    ensures |Rendered(ws)| == |ErasedFresh(seps, ws)|
    ensures forall i :: 0 <= i < |Rendered(ws)| ==>
              |Erase(seps, Rendered(ws)[i])| <= |ErasedFresh(seps, ws)[i]| + overlap
  {
    hide Erase, Strip;
    if ws != [] {
      var w := ws[0];
      CarryShort(seps, ws[1..], overlap);
      EraseStrip(seps, w.Text());
      EraseAppend(seps, w.carry, w.added);
      EraseShorter(seps, w.carry);
    }
  }

  // ---- parents and children -------------------------------------------------------------

  datatype Pair = Pair(child: string, parent: string)

  function PairsWith(children: seq<string>, parent: string): (r: seq<Pair>)
    ensures |r| == |children| && forall i :: 0 <= i < |r| ==> r[i] == Pair(children[i], parent)
  {
    seq(|children|, i requires 0 <= i < |children| => Pair(children[i], parent))
  }

  function PairsOf(parents: seq<string>, childSize: int, childOverlap: int): seq<Pair> {
    if parents == [] then []
    else PairsWith(Chunks(parents[0], childSize, childOverlap, DEFAULT_SEPARATORS), parents[0])
         + PairsOf(parents[1..], childSize, childOverlap)
  }

  method ParentChildChunks(text: string, parentSize: int, childSize: int, childOverlap: int)
    returns (pairs: seq<Pair>)
    ensures pairs == PairsOf(Chunks(text, parentSize, 0, DEFAULT_SEPARATORS), childSize, childOverlap)
  {
    var parents := RecursiveChunks(text, parentSize, 0, DEFAULT_SEPARATORS);
    pairs := [];
    DropEnds(parents);
    NoPairs(parents[|parents|..], childSize, childOverlap);
    for i := 0 to |parents|
      invariant pairs + PairsOf(parents[i..], childSize, childOverlap) == PairsOf(parents, childSize, childOverlap)
    {
      hide Chunks, PairsOf, PairsWith;
      DropNext(parents, i);
      PairsCons(parents[i..], childSize, childOverlap);
      var children := RecursiveChunks(parents[i], childSize, childOverlap, DEFAULT_SEPARATORS);
      ghost var before := pairs;
      pairs := AppendPairs(pairs, children, parents[i]);
      Assoc(before, PairsWith(children, parents[i]), PairsOf(parents[i + 1..], childSize, childOverlap));
    }
  }

  /** `for child in ...: pairs.append((child, parent))` */
  method AppendPairs(before: seq<Pair>, children: seq<string>, parent: string) returns (pairs: seq<Pair>)
    ensures pairs == before + PairsWith(children, parent)
  {
    pairs := before;
    for j := 0 to |children|
      invariant pairs == before + PairsWith(children, parent)[..j]
    {
      pairs := pairs + [Pair(children[j], parent)];
    }
  }

  lemma PairsCons(parents: seq<string>, childSize: int, childOverlap: int)
    requires parents != []
    ensures PairsOf(parents, childSize, childOverlap)
         == PairsWith(Chunks(parents[0], childSize, childOverlap, DEFAULT_SEPARATORS), parents[0])
            + PairsOf(parents[1..], childSize, childOverlap)
  {
  }

  lemma NoPairs(none: seq<string>, childSize: int, childOverlap: int)
    requires none == []
    ensures PairsOf(none, childSize, childOverlap) == []
  {
  }

  /** Each pair couples a bounded, non-blank child with one of the parents, and the
      erased child is a contiguous piece of its own erased parent. */
  lemma {:induction false} PairsOk(parents: seq<string>, childSize: int, childOverlap: int, i: nat)
    requires childSize >= 1 && childOverlap >= 0 && i < |PairsOf(parents, childSize, childOverlap)|
    ensures var p := PairsOf(parents, childSize, childOverlap)[i];
            && p.parent in parents && Neat(p.child, childSize + childOverlap)
            && IsPieceOf(Erase(DEFAULT_SEPARATORS, p.child), Erase(DEFAULT_SEPARATORS, p.parent))
  {
    hide Erase, Chunks, Neat, IsPieceOf;
    var children := Chunks(parents[0], childSize, childOverlap, DEFAULT_SEPARATORS);
    if i < |children| {
      DefaultsEndEmpty();
      ChunksBounded(parents[0], childSize, childOverlap, DEFAULT_SEPARATORS);
      ChunkIsPiece(parents[0], childSize, childOverlap, DEFAULT_SEPARATORS, i);
    } else {
      PairsOk(parents[1..], childSize, childOverlap, i - |children|);
    }
  }

  /** A text that fits is one chunk, unless it is blank. */
  lemma WholeChunk(text: string, size: int, overlap: int, seps: seq<string>)
    requires |text| <= size
    ensures Chunks(text, size, overlap, seps) == if Strip(text) != "" then [Strip(text)] else []
  {
    hide Strip;
    var start, w := Window("", ""), Window("", text);
    AppendNilLeft(text);
    assert SplitText(text, seps, size) == [text] && |start.Text()| == 0;
    assert [text][1..] == [];
    assert Merge([text], start, size, overlap) == Merge([text][1..], w, size, overlap) == [w];
    RenderedCons(w, []);
    assert [w] + [] == [w] && w.Text() == text;
  }

  lemma DefaultsEndEmpty()
    ensures "" in DEFAULT_SEPARATORS
  {
    assert DEFAULT_SEPARATORS[4] == "";
  }

  /** The parents conserve the text: they carry no overlap. */
  lemma ParentsConserve(text: string, parentSize: int)
    ensures Flatten(EraseEach(DEFAULT_SEPARATORS, Chunks(text, parentSize, 0, DEFAULT_SEPARATORS)))
         == Erase(DEFAULT_SEPARATORS, text)
  {
    ChunksConserveExactly(text, parentSize, DEFAULT_SEPARATORS);
  }
}
