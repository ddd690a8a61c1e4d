/** How pieces are merged into windows, and children listed under their parents. */
module ChunkMerging {
  import opened Collections
  import opened Text
  import opened Chunkers

  /** The part carried over: the last `overlap` characters, all of them if there are fewer;
      a negative overlap drops that many from the front. */
  lemma CarriedIs(s: string, overlap: int)
    ensures IsSuffix(Carried(s, overlap), s)
    ensures |Carried(s, overlap)|
         == if overlap >= |s| then |s| else if overlap >= 0 then overlap
            else if |s| + overlap >= 0 then |s| + overlap else 0
  {
  }

  /** The window holds its carried part and the pieces [lo, hi); each piece fitted when it
      was added, except that a new window takes its first piece in any case. */
  ghost predicate WindowOk(ps: seq<string>, w: Window, lo: nat, hi: nat, size: int, start: bool) {
    && lo <= hi <= |ps| && w.added == Flatten(ps[lo..hi]) && (start || lo < hi)
    && forall j :: lo < j <= hi && (start || lo + 1 < j) ==> |w.carry| + |Flatten(ps[lo..j])| <= size
  }

  /** The windows take the pieces in order; `ends` says up to which piece each goes. A window
      is closed exactly when the next piece does not fit, and the next one starts with
      what is carried over. */
  ghost predicate Merged(ps: seq<string>, ws: seq<Window>, ends: seq<nat>, lo: nat, carry: string, start: bool,
                         size: int, overlap: int)
    decreases |ws|
  {
    && ws != [] && |ends| == |ws| && ws[0].carry == carry && WindowOk(ps, ws[0], lo, ends[0], size, start)
    && (if |ws| == 1 then ends[0] == |ps|
        else ends[0] < |ps| && |ws[0].carry + ws[0].added| + |ps[ends[0]]| > size
             && Merged(ps, ws[1..], ends[1..], ends[0], Carried(ws[0].carry + ws[0].added, overlap), false,
                       size, overlap))
  }

  lemma MergedCons(ps: seq<string>, w: Window, ws: seq<Window>, hi: nat, ends: seq<nat>, lo: nat, start: bool,
                   size: int, overlap: int)
    requires WindowOk(ps, w, lo, hi, size, start) && hi < |ps| && |w.carry + w.added| + |ps[hi]| > size
    requires Merged(ps, ws, ends, hi, Carried(w.carry + w.added, overlap), false, size, overlap)
    ensures Merged(ps, [w] + ws, [hi] + ends, lo, w.carry, start, size, overlap)
  {
    hide WindowOk, Carried;
    assert ([w] + ws)[1..] == ws && ([hi] + ends)[1..] == ends;
  }

  lemma PieceAdded(ps: seq<string>, w: Window, lo: nat, hi: nat, size: int, start: bool)
    requires WindowOk(ps, w, lo, hi, size, start) && hi < |ps| && |w.Text()| + |ps[hi]| <= size
    ensures WindowOk(ps, Window(w.carry, w.added + ps[hi]), lo, hi + 1, size, start)
  {
    assert ps[lo..hi + 1] == ps[lo..hi] + [ps[hi]];
    FlattenSnoc(ps[lo..hi], ps[hi]);
  }

  lemma NewWindow(ps: seq<string>, carry: string, hi: nat, size: int)
    requires hi < |ps|
    ensures WindowOk(ps, Window(carry, ps[hi]), hi, hi + 1, size, false)
  {
    assert ps[hi..hi + 1] == [ps[hi]];
    FlattenOne(ps[hi]);
  }

  lemma {:induction false} MergeIs(ps: seq<string>, w: Window, lo: nat, hi: nat, start: bool, size: int, overlap: int)
    returns (ends: seq<nat>)
    requires WindowOk(ps, w, lo, hi, size, start)
    ensures Merged(ps, Merge(ps[hi..], w, size, overlap), ends, lo, w.carry, start, size, overlap)
    decreases |ps| - hi
  {
    hide WindowOk, Carried;
    Bounds(ps, w, lo, hi, size, start);
    if hi == |ps| {
      ends := [hi];
    } else {
      DropNext(ps, hi);
      if |w.Text()| + |ps[hi]| <= size {
        PieceAdded(ps, w, lo, hi, size, start);
        ends := MergeIs(ps, Window(w.carry, w.added + ps[hi]), lo, hi + 1, start, size, overlap);
      } else {
        var next := Window(Carried(w.Text(), overlap), ps[hi]);
        NewWindow(ps, next.carry, hi, size);
        var more := MergeIs(ps, next, hi, hi + 1, false, size, overlap);
        ends := [hi] + more;
        MergedCons(ps, w, Merge(ps[hi + 1..], next, size, overlap), hi, more, lo, start, size, overlap);
      }
    }
  }

  lemma Bounds(ps: seq<string>, w: Window, lo: nat, hi: nat, size: int, start: bool)
    requires WindowOk(ps, w, lo, hi, size, start)
    ensures lo <= hi <= |ps|
  {
  }

  /** The windows are a greedy merge of the pieces, and the chunks are the windows, stripped,
      without the blank ones. */
  lemma WindowsAreGreedy(text: string, size: int, overlap: int, seps: seq<string>) returns (ends: seq<nat>)
    ensures Merged(SplitText(text, seps, size), Windows(text, size, overlap, seps), ends, 0, "", true, size, overlap)
  {
    var ps := SplitText(text, seps, size);
    assert ps[0..0] == [] && ps[0..] == ps;
    assert WindowOk(ps, Window("", ""), 0, 0, size, true);
    ends := MergeIs(ps, Window("", ""), 0, 0, true, size, overlap);
  }

  /** The chunks, one by one: `ks` are the windows that are not blank. */
  lemma {:induction false} ChunksAre(ws: seq<Window>) returns (ks: seq<nat>)
    ensures |ks| == |Rendered(ws)| && NotBlank(ws, |ws|, ks)
    ensures forall m :: 0 <= m < |ks| ==> ks[m] < |ws| && Rendered(ws)[m] == Strip(ws[ks[m]].carry + ws[ks[m]].added)
    decreases |ws|
  {
    hide Strip;
    if ws == [] {
      ks := [];
    } else {
      var n := |ws| - 1;
      var before := ChunksAre(ws[..n]);
      ks := LastChunk(ws, before);
    }
  }

  /** `ks` are the windows among the first `n` that are not blank. */
  ghost predicate NotBlank(ws: seq<Window>, n: nat, ks: seq<nat>)
    requires n <= |ws|
  {
    Rising(ks) && forall i :: i in ks <==> 0 <= i < n && Strip(ws[i].carry + ws[i].added) != ""
  }

  lemma LastChunk(ws: seq<Window>, before: seq<nat>) returns (ks: seq<nat>)
    requires ws != [] && |before| == |Rendered(ws[..|ws| - 1])| && NotBlank(ws[..|ws| - 1], |ws| - 1, before)
    requires forall m :: 0 <= m < |before| ==>
               && before[m] < |ws| - 1
               && Rendered(ws[..|ws| - 1])[m]
                  == Strip(ws[..|ws| - 1][before[m]].carry + ws[..|ws| - 1][before[m]].added)
    ensures |ks| == |Rendered(ws)| && NotBlank(ws, |ws|, ks)
    ensures forall m :: 0 <= m < |ks| ==> ks[m] < |ws| && Rendered(ws)[m] == Strip(ws[ks[m]].carry + ws[ks[m]].added)
  {
    hide Strip, Rendered;
    var n := |ws| - 1;
    RenderedSnoc(ws[..n], ws[n]);
    assert ws == ws[..n] + [ws[n]];
    assert forall i :: 0 <= i < n ==> ws[..n][i] == ws[i];
    ks := before;
    if Strip(ws[n].carry + ws[n].added) != "" {
      RisingSnoc(before, n);
      ks := before + [n];
    }
  }

  lemma {:induction false} RenderedSnoc(ws: seq<Window>, w: Window)
    ensures Rendered(ws + [w])
         == Rendered(ws) + (if Strip(w.carry + w.added) != "" then [Strip(w.carry + w.added)] else [])
  {
    hide Strip;
    if ws == [] {
      AppendNilLeft([w]);
      RenderedCons(w, []);
      AppendNil([w], []);
      AppendNilLeft(if Strip(w.carry + w.added) != "" then [Strip(w.carry + w.added)] else []);
    } else {
      RenderedSnoc(ws[1..], w);
      assert (ws + [w])[1..] == ws[1..] + [w];
      var head := if Strip(ws[0].Text()) != "" then [Strip(ws[0].Text())] else [];
      Assoc(head, Rendered(ws[1..]), if Strip(w.carry + w.added) != "" then [Strip(w.carry + w.added)] else []);
    }
  }

  // ---- parents and children ------------------------------------------------------------------

  /** The number of children of the parents before the i-th. */
  function Earlier(parents: seq<string>, i: nat, childSize: int, childOverlap: int): nat
    requires i <= |parents|
  {
    if i == 0 then 0
    else Earlier(parents, i - 1, childSize, childOverlap)
         + |Chunks(parents[i - 1], childSize, childOverlap, DEFAULT_SEPARATORS)|
  }

  lemma {:induction false} EarlierTail(parents: seq<string>, i: nat, childSize: int, childOverlap: int)
    requires 0 < i <= |parents|
    ensures Earlier(parents, i, childSize, childOverlap)
         == |Chunks(parents[0], childSize, childOverlap, DEFAULT_SEPARATORS)|
            + Earlier(parents[1..], i - 1, childSize, childOverlap)
  {
    hide Chunks;
    if i > 1 {
      EarlierTail(parents, i - 1, childSize, childOverlap);
    }
  }

  /** The j-th child of the i-th parent stands, with that parent, behind the children of all
      earlier parents; and there are no other pairs. */
  lemma {:induction false} PairsAt(parents: seq<string>, childSize: int, childOverlap: int)
    ensures |PairsOf(parents, childSize, childOverlap)| == Earlier(parents, |parents|, childSize, childOverlap)
    ensures forall i, j ::
              0 <= i < |parents| && 0 <= j < |Chunks(parents[i], childSize, childOverlap, DEFAULT_SEPARATORS)|
              ==> PairPlaced(parents, childSize, childOverlap, i, j)
    decreases |parents|
  {
    hide Chunks, PairPlaced;
    if parents != [] {
      PairsAt(parents[1..], childSize, childOverlap);
      EarlierTail(parents, |parents|, childSize, childOverlap);
      forall i, j | 0 <= i < |parents| && 0 <= j < |Chunks(parents[i], childSize, childOverlap, DEFAULT_SEPARATORS)|
        ensures PairPlaced(parents, childSize, childOverlap, i, j)
      {
        if i == 0 {
          FirstPlaced(parents, childSize, childOverlap, j);
        } else {
          assert parents[1..][i - 1] == parents[i];
          LaterPlaced(parents, childSize, childOverlap, i, j);
        }
      }
    }
  }

  ghost predicate PairPlaced(parents: seq<string>, childSize: int, childOverlap: int, i: nat, j: nat)
    requires i < |parents| && j < |Chunks(parents[i], childSize, childOverlap, DEFAULT_SEPARATORS)|
  {
    var at := Earlier(parents, i, childSize, childOverlap) + j;
    at < |PairsOf(parents, childSize, childOverlap)|
    && PairsOf(parents, childSize, childOverlap)[at]
       == Pair(Chunks(parents[i], childSize, childOverlap, DEFAULT_SEPARATORS)[j], parents[i])
  }

  lemma FirstPlaced(parents: seq<string>, childSize: int, childOverlap: int, j: nat)
    requires parents != [] && j < |Chunks(parents[0], childSize, childOverlap, DEFAULT_SEPARATORS)|
    ensures PairPlaced(parents, childSize, childOverlap, 0, j)
  {
    hide Chunks;
  }

  lemma LaterPlaced(parents: seq<string>, childSize: int, childOverlap: int, i: nat, j: nat)
    requires 0 < i < |parents| && j < |Chunks(parents[i], childSize, childOverlap, DEFAULT_SEPARATORS)|
    requires parents[1..][i - 1] == parents[i] && PairPlaced(parents[1..], childSize, childOverlap, i - 1, j)
    ensures PairPlaced(parents, childSize, childOverlap, i, j)
  {
    hide Chunks;
    EarlierTail(parents, i, childSize, childOverlap);
  }
}
