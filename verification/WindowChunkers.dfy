/** Fixed windows and sentence grouping. */
module WindowChunkers {
  import opened Collections
  import opened Text
  import Chunkers

  // ---- fixed windows ----------------------------------------------------------

  /** `text[i:i + size]` */
  function Slice(text: string, i: nat, size: nat): string {
    if i >= |text| then "" else if i + size >= |text| then text[i..] else text[i..i + size]
  }

  /** `range(i, stop, step)` */
  function Range(i: nat, stop: nat, step: nat): seq<nat>
    requires step >= 1
    decreases stop - i
  {
    if i >= stop then [] else [i] + Range(i + step, stop, step)
  }

  function Step(size: int, overlap: int): nat {
    if size - overlap >= 1 then size - overlap else 1
  }

  function Starts(text: string, size: nat, overlap: int): seq<nat> {
    Range(0, if |text| >= 1 then |text| else 1, Step(size, overlap))
  }

  /** Every window, blank ones included. */
  function Slices(text: string, starts: seq<nat>, size: nat): seq<string> {
    if starts == [] then [] else [Slice(text, starts[0], size)] + Slices(text, starts[1..], size)
  }

  /** The windows that are not blank. */
  function Kept(windows: seq<string>): seq<string> {
    if windows == [] then []
    else (if Strip(windows[0]) != "" then [windows[0]] else []) + Kept(windows[1..])
  }

  datatype ValueError = SizeMustBePositive

  function FixedChunks(text: string, size: int, overlap: int): Result<seq<string>, ValueError> {
    if size <= 0 then Err(SizeMustBePositive)
    else Ok(Kept(Slices(text, Starts(text, size, overlap), size)))
  }

  /** A returned window holds the character at position `p`. */
  ghost predicate Covered(text: string, size: int, overlap: int, p: nat)
    requires size >= 1
  {
    exists s :: s in Starts(text, size, overlap) && s <= p < s + size
      && Slice(text, s, size) in FixedChunks(text, size, overlap).value
  }

  lemma {:induction false} RangeElements(i: nat, stop: nat, step: nat, s: nat)
    requires step >= 1
    ensures s in Range(i, stop, step) <==> i <= s < stop && (s - i) % step == 0
    decreases stop - i
  {
    if i < stop {
      var rest := Range(i + step, stop, step);
      assert s in Range(i, stop, step) <==> s == i || s in rest;
      RangeElements(i + step, stop, step, s);
      ModStep(s, i, step);
    }
  }

  /** Membership in a progression, one step at a time. */
  lemma ModStep(s: nat, i: nat, step: nat)
    requires step >= 1
    ensures i <= s && (s - i) % step == 0 <==> s == i || (i + step <= s && (s - (i + step)) % step == 0)
  {
    if s >= i + step {
      DivUnique(s - i, step, (s - (i + step)) / step + 1, (s - (i + step)) % step);
    } else if s >= i {
      DivUnique(s - i, step, 0, s - i);
    }
  }

  lemma {:induction false} MulAtLeast(m: nat, k: nat)
    requires k >= 1
    ensures m * k >= m
  {
    if k > 1 {
      MulAtLeast(m, k - 1);
      Distribute(m, k - 1, 1);
    }
  }

  lemma Distribute(m: int, a: int, b: int)
    ensures m * (a + b) == m * a + m * b
  {
  }

  lemma DivUnique(x: nat, m: nat, q: nat, r: nat)
    requires m >= 1 && r < m && x == m * q + r
    ensures x / m == q && x % m == r
  {
    var q', r' := x / m, x % m;
    assert x == m * q' + r';
    if q > q' {
      Distribute(m, q', q - q');
      MulAtLeast(m, q - q');
      assert false;
    } else if q < q' {
      Distribute(m, q, q' - q);
      MulAtLeast(m, q' - q);
      assert false;
    }
  }

  lemma {:induction false} KeptElements(text: string, starts: seq<nat>, size: nat, s: nat)
    requires s in starts && Strip(Slice(text, s, size)) != ""
    ensures Slice(text, s, size) in Kept(Slices(text, starts, size))
  {
    hide Strip, Slice;
    var windows := Slices(text, starts, size);
    assert windows[1..] == Slices(text, starts[1..], size);
    if s != starts[0] {
      KeptElements(text, starts[1..], size, s);
    }
  }

  /** A non-space character is in some returned window exactly when its offset within
      its step is below `size`. */
  lemma FixedCovers(text: string, size: int, overlap: int, p: nat)
    requires size >= 1 && p < |text| && !IsSpace(text[p])
    ensures Covered(text, size, overlap, p) <==> p % Step(size, overlap) < size
  {
    hide Covered, Starts;
    if p % Step(size, overlap) < size {
      OffsetCovered(text, size, overlap, p);
    }
    if Covered(text, size, overlap, p) {
      CoveredOffset(text, size, overlap, p);
    }
  }

  lemma StartsAre(text: string, size: nat, overlap: int, s: nat)
    requires text != ""
    ensures s in Starts(text, size, overlap) <==> s < |text| && s % Step(size, overlap) == 0
  {
    RangeElements(0, |text|, Step(size, overlap), s);
  }

  lemma OffsetCovered(text: string, size: int, overlap: int, p: nat)
    requires size >= 1 && p < |text| && !IsSpace(text[p]) && p % Step(size, overlap) < size
    ensures Covered(text, size, overlap, p)
  {
    hide Slices, Kept, Slice, Starts, Strip;
    var step := Step(size, overlap);
    StartOf(p, step);
    var s := p - p % step;
    StartsAre(text, size, overlap, s);
    SliceNotBlank(text, s, size, p);
    KeptElements(text, Starts(text, size, overlap), size, s);
  }

  lemma CoveredOffset(text: string, size: int, overlap: int, p: nat)
    requires size >= 1 && p < |text| && Covered(text, size, overlap, p)
    ensures p % Step(size, overlap) < size
  {
    hide Slices, Kept, Slice, Starts;
    var s :| s in Starts(text, size, overlap) && s <= p < s + size
             && Slice(text, s, size) in FixedChunks(text, size, overlap).value;
    StartsAre(text, size, overlap, s);
    Nearest(s, p, Step(size, overlap));
  }

  lemma SliceNotBlank(text: string, s: nat, size: nat, p: nat)
    requires s <= p < s + size && p < |text| && !IsSpace(text[p])
    ensures Strip(Slice(text, s, size)) != ""
  {
    var w := Slice(text, s, size);
    assert w[p - s] == text[p];
    TrimBlank(w, IsSpace);
  }

  lemma StartOf(p: nat, step: nat)
    requires step >= 1
    ensures 0 <= p - p % step <= p && (p - p % step) % step == 0 && p % step < step
  {
    var q := p / step;
    assert p == step * q + p % step;
    DivUnique(p - p % step, step, q, 0);
  }

  /** The last multiple of `step` up to `p` is at least as near as any other. */
  lemma Nearest(s: nat, p: nat, step: nat)
    requires step >= 1 && s <= p && s % step == 0
    ensures p % step <= p - s
  {
    var d := p - s;
    var a := s / step;
    assert s == step * a;
    var q, r := d / step, d % step;
    assert d == step * q + r;
    Distribute(step, a, q);
    DivUnique(p, step, a + q, r);
    MulNonNegative(step, q);
  }

  lemma MulNonNegative(m: nat, k: nat)
    ensures m * k >= 0
  {
  }

  /** With a non-negative overlap every non-space character is covered; with a negative
      one the characters in the gaps are exactly the ones missed. */
  lemma FixedCoversAll(text: string, size: int, overlap: int, p: nat)
    requires size >= 1 && p < |text| && !IsSpace(text[p]) && overlap >= 0
    ensures Covered(text, size, overlap, p)
  {
    FixedCovers(text, size, overlap, p);
  }

  /** The leading `step` characters of every window. */
  function Heads(windows: seq<string>, step: nat): seq<string> {
    if windows == [] then [] else [UpTo(windows[0], step)] + Heads(windows[1..], step)
  }

  lemma HeadOf(text: string, i: nat, step: nat, size: nat)
    requires 1 <= step <= size && i < |text|
    ensures UpTo(Slice(text, i, size), step) == if i + step <= |text| then text[i..i + step] else text[i..]
  {
  }

  lemma HeadsCons(text: string, i: nat, starts: seq<nat>, step: nat, size: nat)
    ensures Flatten(Heads(Slices(text, [i] + starts, size), step))
         == UpTo(Slice(text, i, size), step) + Flatten(Heads(Slices(text, starts, size), step))
  {
    hide Slice, UpTo;
    assert ([i] + starts)[1..] == starts;
    var window, windows := Slice(text, i, size), Slices(text, starts, size);
    assert ([window] + windows)[1..] == windows;
    FlattenCons([UpTo(window, step)] + Heads(windows, step));
    assert ([UpTo(window, step)] + Heads(windows, step))[1..] == Heads(windows, step);
  }

  lemma {:induction false} HeadsRebuild(text: string, i: nat, step: nat, size: nat)
    requires 1 <= step <= size && i <= |text|
    ensures Flatten(Heads(Slices(text, Range(i, |text|, step), size), step)) == text[i..]
    decreases |text| - i
  {
    hide Slice, UpTo;
    if i < |text| {
      var rest := Range(i + step, |text|, step);
      HeadsCons(text, i, rest, step, size);
      HeadOf(text, i, step, size);
      if i + step <= |text| {
        HeadsRebuild(text, i + step, step, size);
        assert text[i..] == text[i..i + step] + text[i + step..];
      } else {
        AppendNil(text[i..], "");
      }
    }
  }

  /** The returned windows are the non-blank ones of a list whose leading `size - overlap`
      characters, window by window, are the text. */
  lemma FixedRebuilds(text: string, size: int, overlap: int)
    requires 0 <= overlap < size
    ensures var windows := Slices(text, Starts(text, size, overlap), size);
            && FixedChunks(text, size, overlap) == Ok(Kept(windows))
            && Flatten(Heads(windows, size - overlap)) == text
  {
    if text == "" {
      assert Range(size - overlap, 1, size - overlap) == [];
      var starts := Starts(text, size, overlap);
      assert starts == [0] && starts[1..] == [];
      assert Slices(text, starts, size) == [""];
      assert Heads([""][1..], size - overlap) == [];
      FlattenCons([""]);
      FlattenNil<char>();
    } else {
      HeadsRebuild(text, 0, size - overlap, size);
    }
  }

  lemma {:induction false} RangeAt(i: nat, stop: nat, step: nat)
    requires step >= 1
    ensures forall k :: 0 <= k < |Range(i, stop, step)| ==>
              Range(i, stop, step)[k] == i + k * step && i + k * step < stop
    ensures i < stop ==> |Range(i, stop, step)| > 0
    ensures i + |Range(i, stop, step)| * step >= stop
    decreases stop - i
  {
    if i < stop {
      var rest := Range(i + step, stop, step);
      RangeAt(i + step, stop, step);
      forall k | 0 <= k < |rest| + 1 ensures ([i] + rest)[k] == i + k * step && i + k * step < stop {
        if k > 0 {
          OneMore(i, step, k - 1);
          assert rest[k - 1] == i + step + (k - 1) * step;
        }
      }
      OneMore(i, step, |rest|);
    }
  }

  lemma OneMore(i: nat, step: nat, k: nat)
    ensures i + step + k * step == i + (k + 1) * step
  {
  }

  lemma {:induction false} SlicesAre(text: string, starts: seq<nat>, size: nat)
    ensures |Slices(text, starts, size)| == |starts|
    ensures forall k :: 0 <= k < |starts| ==> Slices(text, starts, size)[k] == Slice(text, starts[k], size)
  {
    hide Slice;
    if starts != [] {
      SlicesAre(text, starts[1..], size);
    }
  }

  /** The windows before blank ones are dropped: the k-th starts at k times the step, is `size`
      long unless the text ends first, and the last one reaches the end. */
  lemma FixedWindows(text: string, size: int, overlap: int)
    requires size >= 1
    ensures var windows, step := Slices(text, Starts(text, size, overlap), size),
                                 if size - overlap >= 1 then size - overlap else 1;
            && |windows| >= 1 && |windows| * step >= |text|
            && forall k :: 0 <= k < |windows| ==>
                 && (k == 0 || k * step < |text|)
                 && windows[k] == if k * step + size <= |text| then text[k * step..k * step + size]
                                  else if k * step <= |text| then text[k * step..] else ""
  {
    hide Slices, Range;
    var step := Step(size, overlap);
    var starts := Starts(text, size, overlap);
    RangeAt(0, if |text| >= 1 then |text| else 1, step);
    SlicesAre(text, starts, size);
    forall k | 0 <= k < |starts| ensures starts[k] == k * step && k * step >= 0 {
      assert 0 + k * step == k * step;
    }
  }

  // ---- sentences --------------------------------------------------------------------

  predicate EndsSentence(c: char) { c == '.' || c == '!' || c == '?' }

  /** Split at every white-space run that follows `.`, `!` or `?`; `part` is the
      sentence read so far. */
  function SentenceParts(part: string, s: string): seq<string>
    decreases |s|
  {
    if s == "" then [part]
    else if IsSpace(s[0]) && part != "" && EndsSentence(part[|part| - 1]) then
      [part] + SentenceParts("", TrimLeft(s, IsSpace))
    else SentenceParts(part + [s[0]], s[1..])
  }

  function NonBlank(parts: seq<string>): seq<string> {
    if parts == [] then []
    else (if Strip(parts[0]) != "" then [Strip(parts[0])] else []) + NonBlank(parts[1..])
  }

  /** `_split_sentences` */
  function SplitSentences(text: string): seq<string> { NonBlank(SentenceParts("", Strip(text))) }

  /** The non-space characters of a text, in order. */
  ghost function Unspaced(s: string): string { Chunkers.Erase([], s) }

  lemma UnspacedAppend(a: string, b: string)
    ensures Unspaced(a + b) == Unspaced(a) + Unspaced(b)
  {
    Chunkers.EraseAppend([], a, b);
  }

  lemma UnspacedBlank(s: string)
    requires forall i :: 0 <= i < |s| ==> IsSpace(s[i])
    ensures Unspaced(s) == ""
  {
    Chunkers.EraseAll([], s);
  }

  lemma UnspacedStrip(s: string)
    ensures Unspaced(Strip(s)) == Unspaced(s)
  {
    Chunkers.EraseStrip([], s);
  }

  lemma {:induction false} PartsConserve(part: string, s: string)
    ensures Unspaced(Flatten(SentenceParts(part, s))) == Unspaced(part) + Unspaced(s)
    decreases |s|
  {
    hide Unspaced;
    if s == "" {
      FlattenCons([part]);
      FlattenNil<char>();
      AppendNil(part, "");
      UnspacedBlank("");
    } else if IsSpace(s[0]) && part != "" && EndsSentence(part[|part| - 1]) {
      var t := TrimLeft(s, IsSpace);
      var left := TrimLeftCut(s, IsSpace);
      PartsConserve("", t);
      UnspacedBlank(left);
      UnspacedBlank("");
      UnspacedAppend(left, t);
      FlattenCons([part] + SentenceParts("", t));
      assert ([part] + SentenceParts("", t))[1..] == SentenceParts("", t);
      UnspacedAppend(part, Flatten(SentenceParts("", t)));
    } else {
      PartsConserve(part + [s[0]], s[1..]);
      UnspacedAppend(part, [s[0]]);
      UnspacedAppend([s[0]], s[1..]);
      assert s == [s[0]] + s[1..];
      Assoc(Unspaced(part), Unspaced([s[0]]), Unspaced(s[1..]));
    }
  }

  lemma {:induction false} NonBlankConserves(parts: seq<string>)
    ensures Unspaced(Flatten(NonBlank(parts))) == Unspaced(Flatten(parts))
  {
    hide Unspaced, Strip;
    if parts != [] {
      NonBlankConserves(parts[1..]);
      UnspacedStrip(parts[0]);
      UnspacedAppend(parts[0], Flatten(parts[1..]));
      UnspacedBlank("");
      if Strip(parts[0]) != "" {
        assert ([Strip(parts[0])] + NonBlank(parts[1..]))[1..] == NonBlank(parts[1..]);
        UnspacedAppend(Strip(parts[0]), Flatten(NonBlank(parts[1..])));
      } else {
        AppendNilLeft(NonBlank(parts[1..]));
        AppendNilLeft(Unspaced(Flatten(parts[1..])));
      }
    }
  }

  /** The sentences hold every non-space character of the text, in order. */
  lemma SentencesConserve(text: string)
    ensures Unspaced(Flatten(SplitSentences(text))) == Unspaced(text)
  {
    PartsConserve("", Strip(text));
    NonBlankConserves(SentenceParts("", Strip(text)));
    UnspacedStrip(text);
    UnspacedBlank("");
  }

  // ---- grouping by similarity ------------------------------------------------------------

  /** `sum(len(s) + 1 for s in group)` */
  function JoinedLen(group: seq<string>): nat {
    if group == [] then 0 else |group[0]| + 1 + JoinedLen(group[1..])
  }

  lemma {:induction false} JoinedLenAppend(a: seq<string>, b: seq<string>)
    ensures JoinedLen(a + b) == JoinedLen(a) + JoinedLen(b)
  {
    if a == [] {
      assert a + b == b;
    } else {
      JoinedLenAppend(a[1..], b);
      assert (a + b)[1..] == a[1..] + b;
    }
  }

  lemma {:induction false} JoinLength(group: seq<string>)
    requires group != []
    ensures |Join(group, " ")| == JoinedLen(group) - 1
  {
    if |group| == 1 {
      assert JoinedLen(group[1..]) == 0;
    } else {
      JoinLength(group[1..]);
    }
  }

  /** The running sum plus the next sentence is the length of the joined string. */
  lemma FitsIsJoinLength(group: seq<string>, next: string)
    requires group != []
    ensures JoinedLen(group) + |next| == |Join(group + [next], " ")|
  {
    JoinedLenAppend(group, [next]);
    assert JoinedLen([next]) == |next| + 1 + JoinedLen([next][1..]);
    JoinLength(group + [next]);
  }

  predicate Extends(sim: real, threshold: real, group: seq<string>, next: string, maxChars: int) {
    sim >= threshold && JoinedLen(group) + |next| <= maxChars
  }

  /** The groups still to come, `current` being open and sentence `i` next. */
  function Groups(ss: seq<string>, sims: seq<real>, threshold: real, maxChars: int, i: nat, current: seq<string>)
    : seq<seq<string>>
    requires 1 <= i <= |ss| && |sims| == |ss|
    decreases |ss| - i
  {
    if i == |ss| then [current]
    else if Extends(sims[i], threshold, current, ss[i], maxChars) then
      Groups(ss, sims, threshold, maxChars, i + 1, current + [ss[i]])
    else [current] + Groups(ss, sims, threshold, maxChars, i + 1, [ss[i]])
  }

  function JoinEach(groups: seq<seq<string>>): (r: seq<string>)
    ensures |r| == |groups| && forall i :: 0 <= i < |r| ==> r[i] == Join(groups[i], " ")
  {
    seq(|groups|, i requires 0 <= i < |groups| => Join(groups[i], " "))
  }

  lemma GroupsStep(ss: seq<string>, sims: seq<real>, threshold: real, maxChars: int, i: nat, current: seq<string>)
    requires 1 <= i < |ss| && |sims| == |ss|
    ensures Groups(ss, sims, threshold, maxChars, i, current)
         == if Extends(sims[i], threshold, current, ss[i], maxChars) then
              Groups(ss, sims, threshold, maxChars, i + 1, current + [ss[i]])
            else [current] + Groups(ss, sims, threshold, maxChars, i + 1, [ss[i]])
  {
  }

  /** `sims[i]` is the similarity of sentence `i` with the one before it. */
  method SemanticChunks(text: string, sims: seq<real>, threshold: real, maxChars: int) returns (chunks: seq<string>)
    requires |sims| == |SplitSentences(text)|
    ensures var ss := SplitSentences(text);
            chunks == if |ss| > 1 then JoinEach(Groups(ss, sims, threshold, maxChars, 1, [ss[0]]))
                      else if Strip(text) != "" then [Strip(text)] else []
  {
    var sentences := SplitSentences(text);
    if |sentences| <= 1 {
      return if Strip(text) != "" then [Strip(text)] else [];
    }
    hide Strip, SplitSentences, Groups, Join, JoinEach;
    NoneJoined();
    chunks := [];
    var current := [sentences[0]];
    ghost var closed: seq<seq<string>> := [];
    for i := 1 to |sentences|
      invariant chunks == JoinEach(closed)
      invariant closed + Groups(sentences, sims, threshold, maxChars, i, current)
             == Groups(sentences, sims, threshold, maxChars, 1, [sentences[0]])
    {
      GroupsStep(sentences, sims, threshold, maxChars, i, current);
      var joinedLen := JoinedLen(current);
      if sims[i] >= threshold && joinedLen + |sentences[i]| <= maxChars {
        current := current + [sentences[i]];
      } else {
        Assoc(closed, [current], Groups(sentences, sims, threshold, maxChars, i + 1, [sentences[i]]));
        JoinEachSnoc(closed, current);
        closed := closed + [current];
        chunks := chunks + [Join(current, " ")];
        current := [sentences[i]];
      }
    }
    chunks := chunks + [Join(current, " ")];
    JoinEachSnoc(closed, current);
    LastGroup(sentences, sims, threshold, maxChars, current);
  }

  lemma NoneJoined()
    ensures JoinEach([]) == []
  {
  }

  lemma JoinEachSnoc(groups: seq<seq<string>>, g: seq<string>)
    ensures JoinEach(groups + [g]) == JoinEach(groups) + [Join(g, " ")]
  {
    hide Join;
  }

  lemma LastGroup(ss: seq<string>, sims: seq<real>, threshold: real, maxChars: int, current: seq<string>)
    requires 1 <= |ss| == |sims|
    ensures Groups(ss, sims, threshold, maxChars, |ss|, current) == [current]
  {
  }

  /** Sentence `k` of a group starting at `at` was similar to its neighbour and still fitted. */
  ghost predicate Joined(sims: seq<real>, threshold: real, maxChars: int, g: seq<string>, at: nat, k: nat)
    requires k < |g| && at + k < |sims|
  {
    sims[at + k] >= threshold && |Join(g[..k + 1], " ")| <= maxChars
  }

  ghost predicate AllJoined(sims: seq<real>, threshold: real, maxChars: int, g: seq<string>, at: nat)
    requires at + |g| <= |sims|
  {
    forall k :: 1 <= k < |g| ==> Joined(sims, threshold, maxChars, g, at, k)
  }

  /** The groups are the sentences from `at` on, in order; inside a group neighbours are
      similar and every prefix fits; between groups the cut was forced. */
  ghost predicate ProperCuts(groups: seq<seq<string>>, ss: seq<string>, sims: seq<real>, threshold: real,
                             maxChars: int, at: nat)
    requires |sims| == |ss|
    decreases |groups|
  {
    if groups == [] then at == |ss|
    else
      var g := groups[0];
      && g != [] && at + |g| <= |ss| && g == ss[at..at + |g|]
      && AllJoined(sims, threshold, maxChars, g, at)
      && (at + |g| < |ss| ==>
            sims[at + |g|] < threshold || |Join(g + [ss[at + |g|]], " ")| > maxChars)
      && ProperCuts(groups[1..], ss, sims, threshold, maxChars, at + |g|)
  }

  lemma JoinedGrows(sims: seq<real>, threshold: real, maxChars: int, g: seq<string>, at: nat, next: string)
    requires at + |g| < |sims| && g != [] && AllJoined(sims, threshold, maxChars, g, at)
    requires Extends(sims[at + |g|], threshold, g, next, maxChars)
    ensures AllJoined(sims, threshold, maxChars, g + [next], at)
  {
    var h := g + [next];
    FitsIsJoinLength(g, next);
    forall k | 1 <= k < |h| ensures Joined(sims, threshold, maxChars, h, at, k) {
      if k < |g| {
        assert Joined(sims, threshold, maxChars, g, at, k);
        assert h[..k + 1] == g[..k + 1];
      } else {
        assert h[..k + 1] == h;
      }
    }
  }

  lemma {:induction false} GroupsCut(ss: seq<string>, sims: seq<real>, threshold: real, maxChars: int, i: nat,
                                     current: seq<string>)
    requires 1 <= i <= |ss| && |sims| == |ss| && 1 <= |current| <= i && current == ss[i - |current|..i]
    requires AllJoined(sims, threshold, maxChars, current, i - |current|)
    ensures ProperCuts(Groups(ss, sims, threshold, maxChars, i, current), ss, sims, threshold, maxChars, i - |current|)
    decreases |ss| - i
  {
    hide AllJoined;
    if i < |ss| {
      FitsIsJoinLength(current, ss[i]);
      if Extends(sims[i], threshold, current, ss[i], maxChars) {
        JoinedGrows(sims, threshold, maxChars, current, i - |current|, ss[i]);
        assert current + [ss[i]] == ss[i - |current|..i + 1];
        GroupsCut(ss, sims, threshold, maxChars, i + 1, current + [ss[i]]);
      } else {
        OneJoined(sims, threshold, maxChars, ss[i], i);
        GroupsCut(ss, sims, threshold, maxChars, i + 1, [ss[i]]);
        ConsTail(current, Groups(ss, sims, threshold, maxChars, i + 1, [ss[i]]));
      }
    } else {
      ConsTail(current, []);
    }
  }

  lemma ConsTail<T>(x: T, xs: seq<T>)
    ensures ([x] + xs)[1..] == xs && [x][1..] == []
  {
  }

  lemma OneJoined(sims: seq<real>, threshold: real, maxChars: int, s: string, at: nat)
    requires at < |sims|
    ensures AllJoined(sims, threshold, maxChars, [s], at)
  {
  }

  /** For more than one sentence: a partition in order, cut exactly where the next
      sentence is dissimilar or would not fit. */
  lemma SemanticCuts(ss: seq<string>, sims: seq<real>, threshold: real, maxChars: int)
    requires |ss| > 1 && |sims| == |ss|
    ensures ProperCuts(Groups(ss, sims, threshold, maxChars, 1, [ss[0]]), ss, sims, threshold, maxChars, 0)
    ensures Flatten(Groups(ss, sims, threshold, maxChars, 1, [ss[0]])) == ss
    ensures forall g :: g in Groups(ss, sims, threshold, maxChars, 1, [ss[0]]) && |g| > 1 ==>
              |Join(g, " ")| <= maxChars
  {
    OneJoined(sims, threshold, maxChars, ss[0], 0);
    GroupsCut(ss, sims, threshold, maxChars, 1, [ss[0]]);
    CutsPartition(Groups(ss, sims, threshold, maxChars, 1, [ss[0]]), ss, sims, threshold, maxChars, 0);
  }

  lemma {:induction false} CutsPartition(groups: seq<seq<string>>, ss: seq<string>, sims: seq<real>,
                                         threshold: real, maxChars: int, at: nat)
    requires |sims| == |ss| && at <= |ss| && ProperCuts(groups, ss, sims, threshold, maxChars, at)
    ensures Flatten(groups) == ss[at..]
    ensures forall g :: g in groups && |g| > 1 ==> |Join(g, " ")| <= maxChars
    decreases |groups|
  {
    if groups != [] {
      hide AllJoined, Join;
      var g := groups[0];
      CutsPartition(groups[1..], ss, sims, threshold, maxChars, at + |g|);
      assert ss[at..] == ss[at..at + |g|] + ss[at + |g|..];
      LastJoined(sims, threshold, maxChars, g, at);
      assert forall h :: h in groups <==> h == g || h in groups[1..];
    }
  }

  lemma LastJoined(sims: seq<real>, threshold: real, maxChars: int, g: seq<string>, at: nat)
    requires at + |g| <= |sims| && AllJoined(sims, threshold, maxChars, g, at)
    ensures |g| > 1 ==> |Join(g, " ")| <= maxChars
  {
    if |g| > 1 {
      assert Joined(sims, threshold, maxChars, g, at, |g| - 1);
      assert g[..(|g| - 1) + 1] == g;
    }
  }
}
