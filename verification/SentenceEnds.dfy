/** Chunking with the default separators, seen finely: a full stop counts as a separator
    only where white space or the end of the text follows it. */
module SentenceEnds {
  import opened Collections
  import opened Text
  import opened Chunkers

  /** White space, and a full stop before white space or the end. */
  predicate Dropped(s: string)
    requires s != ""
  {
    IsSpace(s[0]) || (s[0] == '.' && (|s| == 1 || IsSpace(s[1])))
  }

  function Content(s: string): string {
    if s == "" then "" else (if Dropped(s) then "" else [s[0]]) + Content(s[1..])
  }

  /** Nothing after this text can change what its last full stop counts as. */
  predicate Closed(s: string) { s == "" || EndsInSpace(s) }

  lemma ContentCons(c: char, s: string)
    ensures Content([c] + s) == (if Dropped([c] + s) then "" else [c]) + Content(s)
  {
    assert ([c] + s)[1..] == s;
  }

  lemma DroppedAppend(a: string, b: string)
    requires a != "" && Closed(a)
    ensures Dropped(a + b) == Dropped(a)
  {
    if |a| > 1 {
      assert (a + b)[1] == a[1];
    }
  }

  lemma {:induction false} ContentAppend(a: string, b: string)
    requires Closed(a)
    ensures Content(a + b) == Content(a) + Content(b)
  {
    if a == "" {
      AppendNilLeft(b);
      AppendNilLeft(Content(b));
    } else {
      DroppedAppend(a, b);
      ContentAppend(a[1..], b);
      hide Dropped, Content;
      HeadTail(a);
      Assoc([a[0]], a[1..], b);
      ContentCons(a[0], a[1..]);
      ContentCons(a[0], a[1..] + b);
      Assoc(if Dropped(a) then "" else [a[0]], Content(a[1..]), Content(b));
    }
  }

  lemma {:induction false} ContentSpace(s: string)
    requires forall i :: 0 <= i < |s| ==> IsSpace(s[i])
    ensures Content(s) == ""
  {
    if s != "" {
      ContentSpace(s[1..]);
    }
  }

  /** White space at the end changes nothing. */
  lemma {:induction false} ContentTail(s: string, sp: string)
    requires forall i :: 0 <= i < |sp| ==> IsSpace(sp[i])
    ensures Content(s + sp) == Content(s)
  {
    if s == "" {
      AppendNilLeft(sp);
      ContentSpace(sp);
    } else {
      ContentTail(s[1..], sp);
      DroppedTail(s, sp);
      hide Dropped, Content;
      HeadTail(s);
      Assoc([s[0]], s[1..], sp);
      ContentCons(s[0], s[1..]);
      ContentCons(s[0], s[1..] + sp);
    }
  }

  lemma DroppedTail(s: string, sp: string)
    requires s != "" && forall i :: 0 <= i < |sp| ==> IsSpace(sp[i])
    ensures Dropped(s + sp) == Dropped(s)
  {
    if |s| > 1 {
      assert (s + sp)[1] == s[1];
    }
  }

  /** A line break or a blank run, or the sentence end. */
  predicate Separator(sep: string) {
    sep == ". " || (sep != "" && forall i :: 0 <= i < |sep| ==> IsSpace(sep[i]))
  }

  lemma SeparatorEmpty(sep: string)
    requires Separator(sep)
    ensures Content(sep) == "" && Closed(sep)
  {
    if sep == ". " {
      ContentSpace(" ");
      assert ". " == ['.'] + " ";
      ContentCons('.', " ");
    } else {
      ContentSpace(sep);
    }
  }

  /** A piece with its separator, alone or before more text. */
  lemma WithSepContent(p: string, sep: string, rest: string)
    requires Separator(sep)
    ensures Content(WithSep(p, sep) + rest) == Content(p + sep + rest)
    ensures Closed(WithSep(p, sep))
  {
    SeparatorEmpty(sep);
    if p == "" {
      AppendNilLeft(rest);
      AppendNilLeft(sep);
      ContentAppend(sep, rest);
    }
  }

  lemma LastWithSep(p: string, sep: string)
    requires Separator(sep) && (sep == ". " ==> Closed(p))
    ensures Content(WithSep(p, sep)) == Content(p)
  {
    SeparatorEmpty(sep);
    if sep == ". " {
      ContentAppend(p, sep);
    } else {
      ContentTail(p, sep);
    }
  }

  function WithSeps(pieces: seq<string>, sep: string): seq<string> {
    if pieces == [] then [] else [WithSep(pieces[0], sep)] + WithSeps(pieces[1..], sep)
  }

  /** Putting a separator after every piece keeps the content of the joined text. */
  lemma {:induction false} RejoinedContent(pieces: seq<string>, sep: string)
    requires pieces != [] && Separator(sep) && (sep == ". " ==> Closed(Last(pieces)))
    ensures Content(Flatten(WithSeps(pieces, sep))) == Content(Join(pieces, sep))
  {
    hide Content, WithSep, Separator;
    var p, q := pieces[0], WithSep(pieces[0], sep);
    if |pieces| == 1 {
      assert WithSeps(pieces[1..], sep) == [];
      FlattenOne(q);
      LastWithSep(p, sep);
    } else {
      var rest := WithSeps(pieces[1..], sep);
      RejoinedContent(pieces[1..], sep);
      assert ([q] + rest)[1..] == rest;
      FlattenCons([q] + rest);
      WithSepContent(p, sep, Join(pieces[1..], sep));
      ContentAppend(q, Flatten(rest));
      ContentAppend(q, Join(pieces[1..], sep));
    }
  }

  /** The end of a joined text is the end of its last part. */
  lemma {:induction false} JoinEnd(parts: seq<string>, sep: string)
    requires parts != [] && Last(parts) != ""
    ensures Join(parts, sep) != "" && Last(Join(parts, sep)) == Last(Last(parts))
  {
    if |parts| > 1 {
      JoinEnd(parts[1..], sep);
      assert Last(parts[1..]) == Last(parts);
    }
  }

  /** A closed text cut at a separator has a closed last part. */
  lemma LastPartClosed(t: string, sep: string)
    requires Closed(t) && sep != ""
    ensures Closed(Last(SplitOn(t, sep)))
  {
    JoinSplit(t, sep);
    if Last(SplitOn(t, sep)) != "" {
      JoinEnd(SplitOn(t, sep), sep);
    }
  }

  // ---- the splitter -----------------------------------------------------------------

  /** The separators left at level `k` of the splitter. */
  function Level(k: nat): seq<string>
    requires k <= 4
  {
    DEFAULT_SEPARATORS[k..]
  }

  lemma Levels(k: nat)
    requires k < 4
    ensures Level(k) != [] && Separator(Level(k)[0]) && Level(k)[1..] == Level(k + 1)
    ensures Level(k)[0] == ". " ==> k >= 1
    ensures Level(4) == [""]
  {
  }

  /** Splitting keeps the content, and keeps closed texts closed. */
  lemma {:induction false} SplitContent(t: string, k: nat, size: int)
    requires k <= 4 && (k > 0 ==> Closed(t))
    ensures Content(Flatten(SplitText(t, Level(k), size))) == Content(t)
    ensures Closed(t) ==> Closed(Flatten(SplitText(t, Level(k), size)))
    decreases 4 - k, 0
  {
    hide Content, Separator;
    if |t| <= size {
      FlattenOne(t);
    } else if k == 4 {
      Levels(0);
      CharsExact(t, size);
    } else {
      Levels(k);
      var sep := Level(k)[0];
      SeparatorNotEmpty(sep);
      var parts := SplitOn(t, sep);
      PiecesContent(parts, sep, k + 1, size);
      JoinSplit(t, sep);
      if k > 0 {
        LastPartClosed(t, sep);
      }
      RejoinedContent(parts, sep);
    }
  }

  lemma SeparatorNotEmpty(sep: string)
    requires Separator(sep)
    ensures sep != ""
  {
  }

  lemma {:induction false} PiecesContent(pieces: seq<string>, sep: string, k: nat, size: int)
    requires 1 <= k <= 4 && Separator(sep)
    ensures Content(Flatten(SplitPieces(pieces, sep, Level(k), size))) == Content(Flatten(WithSeps(pieces, sep)))
    ensures Closed(Flatten(SplitPieces(pieces, sep, Level(k), size)))
    decreases 4 - k, 1 + |pieces|
  {
    hide Content, Separator, WithSep, Level;
    if pieces != [] {
      var piece := WithSep(pieces[0], sep);
      var head := if |piece| <= size then [piece] else SplitText(piece, Level(k), size);
      var rest := SplitPieces(pieces[1..], sep, Level(k), size);
      WithSepContent(pieces[0], sep, "");
      if |piece| <= size {
        FlattenOne(piece);
      } else {
        SplitContent(piece, k, size);
      }
      PiecesContent(pieces[1..], sep, k, size);
      FlattenAppend(head, rest);
      ContentAppend(Flatten(head), Flatten(rest));
      ClosedAppend(Flatten(head), Flatten(rest));
      ContentAppend(piece, Flatten(WithSeps(pieces[1..], sep)));
      assert ([piece] + WithSeps(pieces[1..], sep))[1..] == WithSeps(pieces[1..], sep);
    }
  }

  lemma ClosedAppend(a: string, b: string)
    requires Closed(a) && Closed(b)
    ensures Closed(a + b)
  {
  }

  /** With the default separators the chunks are cut from a text with the same content:
      each is a carried-over tail and a fresh part, stripped and left out if blank, and the
      fresh parts in order hold every character but white space and sentence-ending stops. */
  lemma ChunksKeepContent(text: string, size: int, overlap: int)
    ensures var ws := Windows(text, size, overlap, DEFAULT_SEPARATORS);
            && Chunks(text, size, overlap, DEFAULT_SEPARATORS) == Rendered(ws)
            && Carries(ws, "")
            && Content(Flatten(FreshParts(ws))) == Content(text)
  {
    hide Content, IsSuffix;
    var pieces := SplitText(text, DEFAULT_SEPARATORS, size);
    SelfSuffix("");
    MergeCarries(pieces, Window("", ""), size, overlap, "");
    MergeFresh(pieces, Window("", ""), size, overlap);
    AppendNilLeft(Flatten(pieces));
    assert Level(0) == DEFAULT_SEPARATORS;
    SplitContent(text, 0, size);
  }

  /** A decimal point is content: unlike the separators' characters it cannot get lost. */
  lemma DecimalPointStays()
    ensures Content("3.14") == "3.14" && Content("314") == "314"
  {
    ContentCons('4', "");
    ContentCons('1', "4");
    ContentCons('.', "14");
    ContentCons('3', ".14");
    ContentCons('3', "14");
    assert ['4'] + "" == "4" && ['1'] + "4" == "14" && ['.'] + "14" == ".14";
    assert ['3'] + ".14" == "3.14" && ['3'] + "14" == "314";
  }
}
