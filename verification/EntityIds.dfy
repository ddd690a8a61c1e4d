/** Which entities share an id: kinds and names are joined with colons, so a colon inside a
    kind can stand for the one that should separate it from the name. */
module EntityIds {
  import opened Collections
  import opened Text
  import opened GraphCore

  // ---- the exact condition -----------------------------------------------------------

  /** The name `b` of kind `a` continues the kind into the longer kind `c` of name `d`. */
  predicate Shifts(a: string, b: string, c: string, d: string) {
    |a| < |c| && a + ":" <= c && b == c[|a| + 1..] + ":" + d
  }

  lemma PrefixCancels(p: string, a: string, b: string)
    requires p + a == p + b
    ensures a == b
  {
    assert a == (p + a)[|p|..] && b == (p + b)[|p|..];
  }

  lemma ThreeParts(ws: string, a: string, b: string)
    ensures ws + ":" + a + ":" + b == (ws + ":") + (a + ":" + b)
  {
  }

  /** Where the shorter kind ends, the longer one must carry the colon. */
  lemma ShorterShifts(a: string, b: string, c: string, d: string)
    requires a + ":" + b == c + ":" + d && |a| < |c|
    ensures Shifts(a, b, c, d)
  {
    var s := a + ":" + b;
    assert c == s[..|c|];
    assert a + ":" == s[..|a| + 1] == c[..|a| + 1];
    assert b == s[|a| + 1..];
    assert s == c[..|a| + 1] + (c[|a| + 1..] + ":" + d);
  }

  lemma ShiftsMeet(a: string, b: string, c: string, d: string)
    requires Shifts(a, b, c, d)
    ensures a + ":" + b == c + ":" + d
  {
    assert c == a + ":" + c[|a| + 1..];
  }

  lemma SameLength(a: string, b: string, c: string, d: string)
    requires a + ":" + b == c + ":" + d && |a| == |c|
    ensures a == c && b == d
  {
    assert a == (a + ":" + b)[..|a|] && b == (a + ":" + b)[|a| + 1..];
    assert c == (c + ":" + d)[..|c|] && d == (c + ":" + d)[|c| + 1..];
  }

  /** Two ids of a workspace are equal exactly when the lower-cased kinds and normalised
      names are, or one name continues its kind into the other kind. */
  lemma IdsEqualIff(lower: string -> string, ws: string, k1: string, n1: string, k2: string, n2: string)
    ensures var a, b, c, d := lower(k1), lower(NormalizeName(n1)), lower(k2), lower(NormalizeName(n2));
            EntityId(lower, ws, k1, n1) == EntityId(lower, ws, k2, n2)
            <==> ((a == c && b == d) || Shifts(a, b, c, d) || Shifts(c, d, a, b))
  {
    hide NormalizeName;
    var a, b, c, d := lower(k1), lower(NormalizeName(n1)), lower(k2), lower(NormalizeName(n2));
    ThreeParts(ws, a, b);
    ThreeParts(ws, c, d);
    hide Shifts;
    if EntityId(lower, ws, k1, n1) == EntityId(lower, ws, k2, n2) {
      PrefixCancels(ws + ":", a + ":" + b, c + ":" + d);
      if |a| < |c| {
        ShorterShifts(a, b, c, d);
      } else if |c| < |a| {
        ShorterShifts(c, d, a, b);
      } else {
        SameLength(a, b, c, d);
      }
    }
    if Shifts(a, b, c, d) {
      ShiftsMeet(a, b, c, d);
    }
    if Shifts(c, d, a, b) {
      ShiftsMeet(c, d, a, b);
    }
  }

  // ---- which kinds can collide -------------------------------------------------------------

  /** Some two names give the two kinds one id. */
  ghost predicate Collide(lower: string -> string, ws: string, k1: string, k2: string) {
    exists n1, n2 :: EntityId(lower, ws, k1, n1) == EntityId(lower, ws, k2, n2)
  }

  /** A text that stands for a name in an id. */
  ghost predicate NameText(lower: string -> string, b: string) {
    exists n :: b == lower(NormalizeName(n))
  }

  /** `d` is a name, and so is it behind the rest of a kind. */
  ghost predicate NameAfter(lower: string -> string, rest: string, d: string) {
    NameText(lower, d) && NameText(lower, rest + ":" + d)
  }

  ghost predicate BeginsName(lower: string -> string, rest: string) {
    exists d :: NameAfter(lower, rest, d)
  }

  /** `c` continues `a` with a colon and the start of a name. */
  ghost predicate Extends(lower: string -> string, a: string, c: string) {
    |a| < |c| && a + ":" <= c && BeginsName(lower, c[|a| + 1..])
  }

  lemma ShiftedNames(lower: string -> string, ws: string, k1: string, k2: string)
    requires Extends(lower, lower(k1), lower(k2))
    ensures Collide(lower, ws, k1, k2)
  {
    hide NormalizeName, EntityId;
    var a, c := lower(k1), lower(k2);
    var d :| NameAfter(lower, c[|a| + 1..], d);
    var n2 :| d == lower(NormalizeName(n2));
    var n1 :| c[|a| + 1..] + ":" + d == lower(NormalizeName(n1));
    IdsEqualIff(lower, ws, k1, n1, k2, n2);
  }

  /** Two kinds collide for some names exactly when they are alike up to case or one
      extends the other by a colon and what can begin a name. */
  lemma KindsCollideIff(lower: string -> string, ws: string, k1: string, k2: string)
    ensures Collide(lower, ws, k1, k2) <==>
            lower(k1) == lower(k2) || Extends(lower, lower(k1), lower(k2)) || Extends(lower, lower(k2), lower(k1))
  {
    hide NormalizeName, EntityId;
    var a, c := lower(k1), lower(k2);
    if Collide(lower, ws, k1, k2) {
      var n1, n2 :| EntityId(lower, ws, k1, n1) == EntityId(lower, ws, k2, n2);
      var b, d := lower(NormalizeName(n1)), lower(NormalizeName(n2));
      assert NameText(lower, b) && NameText(lower, d);
      IdsEqualIff(lower, ws, k1, n1, k2, n2);
      assert Shifts(a, b, c, d) ==> NameAfter(lower, c[|a| + 1..], d);
      assert Shifts(c, d, a, b) ==> NameAfter(lower, a[|c| + 1..], b);
    }
    if a == c {
      IdsEqualIff(lower, ws, k1, "", k2, "");
    }
    if Extends(lower, a, c) {
      ShiftedNames(lower, ws, k1, k2);
    }
    if Extends(lower, c, a) {
      ShiftedNames(lower, ws, k2, k1);
      var n2, n1 :| EntityId(lower, ws, k2, n2) == EntityId(lower, ws, k1, n1);
      assert EntityId(lower, ws, k1, n1) == EntityId(lower, ws, k2, n2);
    }
  }

  /** Unless one kind extends the other, ids coincide exactly when the lower-cased kinds and
      the lower-cased normalised names do. */
  lemma IdsCoincide(lower: string -> string, ws: string, k1: string, n1: string, k2: string, n2: string)
    requires !Extends(lower, lower(k1), lower(k2)) && !Extends(lower, lower(k2), lower(k1))
    ensures EntityId(lower, ws, k1, n1) == EntityId(lower, ws, k2, n2) <==>
            lower(k1) == lower(k2) && lower(NormalizeName(n1)) == lower(NormalizeName(n2))
  {
    hide NormalizeName, EntityId;
    var a, b, c, d := lower(k1), lower(NormalizeName(n1)), lower(k2), lower(NormalizeName(n2));
    IdsEqualIff(lower, ws, k1, n1, k2, n2);
    assert NameText(lower, b) && NameText(lower, d);
    assert Shifts(a, b, c, d) ==> NameAfter(lower, c[|a| + 1..], d);
    assert Shifts(c, d, a, b) ==> NameAfter(lower, a[|c| + 1..], b);
  }

  predicate ColonFree(s: string) { ':' !in s }

  /** A kind without a colon extends no other. */
  lemma ColonFreeKind(lower: string -> string, a: string, c: string)
    ensures Extends(lower, a, c) ==> !ColonFree(c)
  {
    hide BeginsName;
    if Extends(lower, a, c) {
      assert (a + ":")[|a|] == c[|a|];
    }
  }

  // ---- normalised texts ---------------------------------------------------------------------

  /** Words separated by single blanks, nothing around them. */
  predicate SingleSpaced(s: string) {
    && Tight(s, IsSpace)
    && forall i :: 0 <= i < |s| && IsSpace(s[i]) ==> s[i] == ' ' && (i + 1 < |s| ==> !IsSpace(s[i + 1]))
  }

  lemma {:induction false} JoinedSingleSpaced(ws: seq<string>)
    requires forall w :: w in ws ==> IsWord(w)
    ensures SingleSpaced(Join(ws, " "))
  {
    if ws != [] {
      assert IsWord(ws[0]);
      if |ws| > 1 {
        JoinedSingleSpaced(ws[1..]);
        assert forall w :: w in ws[1..] ==> w in ws;
        WordsNonEmpty(ws[1..]);
        JoinEnds(ws[1..]);
        var rest := Join(ws[1..], " ");
        assert rest[0] == ws[1][0] && IsWord(ws[1]);
        WordBefore(ws[0], rest);
      }
    }
  }

  lemma WordBefore(w: string, rest: string)
    requires IsWord(w) && rest != "" && SingleSpaced(rest)
    ensures SingleSpaced(w + " " + rest)
  {
    var s := w + " " + rest;
    forall i | 0 <= i < |w| ensures !IsSpace(s[i]) {
      assert s[i] == w[i] && w[i] in w;
    }
    forall i | 0 <= i < |s| && IsSpace(s[i])
      ensures s[i] == ' ' && (i + 1 < |s| ==> !IsSpace(s[i + 1]))
    {
      if i > |w| {
        assert s[i] == rest[i - |w| - 1];
      }
    }
    assert s[0] == w[0] && w[0] in w && s[|s| - 1] == rest[|rest| - 1];
  }

  lemma {:induction false} SingleSpacedWords(s: string)
    requires SingleSpaced(s)
    ensures Join(Words(s), " ") == s
    decreases |s|
  {
    if s != "" {
      var n := RunLen(s, NotSpace);
      assert NotSpace(s[0]);
      if n == |s| {
        assert Words(s[n..]) == [] && s[..n] == s;
        assert Words(s) == [s];
      } else {
        var rest := s[n + 1..];
        assert IsSpace(s[n]) && s[n] == ' ' && n + 1 < |s|;
        RestSingleSpaced(s, n);
        SingleSpacedWords(rest);
        assert s[n..][0] == ' ' && s[n..][1..] == rest;
        assert Words(s[n..]) == Words(rest);
        assert rest[0] == s[n + 1];
        assert Words(rest) != [];
        assert s == s[..n] + " " + rest;
      }
    }
  }

  lemma RestSingleSpaced(s: string, n: nat)
    requires SingleSpaced(s) && n + 1 < |s| && IsSpace(s[n])
    ensures SingleSpaced(s[n + 1..])
  {
    var rest := s[n + 1..];
    assert rest[0] == s[n + 1] && rest[|rest| - 1] == s[|s| - 1];
    forall i | 0 <= i < |rest| && IsSpace(rest[i])
      ensures rest[i] == ' ' && (i + 1 < |rest| ==> !IsSpace(rest[i + 1]))
    {
      assert rest[i] == s[n + 1 + i];
      if i + 1 < |rest| {
        assert rest[i + 1] == s[n + 1 + i + 1];
      }
    }
  }

  /** The texts normalising leaves alone are the single-spaced ones. */
  lemma NormalIff(s: string)
    ensures NormalizeName(s) == s <==> SingleSpaced(s)
  {
    NormalizeIsJoin(s);
    WordsAreWords(s);
    hide Join, SingleSpaced, Words, NormalizeName;
    JoinedSingleSpaced(Words(s));
    if SingleSpaced(s) {
      SingleSpacedWords(s);
    }
  }

  lemma NormalizedSingleSpaced(n: string)
    ensures SingleSpaced(NormalizeName(n))
  {
    hide NormalizeName, SingleSpaced;
    NormalizeIdempotent(n);
    NormalIff(NormalizeName(n));
  }

  // ---- ASCII case folding -----------------------------------------------------------------

  function LowerChar(c: char): char {
    if 'A' <= c <= 'Z' then (c as int + 32) as char else c
  }

  /** What `str.lower` does to ASCII text. */
  function AsciiLower(s: string): (r: string)
    ensures |r| == |s| && forall i :: 0 <= i < |s| ==> r[i] == LowerChar(s[i])
  {
    seq(|s|, i requires 0 <= i < |s| => LowerChar(s[i]))
  }

  lemma LowerFixed(s: string)
    ensures AsciiLower(AsciiLower(s)) == AsciiLower(s)
  {
  }

  lemma LowerPart(s: string, lo: nat, hi: nat)
    requires lo <= hi <= |s| && AsciiLower(s) == s
    ensures AsciiLower(s[lo..hi] + ":") == s[lo..hi] + ":"
  {
    var part := s[lo..hi] + ":";
    forall i | 0 <= i < |part| ensures LowerChar(part[i]) == part[i] {
      if i < hi - lo {
        assert part[i] == s[lo + i] == AsciiLower(s)[lo + i];
      }
    }
  }

  lemma LowerSpacing(s: string)
    requires SingleSpaced(s)
    ensures SingleSpaced(AsciiLower(s))
  {
    forall c: char ensures IsSpace(LowerChar(c)) == IsSpace(c) && (IsSpace(c) ==> LowerChar(c) == c) {
    }
  }

  /** Names appear in ids as the lower-case single-spaced texts. */
  lemma NameTextIff(s: string)
    ensures NameText(AsciiLower, s) <==> SingleSpaced(s) && AsciiLower(s) == s
  {
    hide NormalizeName, SingleSpaced;
    if NameText(AsciiLower, s) {
      var n :| s == AsciiLower(NormalizeName(n));
      NormalizedSingleSpaced(n);
      LowerSpacing(NormalizeName(n));
      LowerFixed(NormalizeName(n));
    }
    if SingleSpaced(s) && AsciiLower(s) == s {
      NormalIff(s);
      assert s == AsciiLower(NormalizeName(s));
    }
  }

  lemma SingleSpacedStart(s: string, d: string)
    requires SingleSpaced(s + ":" + d)
    ensures SingleSpaced(s + ":")
  {
    var t, all := s + ":", s + ":" + d;
    forall i | 0 <= i < |t| ensures t[i] == all[i] {
    }
  }

  /** The longer kind continues the shorter with a colon and single-spaced text. */
  predicate Continues(a: string, c: string) {
    |a| < |c| && a + ":" <= c && SingleSpaced(c[|a| + 1..] + ":")
  }

  lemma ExtendsIff(a: string, c: string)
    requires AsciiLower(c) == c
    ensures Extends(AsciiLower, a, c) <==> Continues(a, c)
  {
    hide SingleSpaced, NameText;
    if Extends(AsciiLower, a, c) {
      var d :| NameAfter(AsciiLower, c[|a| + 1..], d);
      NameTextIff(c[|a| + 1..] + ":" + d);
      SingleSpacedStart(c[|a| + 1..], d);
    }
    if Continues(a, c) {
      var s := c[|a| + 1..] + ":";
      LowerPart(c, |a| + 1, |c|);
      assert c[|a| + 1..|c|] == c[|a| + 1..];
      NameTextIff(s);
      EmptyName();
      assert s + "" == s;
      assert NameAfter(AsciiLower, c[|a| + 1..], "");
    }
  }

  lemma EmptyName()
    ensures NameText(AsciiLower, "")
  {
    NameTextIff("");
  }

  /** On ASCII text: two kinds collide for some names exactly when, lower-cased, they are equal
      or one continues the other with a colon and single-spaced text. */
  lemma AsciiKindsCollideIff(ws: string, k1: string, k2: string)
    ensures var a, c := AsciiLower(k1), AsciiLower(k2);
            Collide(AsciiLower, ws, k1, k2) <==> a == c || Continues(a, c) || Continues(c, a)
  {
    hide Collide, Extends, Continues;
    LowerFixed(k1);
    LowerFixed(k2);
    KindsCollideIff(AsciiLower, ws, k1, k2);
    ExtendsIff(AsciiLower(k1), AsciiLower(k2));
    ExtendsIff(AsciiLower(k2), AsciiLower(k1));
  }

  /** The failing input: kind "a:b" named "c" and kind "a" named "b:c". */
  lemma ColonCollision(ws: string)
    ensures EntityId(AsciiLower, ws, "a:b", "c") == EntityId(AsciiLower, ws, "a", "b:c")
    ensures AsciiLower("a:b") != AsciiLower("a")
  {
    hide NormalizeName, EntityId;
    NormalIff("c");
    NormalIff("b:c");
    IdsEqualIff(AsciiLower, ws, "a:b", "c", "a", "b:c");
    assert AsciiLower("a:b") == "a:b" && AsciiLower("a") == "a" && AsciiLower("c") == "c";
    assert AsciiLower("b:c") == "b:c" == "a:b"[2..] + ":" + "c";
    assert "a" + ":" <= "a:b";
  }

  /** Kinds with a colon need not collide. */
  lemma NoCollision(ws: string)
    ensures !Collide(AsciiLower, ws, "a:b", "p:q")
  {
    hide Collide;
    AsciiKindsCollideIff(ws, "a:b", "p:q");
    assert AsciiLower("a:b") == "a:b" && AsciiLower("p:q") == "p:q";
    assert "a:b"[0] != "p:q"[0];
  }
}
