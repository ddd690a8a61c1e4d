/** String operations with the meaning Python and JavaScript give them: white
    space, trimming, splitting on a separator, joining and word splitting. */
module Text {
  import opened Collections

  /** Code points for which Python's `str.isspace` holds; `\s` of `re` agrees. */
  predicate IsSpace(c: char) {
    var n := c as int;
    || 0x09 <= n <= 0x0D || 0x1C <= n <= 0x20 || n == 0x85 || n == 0xA0 || n == 0x1680
    || 0x2000 <= n <= 0x200A || n == 0x2028 || n == 0x2029 || n == 0x202F || n == 0x205F || n == 0x3000
  }

  /** Code points JavaScript's `trim` removes and its `\s` matches. */
  predicate IsJsSpace(c: char) {
    var n := c as int;
    || 0x09 <= n <= 0x0D || n == 0x20 || n == 0xA0 || n == 0x1680
    || 0x2000 <= n <= 0x200A || n == 0x2028 || n == 0x2029 || n == 0x202F || n == 0x205F || n == 0x3000
    || n == 0xFEFF
  }

  // ---- trimming ----------------------------------------------------------

  function TrimLeft(s: string, sp: char -> bool): (r: string)
    ensures r == [] || !sp(r[0])
    ensures |r| <= |s|
    ensures forall i :: 0 <= i < |s| - |r| ==> sp(s[i])
  {
    if s != [] && sp(s[0]) then TrimLeft(s[1..], sp) else s
  }

  function TrimRight(s: string, sp: char -> bool): (r: string)
    ensures r == [] || !sp(r[|r| - 1])
    ensures |r| <= |s|
    ensures forall i :: |r| <= i < |s| ==> sp(s[i])
  {
    if s != [] && sp(s[|s| - 1]) then TrimRight(s[..|s| - 1], sp) else s
  }

  lemma TrimLeftDrops(s: string, sp: char -> bool)
    requires s != "" && sp(s[0])
    ensures TrimLeft(s, sp) == TrimLeft(s[1..], sp)
  {
  }

  lemma TrimLeftStays(s: string, sp: char -> bool)
    requires s != "" && !sp(s[0])
    ensures TrimLeft(s, sp) == s
  {
  }

  /** Trimming the left leaves a suffix. */
  lemma {:induction false} TrimLeftSuffix(s: string, sp: char -> bool)
    ensures TrimLeft(s, sp) == s[|s| - |TrimLeft(s, sp)|..]
  {
    if s != [] && sp(s[0]) {
      TrimLeftSuffix(s[1..], sp);
    }
  }

  /** Trimming the right leaves a prefix. */
  lemma {:induction false} TrimRightPrefix(s: string, sp: char -> bool)
    ensures TrimRight(s, sp) == s[..|TrimRight(s, sp)|]
  {
    if s != [] && sp(s[|s| - 1]) {
      TrimRightPrefix(s[..|s| - 1], sp);
    }
  }

  function Trim(s: string, sp: char -> bool): string {
    TrimRight(TrimLeft(s, sp), sp)
  }

  /** `str.strip()` */
  function Strip(s: string): string { Trim(s, IsSpace) }

  /** Neither end of the text is white space. */
  predicate Tight(s: string, sp: char -> bool) {
    s == [] || (!sp(s[0]) && !sp(s[|s| - 1]))
  }

  lemma {:induction false} TrimLeftAll(s: string, sp: char -> bool)
    requires forall i :: 0 <= i < |s| ==> sp(s[i])
    ensures TrimLeft(s, sp) == []
  {
    if s != [] {
      TrimLeftAll(s[1..], sp);
    }
  }

  /** Trimming is characterised: it cuts white space off both ends and leaves tight text. */
  lemma TrimFacts(s: string, sp: char -> bool) returns (left: string, right: string)
    ensures s == left + Trim(s, sp) + right
    ensures forall i :: 0 <= i < |left| ==> sp(left[i])
    ensures forall i :: 0 <= i < |right| ==> sp(right[i])
  {
    left := TrimLeftCut(s, sp);
    right := TrimRightCut(TrimLeft(s, sp), sp);
    Assoc(left, Trim(s, sp), right);
  }

  lemma TrimLeftCut(s: string, sp: char -> bool) returns (left: string)
    ensures s == left + TrimLeft(s, sp)
    ensures forall i :: 0 <= i < |left| ==> sp(left[i])
  {
    TrimLeftSuffix(s, sp);
    left := s[..|s| - |TrimLeft(s, sp)|];
  }

  lemma TrimRightCut(s: string, sp: char -> bool) returns (right: string)
    ensures s == TrimRight(s, sp) + right
    ensures forall i :: 0 <= i < |right| ==> sp(right[i])
  {
    TrimRightPrefix(s, sp);
    var t := TrimRight(s, sp);
    right := s[|t|..];
    forall i | 0 <= i < |right| ensures sp(right[i]) {
      assert right[i] == s[|t| + i];
    }
  }

  lemma TrimTight(s: string, sp: char -> bool)
    ensures Tight(Trim(s, sp), sp)
    ensures |Trim(s, sp)| <= |s|
  {
    var l := TrimLeft(s, sp);
    var t := TrimRight(l, sp);
    TrimRightPrefix(l, sp);
    if t != [] {
      assert t[0] == l[0];
    }
  }

  /** Nothing is left exactly when everything was white space. */
  lemma TrimBlank(s: string, sp: char -> bool)
    ensures (Trim(s, sp) == []) <==> forall i :: 0 <= i < |s| ==> sp(s[i])
  {
    if forall i :: 0 <= i < |s| ==> sp(s[i]) {
      TrimLeftAll(s, sp);
    } else {
      var l := TrimLeft(s, sp);
      if l != [] {
        assert !sp(l[0]);
      }
    }
  }

  lemma TrimFixed(s: string, sp: char -> bool)
    requires Tight(s, sp)
    ensures Trim(s, sp) == s
  {
  }

  // ---- searching and splitting --------------------------------------------

  /** `sep` occurs in `s` at index `j`. */
  predicate At(s: string, sep: string, j: int) {
    0 <= j && j + |sep| <= |s| && s[j..j + |sep|] == sep
  }

  lemma AtTail(s: string, sep: string)
    requires s != []
    ensures forall j :: 0 < j ==> (At(s, sep, j) <==> At(s[1..], sep, j - 1))
  {
    forall j | 0 < j ensures At(s, sep, j) <==> At(s[1..], sep, j - 1) {
      if j + |sep| <= |s| {
        SliceOfTail(s, j, j + |sep|);
      }
    }
  }

  lemma SliceOfTail<T>(s: seq<T>, lo: int, hi: int)
    requires 0 < lo <= hi <= |s|
    ensures s[lo..hi] == s[1..][lo - 1..hi - 1]
  {
    var a, b := s[lo..hi], s[1..][lo - 1..hi - 1];
    assert |a| == |b|;
    forall k | 0 <= k < |a| ensures a[k] == b[k] {
      assert b[k] == s[1..][lo - 1 + k];
    }
    assert a == b;
  }

  /** Index of the first occurrence, -1 when there is none. */
  function IndexOf(s: string, sep: string): (r: int)
    requires |sep| > 0
    ensures r == -1 || At(s, sep, r)
    ensures r >= 0 ==> forall j :: 0 <= j < r ==> !At(s, sep, j)
    ensures r < 0 ==> forall j :: !At(s, sep, j)
  {
    if |s| < |sep| then -1
    else if At(s, sep, 0) then 0
    else
      var k := IndexOf(s[1..], sep);
      AtTail(s, sep);
      if k < 0 then -1 else k + 1
  }

  lemma IndexOfUnique(s: string, sep: string, k: nat)
    requires |sep| > 0 && At(s, sep, k)
    requires forall j :: 0 <= j < k ==> !At(s, sep, j)
    ensures IndexOf(s, sep) == k
  {
  }

  /** Does `needle` occur in `s`? (Python's `in` on strings) */
  predicate Occurs(needle: string, s: string) {
    needle == [] || IndexOf(s, needle) >= 0
  }

  /** `s.split(sep)` for a non-empty separator: leftmost, non-overlapping. */
  function SplitOn(s: string, sep: string): (r: seq<string>)
    requires |sep| > 0
    ensures |r| > 0
    decreases |s|
  {
    var k := IndexOf(s, sep);
    if k < 0 then [s] else [s[..k]] + SplitOn(s[k + |sep|..], sep)
  }

  function Init<T>(xs: seq<T>): seq<T>
    requires xs != []
  {
    xs[..|xs| - 1]
  }

  function Last<T>(xs: seq<T>): T
    requires xs != []
  {
    xs[|xs| - 1]
  }

  lemma InitCons<T>(x: T, xs: seq<T>)
    requires xs != []
    ensures Init([x] + xs) == [x] + Init(xs) && Last([x] + xs) == Last(xs)
  {
  }

  /** `sep.join(parts)` */
  function Join(parts: seq<string>, sep: string): string {
    if parts == [] then ""
    else if |parts| == 1 then parts[0]
    else parts[0] + sep + Join(parts[1..], sep)
  }

  lemma {:induction false} JoinSplit(s: string, sep: string)
    requires |sep| > 0
    ensures Join(SplitOn(s, sep), sep) == s
    decreases |s|
  {
    var k := IndexOf(s, sep);
    if k >= 0 {
      JoinSplit(s[k + |sep|..], sep);
      assert s == s[..k] + sep + s[k + |sep|..];
    }
  }

  /** Splitting a stream that arrives in two halves: all but the last element of
      the first half's split are final, and splitting resumes from the last. */
  lemma {:induction false} SplitResume(a: string, b: string, sep: string)
    requires |sep| > 0
    ensures SplitOn(a + b, sep) == Init(SplitOn(a, sep)) + SplitOn(Last(SplitOn(a, sep)) + b, sep)
    decreases |a|
  {
    hide Init, Last;
    var k := IndexOf(a, sep);
    if k >= 0 {
      var rest := a[k + |sep|..];
      SplitResume(rest, b, sep);
      SplitCut(a, b, sep);
      Assoc([a[..k]], Init(SplitOn(rest, sep)), SplitOn(Last(SplitOn(rest, sep)) + b, sep));
      InitCons(a[..k], SplitOn(rest, sep));
    } else {
      InitSingle(a);
      assert [] + SplitOn(a + b, sep) == SplitOn(a + b, sep);
    }
  }

  lemma SplitCut(a: string, b: string, sep: string)
    requires |sep| > 0 && IndexOf(a, sep) >= 0
    ensures var k := IndexOf(a, sep);
            SplitOn(a + b, sep) == [a[..k]] + SplitOn(a[k + |sep|..] + b, sep)
  {
    hide SplitOn;
    IndexOfAppend(a, b, sep);
    SplitUnfold(a + b, sep);
    CutAppend(a, b, IndexOf(a, sep), |sep|);
  }

  lemma SplitUnfold(s: string, sep: string)
    requires |sep| > 0 && IndexOf(s, sep) >= 0
    ensures SplitOn(s, sep) == [s[..IndexOf(s, sep)]] + SplitOn(s[IndexOf(s, sep) + |sep|..], sep)
  {
  }

  lemma CutAppend<T>(a: seq<T>, b: seq<T>, k: nat, d: nat)
    requires k + d <= |a|
    ensures (a + b)[k + d..] == a[k + d..] + b
    ensures (a + b)[..k] == a[..k]
  {
  }

  lemma InitSingle<T>(x: T)
    ensures Init([x]) == [] && Last([x]) == x
  {
  }

  lemma IndexOfAppend(a: string, b: string, sep: string)
    requires |sep| > 0 && IndexOf(a, sep) >= 0
    ensures IndexOf(a + b, sep) == IndexOf(a, sep)
  {
    var k := IndexOf(a, sep);
    forall j | 0 <= j <= k ensures At(a + b, sep, j) <==> At(a, sep, j) {
      assert (a + b)[j..j + |sep|] == a[j..j + |sep|];
    }
    IndexOfUnique(a + b, sep, k);
  }

  // ---- words -------------------------------------------------------------

  /** Length of the leading run of characters satisfying `p`. */
  function RunLen(s: string, p: char -> bool): (n: nat)
    ensures n <= |s|
    ensures forall i :: 0 <= i < n ==> p(s[i])
    ensures n < |s| ==> !p(s[n])
  {
    if s == [] || !p(s[0]) then 0 else 1 + RunLen(s[1..], p)
  }

  lemma RunLenIs(s: string, p: char -> bool, n: nat)
    requires n <= |s|
    requires forall i :: 0 <= i < n ==> p(s[i])
    requires n < |s| ==> !p(s[n])
    ensures RunLen(s, p) == n
  {
  }

  predicate NotSpace(c: char) { !IsSpace(c) }

  /** `s.split()`: the maximal runs of non-space characters. */
  function Words(s: string): seq<string>
    decreases |s|
  {
    if s == [] then []
    else if IsSpace(s[0]) then Words(s[1..])
    else
      var n := RunLen(s, NotSpace);
      [s[..n]] + Words(s[n..])
  }

  ghost predicate IsWord(w: string) {
    w != [] && forall c :: c in w ==> !IsSpace(c)
  }

  lemma {:induction false} WordsAreWords(s: string)
    ensures forall w :: w in Words(s) ==> IsWord(w)
    decreases |s|
  {
    if s == [] {
    } else if IsSpace(s[0]) {
      WordsAreWords(s[1..]);
    } else {
      WordsAreWords(s[RunLen(s, NotSpace)..]);
    }
  }

  lemma {:induction false} WordsSpaces(a: string, b: string)
    requires forall c :: c in a ==> IsSpace(c)
    ensures Words(a + b) == Words(b)
  {
    if a == [] {
      assert a + b == b;
    } else {
      assert (a + b)[1..] == a[1..] + b;
      WordsSpaces(a[1..], b);
    }
  }

  lemma WordsCons(w: string, b: string)
    requires IsWord(w)
    requires b == [] || IsSpace(b[0])
    ensures Words(w + b) == [w] + Words(b)
  {
    assert forall i :: 0 <= i < |w| ==> (w + b)[i] == w[i];
    RunLenIs(w + b, NotSpace, |w|);
    assert (w + b)[..|w|] == w && (w + b)[|w|..] == b;
  }

  lemma {:induction false} WordsJoin(ws: seq<string>)
    requires forall w :: w in ws ==> IsWord(w)
    ensures Words(Join(ws, " ")) == ws
  {
    if |ws| == 1 {
      WordsCons(ws[0], "");
      assert ws[0] + "" == ws[0];
    } else if ws != [] {
      var rest := Join(ws[1..], " ");
      WordsJoin(ws[1..]);
      WordsSpaces(" ", rest);
      WordsCons(ws[0], " " + rest);
      assert ws[0] + " " + rest == ws[0] + (" " + rest);
    }
  }

  /** A text with at least one word is: white space, its first word, the rest. */
  lemma {:induction false} WordsHead(s: string) returns (left: string, rest: string)
    requires Words(s) != []
    ensures s == left + (Words(s)[0] + rest)
    ensures forall i :: 0 <= i < |left| ==> IsSpace(left[i])
    ensures rest == [] || IsSpace(rest[0])
    ensures Words(rest) == Words(s)[1..]
    ensures |rest| < |s|
    decreases |s|
  {
    if IsSpace(s[0]) {
      var l, r := WordsHead(s[1..]);
      left, rest := [s[0]] + l, r;
      Assoc([s[0]], l, Words(s)[0] + rest);
      assert s == [s[0]] + s[1..];
    } else {
      var n := RunLen(s, NotSpace);
      left, rest := [], s[n..];
      assert n > 0 && s == s[..n] + s[n..];
      assert [] + (s[..n] + s[n..]) == s[..n] + s[n..];
      assert ([s[..n]] + Words(s[n..]))[1..] == Words(s[n..]);
    }
  }

  lemma {:induction false} WordsNone(s: string)
    ensures (Words(s) == []) <==> forall c :: c in s ==> IsSpace(c)
    decreases |s|
  {
    if s != [] && IsSpace(s[0]) {
      WordsNone(s[1..]);
      assert s == [s[0]] + s[1..];
    }
  }

  // ---- decimal numerals ---------------------------------------------------

  function Digit(n: nat): char
    requires n < 10
  {
    '0' + n as char
  }

  /** `str(n)` for a natural number. */
  function Decimal(n: nat): (r: string)
    ensures r != []
    ensures forall i :: 0 <= i < |r| ==> AsciiDigit(r[i])
    ensures r[0] == '0' ==> n == 0
  {
    if n < 10 then [Digit(n)] else Decimal(n / 10) + [Digit(n % 10)]
  }

  function DecimalInt(n: int): string {
    if n >= 0 then Decimal(n) else "-" + Decimal(-n)
  }

  predicate AsciiDigit(c: char) { '0' <= c <= '9' }

  /** Positional value of a run of ASCII digits. */
  function DigitsValue(s: string): nat
    requires forall i :: 0 <= i < |s| ==> AsciiDigit(s[i])
  {
    if s == [] then 0
    else DigitsValue(s[..|s| - 1]) * 10 + DigitValue(s[|s| - 1])
  }

  function DigitValue(c: char): nat
    requires AsciiDigit(c)
  {
    c as int - '0' as int
  }

  lemma {:induction false} DecimalValue(n: nat)
    ensures DigitsValue(Decimal(n)) == n
  {
    if n >= 10 {
      DecimalValue(n / 10);
      assert Decimal(n)[..|Decimal(n)| - 1] == Decimal(n / 10);
    } else {
      assert DigitsValue(Decimal(n)[..0]) == 0;
    }
  }
}
