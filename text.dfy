/**
 * The string operations of Go's `strings` and `strconv` packages that the
 * server relies on: `Split` with a one-character separator (and its inverse
 * `Join`), `HasPrefix`, `TrimSpace` over ASCII white space, and
 * `FormatInt(n, 10)` (with a decimal reader as its inverse).
 */
module Text {
  import opened Wrappers

  // ---------------------------------------------------------------------------
  // Characters and simple predicates
  // ---------------------------------------------------------------------------

  /** ASCII white space as Go's unicode.IsSpace sees it below 0x80: '\t', '\n', '\v', '\f', '\r' and ' '. */
  predicate IsSpace(c: char) {
    c == ' ' || c == '\t' || c == '\n' || c == '\U{B}' || c == '\U{C}' || c == '\r'
  }

  predicate AllSpace(s: string) {
    forall k :: 0 <= k < |s| ==> IsSpace(s[k])
  }

  /** The string is empty, or neither starts nor ends with white space. */
  predicate NoEdgeSpace(s: string) {
    s == [] || (!IsSpace(s[0]) && !IsSpace(s[|s| - 1]))
  }

  /** strings.HasPrefix */
  predicate HasPrefix(s: string, prefix: string)
    ensures HasPrefix(s, prefix) <==> |prefix| <= |s| && s == prefix + s[|prefix|..]
  {
    |prefix| <= |s| && s[..|prefix|] == prefix
  }

  /** The number of times `c` occurs in `s` (strings.Count for a one-character pattern). */
  function Occurrences(s: string, c: char): nat {
    if s == [] then 0 else (if s[0] == c then 1 else 0) + Occurrences(s[1..], c)
  }

  // ---------------------------------------------------------------------------
  // Split and Join
  // ---------------------------------------------------------------------------

  /**
   * strings.Split(s, [sep]): the pieces of `s` between occurrences of `sep`.
   * There is always one piece more than there are separators, and the empty
   * string splits into one empty piece.
   */
  function Split(s: string, sep: char): (pieces: seq<string>)
    ensures |pieces| == Occurrences(s, sep) + 1
    ensures forall k :: 0 <= k < |pieces| ==> sep !in pieces[k]
    decreases |s|
  {
    if s == [] then [[]]
    else
      var rest := Split(s[1..], sep);
      if s[0] == sep then [[]] + rest
      else [[s[0]] + rest[0]] + rest[1..]
  }

  /** strings.Join(pieces, [sep]) */
  function Join(pieces: seq<string>, sep: char): string
    decreases |pieces|
  {
    if pieces == [] then []
    else if |pieces| == 1 then pieces[0]
    else pieces[0] + [sep] + Join(pieces[1..], sep)
  }

  lemma JoinCons(p: string, ps: seq<string>, sep: char)
    requires |ps| >= 1
    ensures Join([p] + ps, sep) == p + [sep] + Join(ps, sep)
  {
    assert ([p] + ps)[1..] == ps;
  }

  lemma JoinConsHead(c: char, p: string, ps: seq<string>, sep: char)
    ensures Join([[c] + p] + ps, sep) == [c] + Join([p] + ps, sep)
  {
    if ps != [] {
      assert ([[c] + p] + ps)[1..] == ps;
      assert ([p] + ps)[1..] == ps;
    }
  }

  /** Joining the pieces with the separator gives back the string that was split. */
  lemma {:induction false} JoinSplit(s: string, sep: char)
    ensures Join(Split(s, sep), sep) == s
    decreases |s|
  {
    if s != [] {
      var rest := Split(s[1..], sep);
      JoinSplit(s[1..], sep);
      if s[0] == sep {
        assert ([[]] + rest)[1..] == rest;
        assert s == [sep] + s[1..];
      } else {
        assert rest == [rest[0]] + rest[1..];
        JoinConsHead(s[0], rest[0], rest[1..], sep);
        assert s == [s[0]] + s[1..];
      }
    }
  }

  lemma {:induction false} SplitNoSep(p: string, sep: char)
    requires sep !in p
    ensures Split(p, sep) == [p]
    decreases |p|
  {
    if p != [] {
      SplitNoSep(p[1..], sep);
      assert [p[0]] + p[1..] == p;
    }
  }

  lemma {:induction false} SplitAfterPiece(p: string, t: string, sep: char)
    requires sep !in p
    ensures Split(p + [sep] + t, sep) == [p] + Split(t, sep)
    decreases |p|
  {
    var s := p + [sep] + t;
    if p == [] {
      assert s[1..] == t;
    } else {
      assert s[1..] == p[1..] + [sep] + t;
      SplitAfterPiece(p[1..], t, sep);
      assert [p[0]] + p[1..] == p;
    }
  }

  /** Splitting a join of separator-free pieces gives back exactly those pieces. */
  lemma {:induction false} SplitJoin(pieces: seq<string>, sep: char)
    requires |pieces| >= 1
    requires forall k :: 0 <= k < |pieces| ==> sep !in pieces[k]
    ensures Split(Join(pieces, sep), sep) == pieces
    decreases |pieces|
  {
    if |pieces| == 1 {
      SplitNoSep(pieces[0], sep);
    } else {
      SplitJoin(pieces[1..], sep);
      SplitAfterPiece(pieces[0], Join(pieces[1..], sep), sep);
      assert [pieces[0]] + pieces[1..] == pieces;
    }
  }

  // ---------------------------------------------------------------------------
  // TrimSpace
  // ---------------------------------------------------------------------------

  /** The first index at or after `i` that does not hold white space (|s| if there is none). */
  function SkipSpace(s: string, i: nat): (n: nat)
    requires i <= |s|
    ensures i <= n <= |s|
    ensures forall k :: i <= k < n ==> IsSpace(s[k])
    ensures n == |s| || !IsSpace(s[n])
    decreases |s| - i
  {
    if i < |s| && IsSpace(s[i]) then SkipSpace(s, i + 1) else i
  }

  /** The smallest index n, lo <= n <= j, such that s[n..j] is all white space. */
  function SkipSpaceBack(s: string, lo: nat, j: nat): (n: nat)
    requires lo <= j <= |s|
    ensures lo <= n <= j
    ensures forall k :: n <= k < j ==> IsSpace(s[k])
    ensures n == lo || !IsSpace(s[n - 1])
    decreases j
  {
    if lo < j && IsSpace(s[j - 1]) then SkipSpaceBack(s, lo, j - 1) else j
  }

  /** s[i..j] is what remains of `s` once its leading and trailing white space is cut off. */
  ghost predicate Trims(s: string, i: int, j: int) {
    && 0 <= i <= j <= |s|
    && (forall k :: 0 <= k < i ==> IsSpace(s[k]))
    && (forall k :: j <= k < |s| ==> IsSpace(s[k]))
    && (i < j ==> !IsSpace(s[i]) && !IsSpace(s[j - 1]))
  }

  /**
   * strings.TrimSpace restricted to ASCII white space: the contiguous part of
   * `s` left once all leading and trailing white space is removed. Like Go's,
   * it first finds the start and then, from the end, the stop.
   */
  function TrimSpace(s: string): (r: string)
    ensures |r| <= |s|
    ensures NoEdgeSpace(r)
    ensures exists i, j :: Trims(s, i, j) && r == s[i..j]
  {
    var start := SkipSpace(s, 0);
    var stop := SkipSpaceBack(s, start, |s|);
    assert Trims(s, start, stop);
    s[start..stop]
  }

  /**
   * TrimSpace is the only cut of its kind: whenever s[i..j] has no white
   * space at its edges and only white space lies outside it, it is TrimSpace(s).
   */
  lemma TrimSpaceUnique(s: string, i: int, j: int)
    requires Trims(s, i, j)
    ensures TrimSpace(s) == s[i..j]
  {
    var start := SkipSpace(s, 0);
    if i < j {
      assert start == i;
      assert SkipSpaceBack(s, start, |s|) == j;
    } else {
      assert start == |s|;
    }
  }

  /** Trimming twice changes nothing more than trimming once. */
  lemma TrimSpaceIdempotent(s: string)
    ensures TrimSpace(TrimSpace(s)) == TrimSpace(s)
  {
    var r := TrimSpace(s);
    assert Trims(r, 0, |r|);
    TrimSpaceUnique(r, 0, |r|);
    assert r[0..|r|] == r;
  }

  lemma TrimsShifted(w1: string, s: string, w2: string, i: int, j: int)
    requires AllSpace(w1) && AllSpace(w2) && Trims(s, i, j)
    ensures Trims(w1 + s + w2, |w1| + i, |w1| + j)
  {
    var p := w1 + s + w2;
    var n := |w1|;
    forall k | 0 <= k < n + i ensures IsSpace(p[k]) {
      if k >= n { assert p[k] == s[k - n]; }
    }
    forall k | n + j <= k < |p| ensures IsSpace(p[k]) {
      if k < n + |s| { assert p[k] == s[k - n]; } else { assert p[k] == w2[k - n - |s|]; }
    }
    if i < j {
      assert p[n + i] == s[i] && p[n + j - 1] == s[j - 1];
    }
  }

  lemma SliceOfPadded(w1: string, s: string, w2: string, i: int, j: int)
    requires 0 <= i <= j <= |s|
    ensures (w1 + s + w2)[|w1| + i..|w1| + j] == s[i..j]
  {
    assert (w1 + s + w2)[|w1|..|w1| + |s|] == s;
  }

  lemma TrimSpacePaddedAt(w1: string, s: string, w2: string, i: int, j: int)
    requires AllSpace(w1) && AllSpace(w2) && Trims(s, i, j)
    requires TrimSpace(s) == s[i..j]
    ensures TrimSpace(w1 + s + w2) == TrimSpace(s)
  {
    TrimsShifted(w1, s, w2, i, j);
    TrimSpaceUnique(w1 + s + w2, |w1| + i, |w1| + j);
    SliceOfPadded(w1, s, w2, i, j);
  }

  /** White space around a string is exactly what TrimSpace removes. */
  lemma TrimSpacePadded(w1: string, s: string, w2: string)
    requires AllSpace(w1) && AllSpace(w2)
    ensures TrimSpace(w1 + s + w2) == TrimSpace(s)
  {
    var i := SkipSpace(s, 0);
    var j := SkipSpaceBack(s, i, |s|);
    assert Trims(s, i, j) && TrimSpace(s) == s[i..j];
    TrimSpacePaddedAt(w1, s, w2, i, j);
  }

  // ---------------------------------------------------------------------------
  // Decimal formatting
  // ---------------------------------------------------------------------------

  predicate IsDigit(c: char) {
    '0' <= c <= '9'
  }

  predicate AllDigits(s: string) {
    forall k :: 0 <= k < |s| ==> IsDigit(s[k])
  }

  function DigitChar(d: int): (c: char)
    requires 0 <= d < 10
    ensures IsDigit(c) && DigitValue(c) == d
  {
    ('0' as int + d) as char
  }

  function DigitValue(c: char): (d: int)
    requires IsDigit(c)
    ensures 0 <= d < 10
  {
    c as int - '0' as int
  }

  /** The decimal digits of a natural number, most significant first, without leading zeros. */
  function Digits(n: nat): (s: string)
    ensures |s| >= 1 && AllDigits(s)
    ensures |s| > 1 ==> s[0] != '0'
    decreases n
  {
    if n < 10 then [DigitChar(n)]
    else Digits(n / 10) + [DigitChar(n % 10)]
  }

  /**
   * strconv.FormatInt(n, 10): a minus sign for negative numbers, then the
   * decimal digits of the magnitude.
   */
  function FormatInt(n: int): (s: string)
    ensures |s| >= 1
    ensures (s[0] == '-') == (n < 0)
    ensures AllDigits(if n < 0 then s[1..] else s)
  {
    if n < 0 then "-" + Digits(-n) else Digits(n)
  }

  /** The number a string of decimal digits denotes. */
  function DigitsValue(s: string): nat
    requires AllDigits(s)
  {
    if s == [] then 0 else DigitsValue(s[..|s| - 1]) * 10 + DigitValue(s[|s| - 1])
  }

  /** Reads back what FormatInt writes: an optional minus sign and at least one digit. */
  function DecimalValue(s: string): Option<int> {
    if |s| >= 2 && s[0] == '-' && AllDigits(s[1..]) then
      var magnitude: int := DigitsValue(s[1..]);
      Some(-magnitude)
    else if |s| >= 1 && AllDigits(s) then Some(DigitsValue(s))
    else None
  }

  lemma {:induction false} DigitsValueOfDigits(n: nat)
    ensures DigitsValue(Digits(n)) == n
    decreases n
  {
    if n >= 10 {
      var s := Digits(n);
      assert s[..|s| - 1] == Digits(n / 10);
      DigitsValueOfDigits(n / 10);
    }
  }

  /** A natural number reads back from its digits. */
  lemma ReadNonNegative(n: nat)
    ensures DecimalValue(FormatInt(n)) == Some(n)
  {
    var s := Digits(n);
    assert FormatInt(n) == s;
    assert !(|s| >= 2 && s[0] == '-');
    DigitsValueOfDigits(n);
  }

  /** A negative number reads back from its sign and the digits of its magnitude. */
  lemma ReadNegative(n: int)
    requires n < 0
    ensures DecimalValue(FormatInt(n)) == Some(n)
  {
    var digits := Digits(-n);
    var s := FormatInt(n);
    assert s == "-" + digits;
    assert s[1..] == digits;
    assert |s| >= 2 && s[0] == '-' && AllDigits(s[1..]);
    DigitsValueOfDigits(-n);
  }

  /** Reading a formatted number gives the number back. */
  lemma FormatIntRoundTrip(n: int)
    ensures DecimalValue(FormatInt(n)) == Some(n)
  {
    if n < 0 {
      ReadNegative(n);
    } else {
      ReadNonNegative(n);
    }
  }

  /** Different numbers are formatted differently. */
  lemma FormatIntInjective(m: int, n: int)
    requires FormatInt(m) == FormatInt(n)
    ensures m == n
  {
    FormatIntRoundTrip(m);
    FormatIntRoundTrip(n);
  }
}
