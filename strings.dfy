/**
 * The pieces of Python's string handling that the puzzle parsers rely on:
 * `str.split(sep)` with an explicit separator, `int()` on a decimal literal,
 * and decimal formatting, which is used to state the parsers' round trips.
 */
module Strings {
  import opened Wrappers

  /** `sep` occurs in `s` starting at index `i`. */
  predicate MatchesAt(s: string, sep: string, i: nat) {
    i + |sep| <= |s| && s[i..i + |sep|] == sep
  }

  /** An occurrence inside a prefix is an occurrence in the whole string. */
  lemma MatchesPrefix(s: string, sep: string, n: nat, i: nat)
    requires n <= |s|
    requires MatchesAt(s[..n], sep, i)
    ensures MatchesAt(s, sep, i)
  {
    assert s[..n][i..i + |sep|] == s[i..i + |sep|];
  }

  /**
   * Index of the leftmost occurrence of `sep` in `s` at or after `start`
   * (Python's `s.find(sep, start)`, with None for -1).
   */
  function IndexFrom(s: string, sep: string, start: nat): (r: Option<nat>)
    requires |sep| > 0
    ensures r.Some? ==> start <= r.value && MatchesAt(s, sep, r.value)
    ensures r.Some? ==> forall i: nat :: start <= i < r.value ==> !MatchesAt(s, sep, i)
    ensures r.None? ==> forall i: nat :: start <= i ==> !MatchesAt(s, sep, i)
    decreases |s| - start
  {
    if start + |sep| > |s| then None
    else if MatchesAt(s, sep, start) then Some(start)
    else IndexFrom(s, sep, start + 1)
  }

  /** Index of the leftmost occurrence of `sep` in `s`. */
  function IndexOf(s: string, sep: string): Option<nat>
    requires |sep| > 0
  {
    IndexFrom(s, sep, 0)
  }

  /** An occurrence with none before it is what IndexOf finds. */
  lemma IndexOfFirst(s: string, sep: string, k: nat)
    requires |sep| > 0
    requires MatchesAt(s, sep, k)
    requires forall i: nat :: i < k ==> !MatchesAt(s, sep, i)
    ensures IndexOf(s, sep) == Some(k)
  {
  }

  /** A string without the separator's first character holds no occurrence of it. */
  lemma IndexOfAbsent(s: string, sep: string)
    requires |sep| > 0 && sep[0] !in s
    ensures IndexOf(s, sep) == None
  {
    forall i: nat | i + |sep| <= |s| ensures !MatchesAt(s, sep, i) {
      assert s[i..i + |sep|][0] == s[i];
    }
  }

  /** Python's `sep.join(pieces)`. */
  function Join(pieces: seq<string>, sep: string): string
    decreases |pieces|
  {
    if |pieces| == 0 then ""
    else if |pieces| == 1 then pieces[0]
    else pieces[0] + sep + Join(pieces[1..], sep)
  }

  /**
   * Python's `s.split(sep)` for a non-empty separator: the pieces between the
   * leftmost non-overlapping occurrences of `sep`.
   */
  function Split(s: string, sep: string): (pieces: seq<string>)
    requires |sep| > 0
    ensures |pieces| > 0
    decreases |s|
  {
    match IndexOf(s, sep)
    case None => [s]
    case Some(i) => [s[..i]] + Split(s[i + |sep|..], sep)
  }

  /** Joining the pieces of a split with the separator gives the string back. */
  lemma {:induction false} JoinSplit(s: string, sep: string)
    requires |sep| > 0
    ensures Join(Split(s, sep), sep) == s
    decreases |s|
  {
    match IndexOf(s, sep)
    case None =>
    case Some(i) =>
      JoinSplit(s[i + |sep|..], sep);
      assert s[i..i + |sep|] == sep;
      assert s == s[..i] + sep + s[i + |sep|..];
  }

  /** No piece of a split holds the separator. */
  lemma {:induction false} SplitPiecesLackSeparator(s: string, sep: string)
    requires |sep| > 0
    ensures forall k :: 0 <= k < |Split(s, sep)| ==> IndexOf(Split(s, sep)[k], sep) == None
    decreases |s|
  {
    match IndexOf(s, sep)
    case None =>
    case Some(i) =>
      var head := s[..i];
      forall j: nat | MatchesAt(head, sep, j) ensures false {
        MatchesPrefix(s, sep, i, j);
      }
      SplitPiecesLackSeparator(s[i + |sep|..], sep);
  }

  /** Splitting at an occurrence found in a prefix does not depend on what follows. */
  lemma SplitAfter(a: string, sep: string, b: string)
    requires |sep| > 0
    requires IndexOf(a + sep, sep) == Some(|a|)
    ensures Split(a + sep + b, sep) == [a] + Split(b, sep)
  {
    var s := a + sep + b;
    assert s[..|a| + |sep|] == a + sep;
    forall i: nat | i < |a| ensures !MatchesAt(s, sep, i) {
      assert !MatchesAt(a + sep, sep, i);
      assert s[i..i + |sep|] == (a + sep)[i..i + |sep|];
    }
    assert MatchesAt(s, sep, |a|) by {
      assert s[|a|..|a| + |sep|] == sep;
    }
    IndexOfFirst(s, sep, |a|);
    assert s[..|a|] == a;
    assert s[|a| + |sep|..] == b;
  }

  /** A separator right after a part lacking its first character is the first occurrence. */
  lemma IndexOfAfterAbsent(a: string, sep: string)
    requires |sep| > 0 && sep[0] !in a
    ensures IndexOf(a + sep, sep) == Some(|a|)
  {
    var t := a + sep;
    forall i: nat | i < |a| ensures !MatchesAt(t, sep, i) {
      assert t[i] == a[i];
      assert t[i..i + |sep|][0] == t[i];
    }
    assert t[|a|..|a| + |sep|] == sep;
    IndexOfFirst(t, sep, |a|);
  }

  /** No occurrence starts at a character other than the separator's first. */
  lemma NoMatchAt(s: string, sep: string, i: nat)
    requires |sep| > 0 && i < |s| && s[i] != sep[0]
    ensures !MatchesAt(s, sep, i)
  {
    if i + |sep| <= |s| {
      assert s[i..i + |sep|][0] == s[i];
    }
  }

  /** Occurrences in `y` are occurrences in `x + y`, shifted by `|x|`. */
  lemma MatchesConcat(x: string, y: string, sep: string, j: nat)
    ensures MatchesAt(x + y, sep, |x| + j) <==> MatchesAt(y, sep, j)
  {
    if j + |sep| <= |y| {
      assert (x + y)[|x| + j..|x| + j + |sep|] == y[j..j + |sep|];
    }
  }

  /** Characters that cannot start the separator can be skipped over. */
  lemma IndexOfSkip(x: string, y: string, sep: string)
    requires |sep| > 0 && sep[0] !in x && IndexOf(y, sep).Some?
    ensures IndexOf(x + y, sep) == Some(|x| + IndexOf(y, sep).value)
  {
    var k := IndexOf(y, sep).value;
    forall i: nat | i < |x| + k ensures !MatchesAt(x + y, sep, i) {
      if i < |x| {
        assert (x + y)[i] == x[i];
        NoMatchAt(x + y, sep, i);
      } else {
        MatchesConcat(x, y, sep, i - |x|);
      }
    }
    MatchesConcat(x, y, sep, k);
    IndexOfFirst(x + y, sep, |x| + k);
  }

  /** The usual case of SplitAfter: the part before the separator lacks its first character. */
  lemma SplitAfterAbsent(a: string, sep: string, b: string)
    requires |sep| > 0 && sep[0] !in a
    ensures Split(a + sep + b, sep) == [a] + Split(b, sep)
  {
    IndexOfAfterAbsent(a, sep);
    SplitAfter(a, sep, b);
  }

  /** A string without the separator's first character splits into itself. */
  lemma SplitAbsent(s: string, sep: string)
    requires |sep| > 0 && sep[0] !in s
    ensures Split(s, sep) == [s]
  {
    IndexOfAbsent(s, sep);
  }

  /** Split undoes Join when no piece holds the separator's first character. */
  lemma {:induction false} SplitJoin(pieces: seq<string>, sep: string)
    requires |sep| > 0 && |pieces| > 0
    requires forall k :: 0 <= k < |pieces| ==> sep[0] !in pieces[k]
    ensures Split(Join(pieces, sep), sep) == pieces
    decreases |pieces|
  {
    if |pieces| == 1 {
      SplitAbsent(pieces[0], sep);
    } else {
      SplitJoin(pieces[1..], sep);
      SplitAfterAbsent(pieces[0], sep, Join(pieces[1..], sep));
      assert pieces == [pieces[0]] + pieces[1..];
    }
  }

  predicate IsDigit(c: char) {
    '0' <= c <= '9'
  }

  function DigitValue(c: char): (d: nat)
    requires IsDigit(c)
    ensures d < 10
  {
    (c as int) - ('0' as int)
  }

  function DigitChar(d: nat): (c: char)
    requires d < 10
    ensures IsDigit(c) && DigitValue(c) == d
  {
    (('0' as int) + d) as char
  }

  /** Python's `int()` on an unsigned decimal literal: one or more ASCII digits. */
  function ParseNat(s: string): (r: Option<nat>)
    ensures r.Some? <==> |s| > 0 && forall i :: 0 <= i < |s| ==> IsDigit(s[i])
    decreases |s|
  {
    if |s| == 0 || !IsDigit(s[|s| - 1]) then None
    else if |s| == 1 then Some(DigitValue(s[0]))
    else
      match ParseNat(s[..|s| - 1])
      case None => None
      case Some(n) => Some(10 * n + DigitValue(s[|s| - 1]))
  }

  /** Python's `int()` on a decimal literal with an optional sign. */
  function ParseInt(s: string): (r: Option<int>)
  {
    if |s| > 0 && s[0] == '-' then
      match ParseNat(s[1..])
      case None => None
      case Some(n) => var v: int := n; Some(-v)
    else if |s| > 0 && s[0] == '+' then
      match ParseNat(s[1..])
      case None => None
      case Some(n) => Some(n)
    else
      match ParseNat(s)
      case None => None
      case Some(n) => Some(n)
  }

  /** Decimal digits of `n`, most significant first, without leading zeros. */
  function FormatNat(n: nat): (r: string)
    ensures |r| > 0 && forall i :: 0 <= i < |r| ==> IsDigit(r[i])
  {
    if n < 10 then [DigitChar(n)] else FormatNat(n / 10) + [DigitChar(n % 10)]
  }

  /** Python's `str()` on an integer. */
  function FormatInt(i: int): (r: string)
    ensures forall c :: c in r ==> IsDigit(c) || c == '-'
  {
    if i < 0 then "-" + FormatNat(-i) else FormatNat(i)
  }

  lemma {:induction false} ParseFormatNat(n: nat)
    ensures ParseNat(FormatNat(n)) == Some(n)
  {
    if n >= 10 {
      ParseFormatNat(n / 10);
      var s := FormatNat(n);
      assert s[..|s| - 1] == FormatNat(n / 10);
    }
  }

  /** `int(str(i)) == i`. */
  lemma ParseFormatInt(i: int)
    ensures ParseInt(FormatInt(i)) == Some(i)
  {
    if i < 0 {
      var digits := FormatNat(-i);
      ParseFormatNat(-i);
      assert FormatInt(i) == "-" + digits;
      assert ("-" + digits)[1..] == digits;
    } else {
      var digits := FormatNat(i);
      ParseFormatNat(i);
      assert FormatInt(i) == digits;
      assert IsDigit(digits[0]);
    }
  }
}
