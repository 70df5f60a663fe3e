/** The Python `str` operations that the pipeline driver relies on, stated over
    Dafny strings: `isspace`/`strip`, the `in` test, `count`, `replace`,
    `split`/`join`, and `str()` of an integer. */
module PyStr {

  // ---------------------------------------------------------------- whitespace

  /** Python's `str.isspace` for one character: exactly the characters that a
      bare `str.strip()` removes. */
  predicate IsSpace(c: char): (b: bool)
    ensures c == ' ' || 9 <= c as int <= 13 ==> b
    ensures 33 <= c as int <= 126 ==> !b
  {
    var n := c as int;
    (9 <= n <= 13) || (28 <= n <= 32) || n == 0x85 || n == 0xA0 || n == 0x1680
    || (0x2000 <= n <= 0x200A) || n == 0x2028 || n == 0x2029 || n == 0x202F
    || n == 0x205F || n == 0x3000
  }

  predicate AllSpace(s: string) {
    forall i :: 0 <= i < |s| ==> IsSpace(s[i])
  }

  /** Neither the first nor the last character is whitespace. */
  predicate Trimmed(s: string) {
    |s| == 0 || (!IsSpace(s[0]) && !IsSpace(s[|s| - 1]))
  }

  /** `s.lstrip()`: drops leading whitespace; what is left does not start
      with whitespace. */
  function LStrip(s: string): (r: string)
    ensures |r| <= |s|
    ensures |r| == 0 || !IsSpace(r[0])
  {
    if |s| > 0 && IsSpace(s[0]) then LStrip(s[1..]) else s
  }

  /** `lstrip` keeps a suffix and removes only whitespace. */
  lemma {:induction false} LStripSuffix(s: string)
    ensures LStrip(s) == s[|s| - |LStrip(s)|..]
    ensures AllSpace(s[..|s| - |LStrip(s)|])
    decreases |s|
  {
    if |s| > 0 && IsSpace(s[0]) {
      LStripSuffix(s[1..]);
      var k := |s| - |LStrip(s)|;
      assert s[1..][k - 1..] == s[k..];
      assert s[..k] == [s[0]] + s[1..][..k - 1];
    }
  }

  /** `s.rstrip()`: drops trailing whitespace; what is left does not end
      with whitespace. */
  function RStrip(s: string): (r: string)
    ensures |r| <= |s|
    ensures |r| == 0 || !IsSpace(r[|r| - 1])
  {
    if |s| > 0 && IsSpace(s[|s| - 1]) then RStrip(s[..|s| - 1]) else s
  }

  /** `rstrip` keeps a prefix and removes only whitespace. */
  lemma {:induction false} RStripPrefix(s: string)
    ensures RStrip(s) == s[..|RStrip(s)|]
    ensures AllSpace(s[|RStrip(s)|..])
    decreases |s|
  {
    if |s| > 0 && IsSpace(s[|s| - 1]) {
      RStripPrefix(s[..|s| - 1]);
      var k := |RStrip(s)|;
      assert s[..|s| - 1][..k] == s[..k];
      assert s[k..] == s[..|s| - 1][k..] + [s[|s| - 1]];
    }
  }

  /** `s.strip()`: neither end of the result is whitespace. */
  function Strip(s: string): (r: string)
    ensures Trimmed(r)
  {
    StripEnds(s);
    RStrip(LStrip(s))
  }

  lemma StripEnds(s: string)
    ensures Trimmed(RStrip(LStrip(s)))
  {
    var l := LStrip(s);
    var r := RStrip(l);
    RStripPrefix(l);
    if |r| > 0 {
      assert r[0] == l[0];
    }
  }

  /** `s` is the stripped text surrounded by whitespace only: `strip` removes
      whitespace from both ends and nothing else. */
  lemma StripFrame(s: string)
    ensures var r := Strip(s); var k := |s| - |LStrip(s)|;
      k + |r| <= |s| && r == s[k..k + |r|] && AllSpace(s[..k]) && AllSpace(s[k + |r|..])
  {
    StripKeepsMiddle(s);
    StripDropsSpace(s);
  }

  lemma StripKeepsMiddle(s: string)
    ensures var r := Strip(s); var k := |s| - |LStrip(s)|;
      k + |r| <= |s| && r == s[k..k + |r|]
  {
    var l := LStrip(s);
    var r := RStrip(l);
    var k := |s| - |l|;
    assert Strip(s) == r;
    LStripSuffix(s);
    assert l == s[k..];
    RStripPrefix(l);
    assert r == l[..|r|];
    assert s[k..][..|r|] == s[k..k + |r|];
  }

  lemma StripDropsSpace(s: string)
    ensures var r := Strip(s); var k := |s| - |LStrip(s)|;
      k + |r| <= |s| && AllSpace(s[..k]) && AllSpace(s[k + |r|..])
  {
    var l := LStrip(s);
    var r := RStrip(l);
    var k := |s| - |l|;
    LStripSuffix(s);
    RStripPrefix(l);
    assert s[k + |r|..] == l[|r|..];
  }

  /** Stripping text that is already trimmed changes nothing. */
  lemma StripTrimmed(s: string)
    requires Trimmed(s)
    ensures Strip(s) == s
  {
    if |s| > 0 {
      assert LStrip(s) == s;
      assert RStrip(s) == s;
    }
  }

  // ---------------------------------------------------------------- substrings

  /** `p` occurs in `s` starting at index `i`. */
  predicate MatchAt(s: string, p: string, i: nat) {
    i + |p| <= |s| && s[i..i + |p|] == p
  }

  /** Python's `p in s`. */
  predicate Contains(s: string, p: string) {
    exists i: nat :: i <= |s| && MatchAt(s, p, i)
  }

  /** Occurrences at index i + 1 of `s` are the occurrences at index i of `s[1..]`. */
  lemma MatchAtTail(s: string, p: string, i: nat)
    requires |s| > 0
    ensures MatchAt(s, p, i + 1) <==> MatchAt(s[1..], p, i)
  {
    if i + 1 + |p| <= |s| {
      assert s[i + 1..i + 1 + |p|] == s[1..][i..i + |p|];
    }
  }

  /** An occurrence at index `j` of `s[i..]` is one at index `i + j` of `s`. */
  lemma MatchAtShift(s: string, p: string, i: nat, j: nat)
    requires i <= |s|
    ensures MatchAt(s[i..], p, j) <==> MatchAt(s, p, i + j)
  {
    if i + j + |p| <= |s| {
      assert s[i..][j..j + |p|] == s[i + j..i + j + |p|];
    }
  }

  lemma ContainsTail(s: string, p: string)
    requires |s| > 0 && !MatchAt(s, p, 0)
    ensures Contains(s, p) <==> Contains(s[1..], p)
  {
    if Contains(s, p) {
      var i: nat :| MatchAt(s, p, i);
      MatchAtTail(s, p, i - 1);
    }
    if Contains(s[1..], p) {
      var i: nat :| MatchAt(s[1..], p, i);
      MatchAtTail(s, p, i);
    }
  }

  /** Python's `s.count(p)` for a non-empty `p`: non-overlapping occurrences,
      scanning from the left. */
  function Count(s: string, p: string): (n: nat)
    requires |p| > 0
    ensures n <= |s|
    decreases |s|
  {
    if |s| < |p| then 0
    else if s[..|p|] == p then 1 + Count(s[|p|..], p)
    else Count(s[1..], p)
  }

  /** Python's `s.replace(p, n)` for a non-empty `p`: every non-overlapping
      occurrence, leftmost first, is replaced by `n`. */
  function Replace(s: string, p: string, n: string): string
    requires |p| > 0
    decreases |s|
  {
    if |s| < |p| then s
    else if s[..|p|] == p then n + Replace(s[|p|..], p, n)
    else [s[0]] + Replace(s[1..], p, n)
  }

  /** Python's `s.split(p)` for a non-empty `p`: the pieces between the
      occurrences that `Replace` and `Count` see. */
  function Split(s: string, p: string): (pieces: seq<string>)
    requires |p| > 0
    ensures |pieces| > 0
    decreases |s|
  {
    if |s| < |p| then [s]
    else if s[..|p|] == p then [""] + Split(s[|p|..], p)
    else
      var rest := Split(s[1..], p);
      [[s[0]] + rest[0]] + rest[1..]
  }

  /** Python's `sep.join(pieces)` for a non-empty list of pieces. */
  function Join(pieces: seq<string>, sep: string): string
    requires |pieces| > 0
  {
    if |pieces| == 1 then pieces[0] else pieces[0] + sep + Join(pieces[1..], sep)
  }

  /** A character prepended to the first piece is prepended to the joined text. */
  lemma JoinConsFirst(c: char, pieces: seq<string>, sep: string)
    requires |pieces| > 0
    ensures Join([[c] + pieces[0]] + pieces[1..], sep) == [c] + Join(pieces, sep)
  {
    var q := [[c] + pieces[0]] + pieces[1..];
    assert q[1..] == pieces[1..];
  }

  /** `p in s` exactly when `s.count(p)` is positive. */
  lemma {:induction false} CountPositiveIffContains(s: string, p: string)
    requires |p| > 0
    ensures Count(s, p) > 0 <==> Contains(s, p)
    decreases |s|
  {
    if |s| < |p| {
      assert !Contains(s, p);
    } else if s[..|p|] == p {
      assert MatchAt(s, p, 0);
    } else {
      assert !MatchAt(s, p, 0);
      ContainsTail(s, p);
      CountPositiveIffContains(s[1..], p);
    }
  }

  /** Replacing a pattern that does not occur changes nothing. */
  lemma {:induction false} ReplaceAbsent(s: string, p: string, n: string)
    requires |p| > 0 && !Contains(s, p)
    ensures Replace(s, p, n) == s
    decreases |s|
  {
    if |s| >= |p| {
      assert !MatchAt(s, p, 0);
      ContainsTail(s, p);
      ReplaceAbsent(s[1..], p, n);
    }
  }

  /** The occurrences `count` sees do not overlap, so they fit in `s` side by side. */
  lemma {:induction false} CountBound(s: string, p: string)
    requires |p| > 0
    ensures Count(s, p) * |p| <= |s|
    decreases |s|
  {
    if |s| >= |p| {
      if s[..|p|] == p {
        CountBound(s[|p|..], p);
        assert Count(s, p) == 1 + Count(s[|p|..], p);
        OneMore(Count(s[|p|..], p), |p|, |s|);
      } else {
        CountBound(s[1..], p);
      }
    }
  }

  /** The arithmetic of one more occurrence. */
  lemma OneMore(c: int, lp: int, ls: int)
    requires c * lp <= ls - lp
    ensures (1 + c) * lp <= ls
  {
    assert (1 + c) * lp == lp + c * lp;
  }

  /** Each replaced occurrence changes the length by `|n| - |p|`. */
  lemma {:induction false} ReplaceLength(s: string, p: string, n: string)
    requires |p| > 0
    ensures |Replace(s, p, n)| == |s| + Count(s, p) * (|n| - |p|)
    decreases |s|
  {
    if |s| >= |p| {
      if s[..|p|] == p {
        ReplaceLength(s[|p|..], p, n);
        ReplaceLengthAtMatch(s, p, n);
      } else {
        ReplaceLength(s[1..], p, n);
        ReplaceLengthPastChar(s, p, n);
      }
    }
  }

  /** The inductive step where `s` starts with an occurrence. */
  lemma ReplaceLengthAtMatch(s: string, p: string, n: string)
    requires |p| > 0 && |s| >= |p| && s[..|p|] == p
    requires |Replace(s[|p|..], p, n)| == |s[|p|..]| + Count(s[|p|..], p) * (|n| - |p|)
    ensures |Replace(s, p, n)| == |s| + Count(s, p) * (|n| - |p|)
  {
    var c := Count(s[|p|..], p);
    assert Count(s, p) == 1 + c;
    assert Replace(s, p, n) == n + Replace(s[|p|..], p, n);
    ShiftByOne(|s|, |p|, |n|, c, |Replace(s[|p|..], p, n)|);
  }

  /** The arithmetic of one replaced occurrence. */
  lemma ShiftByOne(ls: int, lp: int, ln: int, c: int, rest: int)
    requires rest == (ls - lp) + c * (ln - lp)
    ensures ln + rest == ls + (1 + c) * (ln - lp)
  {
    assert (1 + c) * (ln - lp) == (ln - lp) + c * (ln - lp);
  }

  /** The inductive step where `s` starts with another character. */
  lemma ReplaceLengthPastChar(s: string, p: string, n: string)
    requires |p| > 0 && |s| >= |p| && s[..|p|] != p
    requires |Replace(s[1..], p, n)| == |s[1..]| + Count(s[1..], p) * (|n| - |p|)
    ensures |Replace(s, p, n)| == |s| + Count(s, p) * (|n| - |p|)
  {
  }

  /** `s.replace(p, n) == n.join(s.split(p))`. */
  lemma {:induction false} ReplaceIsJoinOfSplit(s: string, p: string, n: string)
    requires |p| > 0
    ensures Replace(s, p, n) == Join(Split(s, p), n)
    decreases |s|
  {
    if |s| >= |p| {
      if s[..|p|] == p {
        ReplaceIsJoinOfSplit(s[|p|..], p, n);
        var rest := Split(s[|p|..], p);
        assert ([""] + rest)[1..] == rest;
      } else {
        ReplaceIsJoinOfSplit(s[1..], p, n);
        JoinConsFirst(s[0], Split(s[1..], p), n);
      }
    }
  }

  /** `s.split(p)` has one piece more than there are occurrences of `p`. */
  lemma {:induction false} SplitCount(s: string, p: string)
    requires |p| > 0
    ensures |Split(s, p)| == Count(s, p) + 1
    decreases |s|
  {
    if |s| >= |p| {
      if s[..|p|] == p {
        SplitCount(s[|p|..], p);
      } else {
        SplitCount(s[1..], p);
      }
    }
  }

  /** Replacing a pattern by itself is the identity. */
  lemma {:induction false} ReplaceSelf(s: string, p: string)
    requires |p| > 0
    ensures Replace(s, p, p) == s
    decreases |s|
  {
    if |s| >= |p| {
      if s[..|p|] == p {
        ReplaceSelf(s[|p|..], p);
        assert s == s[..|p|] + s[|p|..];
      } else {
        ReplaceSelf(s[1..], p);
        assert s == [s[0]] + s[1..];
      }
    }
  }

  /** Joining the pieces of `s.split(p)` with `p` gives back `s`. */
  lemma SplitJoinRoundTrip(s: string, p: string)
    requires |p| > 0
    ensures Join(Split(s, p), p) == s
  {
    ReplaceIsJoinOfSplit(s, p, p);
    ReplaceSelf(s, p);
  }

  /** The first piece of a split is a prefix of the text. */
  lemma {:induction false} SplitFirstIsPrefix(s: string, p: string)
    requires |p| > 0
    ensures |Split(s, p)[0]| <= |s| && Split(s, p)[0] == s[..|Split(s, p)[0]|]
    decreases |s|
  {
    if |s| >= |p| && s[..|p|] != p {
      SplitFirstIsPrefix(s[1..], p);
    }
  }

  /** No piece of `s.split(p)` contains `p`: the pieces are the maximal
      `p`-free stretches between the occurrences. */
  lemma {:induction false} SplitPiecesAvoid(s: string, p: string)
    requires |p| > 0
    ensures forall k :: 0 <= k < |Split(s, p)| ==> !Contains(Split(s, p)[k], p)
    decreases |s|
  {
    var pieces := Split(s, p);
    if |s| < |p| {
      assert pieces == [s];
      assert !Contains(s, p);
    } else if s[..|p|] == p {
      SplitPiecesAvoid(s[|p|..], p);
      var rest := Split(s[|p|..], p);
      assert pieces == [""] + rest;
      forall k | 0 <= k < |pieces| ensures !Contains(pieces[k], p) {
        if k == 0 {
          assert !Contains("", p);
        } else {
          assert pieces[k] == rest[k - 1];
        }
      }
    } else {
      SplitPiecesAvoid(s[1..], p);
      SplitFirstIsPrefix(s[1..], p);
      var rest := Split(s[1..], p);
      var first := [s[0]] + rest[0];
      assert pieces == [first] + rest[1..];
      assert first == s[..|first|];
      forall k | 0 <= k < |pieces| ensures !Contains(pieces[k], p) {
        if k == 0 {
          assert !Contains(rest[0], p);
          assert |first| >= |p| ==> first[..|p|] == s[..|p|];
          assert !MatchAt(first, p, 0);
          assert first[1..] == rest[0];
          ContainsTail(first, p);
        } else {
          assert pieces[k] == rest[k];
        }
      }
    }
  }

  /** The first character of a replacement comes from the text or from `n`. */
  lemma {:induction false} ReplaceFirst(s: string, p: string, n: string)
    requires |p| > 0 && |s| > 0 && |n| > 0
    ensures |Replace(s, p, n)| > 0
    ensures Replace(s, p, n)[0] == s[0] || Replace(s, p, n)[0] == n[0]
  {
  }

  /** The last character of a replacement comes from the text or from `n`. */
  lemma {:induction false} ReplaceLast(s: string, p: string, n: string)
    requires |p| > 0 && |s| > 0 && |n| > 0
    ensures |Replace(s, p, n)| > 0
    ensures var r := Replace(s, p, n); r[|r| - 1] == s[|s| - 1] || r[|r| - 1] == n[|n| - 1]
    decreases |s|
  {
    if |s| >= |p| {
      if s[..|p|] == p {
        if |s[|p|..]| > 0 {
          ReplaceLast(s[|p|..], p, n);
        }
      } else if |s| > 1 {
        ReplaceLast(s[1..], p, n);
      }
    }
  }

  /** Replacing inside trimmed text by trimmed, non-empty text keeps it trimmed. */
  lemma ReplaceKeepsTrimmed(s: string, p: string, n: string)
    requires |p| > 0 && |n| > 0 && Trimmed(s) && Trimmed(n)
    ensures Trimmed(Replace(s, p, n))
  {
    if |s| > 0 {
      ReplaceFirst(s, p, n);
      ReplaceLast(s, p, n);
    } else {
      assert Replace(s, p, n) == s;
    }
  }

  /** When no occurrence of `p` starts inside `a`, replacing in `a + b` leaves
      `a` alone. */
  lemma {:induction false} ReplaceSkipsPrefix(a: string, b: string, p: string, n: string)
    requires |p| > 0
    requires forall i: nat :: i < |a| ==> !MatchAt(a + b, p, i)
    ensures Replace(a + b, p, n) == a + Replace(b, p, n)
    decreases |a|
  {
    if |a| > 0 {
      var s := a + b;
      assert !MatchAt(s, p, 0);
      if |s| < |p| {
        assert Replace(b, p, n) == b;
      } else {
        assert s[1..] == a[1..] + b;
        forall i: nat | i < |a[1..]| ensures !MatchAt(a[1..] + b, p, i) {
          MatchAtTail(s, p, i);
        }
        ReplaceSkipsPrefix(a[1..], b, p, n);
        assert a == [a[0]] + a[1..];
      }
    } else {
      assert a + b == b;
    }
  }

  /** A character that `p` holds at exactly one index `j` and that `a` lacks
      rules out any occurrence of `p` starting inside `a` in `a + p`. */
  lemma MarkerRulesOutEarlyMatch(a: string, p: string, j: nat)
    requires j < |p| && p[j] !in a
    requires forall k :: 0 <= k < |p| && k != j ==> p[k] != p[j]
    ensures forall i: nat :: i < |a| ==> !MatchAt(a + p, p, i)
  {
    forall i: nat | i < |a| ensures !MatchAt(a + p, p, i) {
      var s := a + p;
      assert s[i..i + |p|][j] == s[i + j];
      if i + j < |a| {
        assert s[i + j] == a[i + j];
      } else {
        assert s[i + j] == p[i + j - |a|];
      }
      assert s[i + j] != p[j];
    }
  }

  // ---------------------------------------------------------------- integers

  predicate IsDigit(c: char) {
    '0' <= c <= '9'
  }

  predicate AllDigits(s: string) {
    forall i :: 0 <= i < |s| ==> IsDigit(s[i])
  }

  function DigitChar(d: nat): (c: char)
    requires d < 10
    ensures IsDigit(c) && c as int - '0' as int == d
  {
    (('0' as int) + d) as char
  }

  /** The decimal digits of `n`, most significant first, without leading zeros. */
  function NatToString(n: nat): (r: string)
    ensures |r| > 0 && AllDigits(r)
    ensures |r| > 1 ==> r[0] != '0'
  {
    if n < 10 then [DigitChar(n)] else NatToString(n / 10) + [DigitChar(n % 10)]
  }

  /** The number a string of decimal digits denotes. */
  function DigitsValue(s: string): nat
    requires AllDigits(s)
  {
    if |s| == 0 then 0
    else DigitsValue(s[..|s| - 1]) * 10 + (s[|s| - 1] as int - '0' as int)
  }

  /** Reading back the decimal digits of `n` gives `n`. */
  lemma {:induction false} NatToStringRoundTrip(n: nat)
    ensures DigitsValue(NatToString(n)) == n
  {
    if n >= 10 {
      NatToStringRoundTrip(n / 10);
      var r := NatToString(n);
      assert r[..|r| - 1] == NatToString(n / 10);
    }
  }

  /** Python's `str(i)` for an integer. */
  function IntToString(i: int): (r: string)
    ensures |r| > 0 && (r[0] == '-' <==> i < 0)
    ensures i >= 0 ==> AllDigits(r)
  {
    if i < 0 then "-" + NatToString(-i) else NatToString(i)
  }
}
