/** The Python string operations the agents use: `str.split(sep)`,
    `sep.join(pieces)`, `str.replace(pat, rep)`, `str.strip()` and `str(n)`
    for a non-negative int. */
module PyStr {

  /** `p` occurs in `s` starting at index `i`. */
  predicate MatchAt(s: string, p: string, i: nat) {
    i + |p| <= |s| && s[i..i + |p|] == p
  }

  /** `p in s` for a non-empty `p`. */
  predicate Occurs(s: string, p: string) {
    exists i: nat | i <= |s| :: MatchAt(s, p, i)
  }

  /** `s.split(sep)`: the pieces between the leftmost non-overlapping
      occurrences of `sep`. There is always at least one piece. */
  function Split(s: string, sep: string): (r: seq<string>)
    requires |sep| > 0
    ensures |r| >= 1
    decreases |s|
  {
    if |s| < |sep| then [s]
    else if s[..|sep|] == sep then [""] + Split(s[|sep|..], sep)
    else
      var rest := Split(s[1..], sep);
      [[s[0]] + rest[0]] + rest[1..]
  }

  /** `sep.join(pieces)`. */
  function Join(pieces: seq<string>, sep: string): string
    requires |pieces| >= 1
    decreases |pieces|
  {
    if |pieces| == 1 then pieces[0] else pieces[0] + sep + Join(pieces[1..], sep)
  }

  /** `s.replace(pat, rep)`: every leftmost non-overlapping occurrence of
      `pat`, scanning left to right, becomes `rep`. */
  function Replace(s: string, pat: string, rep: string): (r: string)
    requires |pat| > 0
    ensures |pat| <= |rep| ==> |s| <= |r|
    ensures |rep| <= |pat| ==> |r| <= |s|
    decreases |s|
  {
    if |s| < |pat| then s
    else if s[..|pat|] == pat then rep + Replace(s[|pat|..], pat, rep)
    else [s[0]] + Replace(s[1..], pat, rep)
  }

  lemma JoinPrependToHead(h: string, pieces: seq<string>, sep: string)
    requires |pieces| >= 1
    ensures Join([h + pieces[0]] + pieces[1..], sep) == h + Join(pieces, sep)
  {
    var l := [h + pieces[0]] + pieces[1..];
    assert l[1..] == pieces[1..];
  }

  /** Python's identity `s.replace(pat, rep) == rep.join(s.split(pat))`. */
  lemma {:induction false} ReplaceIsJoinOfSplit(s: string, pat: string, rep: string)
    requires |pat| > 0
    ensures Replace(s, pat, rep) == Join(Split(s, pat), rep)
    decreases |s|
  {
    if |s| < |pat| {
    } else if s[..|pat|] == pat {
      ReplaceIsJoinOfSplit(s[|pat|..], pat, rep);
      var l := [""] + Split(s[|pat|..], pat);
      assert l[1..] == Split(s[|pat|..], pat);
    } else {
      ReplaceIsJoinOfSplit(s[1..], pat, rep);
      JoinPrependToHead([s[0]], Split(s[1..], pat), rep);
    }
  }

  lemma {:induction false} ReplaceWithItself(s: string, pat: string)
    requires |pat| > 0
    ensures Replace(s, pat, pat) == s
    decreases |s|
  {
    if |s| < |pat| {
    } else if s[..|pat|] == pat {
      ReplaceWithItself(s[|pat|..], pat);
      assert s == s[..|pat|] + s[|pat|..];
    } else {
      ReplaceWithItself(s[1..], pat);
      assert s == [s[0]] + s[1..];
    }
  }

  /** Splitting and re-joining with the same separator gives the string back. */
  lemma JoinSplitRoundTrip(s: string, sep: string)
    requires |sep| > 0
    ensures Join(Split(s, sep), sep) == s
  {
    ReplaceIsJoinOfSplit(s, sep, sep);
    ReplaceWithItself(s, sep);
  }

  /** With a one-character separator, there is one more piece than there are
      separators, and no piece contains the separator. */
  lemma {:induction false} SplitOnCharPieces(s: string, c: char)
    ensures |Split(s, [c])| == multiset(s)[c] + 1
    ensures forall k :: 0 <= k < |Split(s, [c])| ==> c !in Split(s, [c])[k]
    decreases |s|
  {
    if |s| == 0 {
    } else {
      assert s == [s[0]] + s[1..];
      assert multiset(s) == multiset{s[0]} + multiset(s[1..]);
      SplitOnCharPieces(s[1..], c);
      if s[..1] == [c] {
        assert s[0] == c;
      } else {
        assert s[0] != c;
        var rest := Split(s[1..], [c]);
        assert c !in rest[0];
        assert c !in [s[0]] + rest[0];
      }
    }
  }

  /** `sep` occurs in `s` exactly when `s.split(sep)` has a piece at index 1. */
  lemma SplitHasSecondPiece(s: string, c: char)
    ensures |Split(s, [c])| >= 2 <==> c in s
  {
    SplitOnCharPieces(s, c);
  }

  /** A prefix free of the separator belongs wholly to the first piece. */
  lemma {:induction false} SplitSeparatorFreePrefix(a: string, t: string, c: char)
    requires c !in a
    ensures Split(a + t, [c]) == [a + Split(t, [c])[0]] + Split(t, [c])[1..]
    decreases |a|
  {
    if |a| == 0 {
      assert a + t == t;
      assert a + Split(t, [c])[0] == Split(t, [c])[0];
      assert [Split(t, [c])[0]] + Split(t, [c])[1..] == Split(t, [c]);
    } else {
      var s := a + t;
      assert s[0] == a[0] && s[1..] == a[1..] + t;
      assert s[..1] != [c] by { assert s[..1][0] == a[0]; }
      SplitSeparatorFreePrefix(a[1..], t, c);
      assert [s[0]] + (a[1..] + Split(t, [c])[0]) == a + Split(t, [c])[0];
    }
  }

  /** In `head + c + mid + rest`, with `head` and `mid` free of `c` and `rest`
      empty or starting with `c`, the piece at index 1 is `mid` whatever
      `rest` holds. */
  lemma SecondPiece(head: string, mid: string, rest: string, c: char)
    requires c !in head && c !in mid
    requires rest == [] || rest[0] == c
    ensures |Split(head + [c] + mid + rest, [c])| >= 2
    ensures Split(head + [c] + mid + rest, [c])[1] == mid
  {
    var tail := [c] + (mid + rest);
    assert head + [c] + mid + rest == head + tail;
    var rs := Split(rest, [c]);
    assert rs[0] == "" by {
      if rest != [] {
        assert rest[..1] == [c];
      }
    }
    var ms := Split(mid + rest, [c]);
    SplitSeparatorFreePrefix(mid, rest, c);
    assert ms[0] == mid by { assert mid + rs[0] == mid; }
    var ts := Split(tail, [c]);
    assert ts == [""] + ms by {
      assert tail[..1] == [c] && tail[1..] == mid + rest;
    }
    SplitSeparatorFreePrefix(head, tail, c);
  }

  /** Replacing a pattern that does not occur changes nothing. */
  lemma {:induction false} ReplaceAbsent(s: string, pat: string, rep: string)
    requires |pat| > 0
    requires !Occurs(s, pat)
    ensures Replace(s, pat, rep) == s
    decreases |s|
  {
    if |s| < |pat| {
    } else {
      assert s[..|pat|] != pat by { assert !MatchAt(s, pat, 0); }
      assert !Occurs(s[1..], pat) by {
        if i: nat :| i <= |s[1..]| && MatchAt(s[1..], pat, i) {
          assert s[i + 1..i + 1 + |pat|] == s[1..][i..i + |pat|];
          assert MatchAt(s, pat, i + 1);
        }
      }
      ReplaceAbsent(s[1..], pat, rep);
      assert s == [s[0]] + s[1..];
    }
  }

  /** A prefix `q` at none of whose positions the pattern can start (even
      running into `rest`) is copied through unchanged. */
  lemma {:induction false} ReplaceSkipsPrefix(q: string, rest: string, pat: string, rep: string)
    requires |pat| > 0
    requires forall i :: 0 <= i < |q| ==> !MatchAt(q + rest, pat, i)
    ensures Replace(q + rest, pat, rep) == q + Replace(rest, pat, rep)
    decreases |q|
  {
    if |q| == 0 {
      assert q + rest == rest;
    } else {
      var s := q + rest;
      assert !MatchAt(s, pat, 0);
      assert s[1..] == q[1..] + rest;
      forall i | 0 <= i < |q[1..]|
        ensures !MatchAt(q[1..] + rest, pat, i)
      {
        assert !MatchAt(s, pat, i + 1);
        if i + |pat| <= |s[1..]| {
          assert s[1..][i..i + |pat|] == s[i + 1..i + 1 + |pat|];
        }
      }
      ReplaceSkipsPrefix(q[1..], rest, pat, rep);
      if |s| >= |pat| {
        assert s[..|pat|] != pat;
      }
      assert [s[0]] + (q[1..] + Replace(rest, pat, rep)) == q + Replace(rest, pat, rep);
    }
  }

  /** A string that starts with the pattern has it replaced, then the rest
      is scanned. */
  lemma ReplaceLeading(rest: string, pat: string, rep: string)
    requires |pat| > 0
    ensures Replace(pat + rest, pat, rep) == rep + Replace(rest, pat, rep)
  {
    var s := pat + rest;
    assert s[..|pat|] == pat && s[|pat|..] == rest;
  }

  /** The characters `str.isspace()` accepts, and therefore the ones
      `str.strip()` removes. */
  predicate IsSpace(c: char) {
    var n := c as int;
    (0x09 <= n <= 0x0D) || (0x1C <= n <= 0x20) || n == 0x85 || n == 0xA0 ||
    n == 0x1680 || (0x2000 <= n <= 0x200A) || n == 0x2028 || n == 0x2029 ||
    n == 0x202F || n == 0x205F || n == 0x3000
  }

  predicate AllSpace(s: string) {
    forall i :: 0 <= i < |s| ==> IsSpace(s[i])
  }

  /** Every character of `s` in positions `lo` up to `hi` is whitespace. */
  predicate SpaceIn(s: string, lo: nat, hi: nat)
    requires lo <= hi <= |s|
  {
    forall m :: lo <= m < hi ==> IsSpace(s[m])
  }

  /** The scan `str.strip()` makes from the left: the first position at or
      after `i` that holds no whitespace, or the end. */
  function SkipSpaceForward(s: string, i: nat): (k: nat)
    requires i <= |s|
    ensures i <= k <= |s| && SpaceIn(s, i, k)
    ensures k < |s| ==> !IsSpace(s[k])
    decreases |s| - i
  {
    if i < |s| && IsSpace(s[i]) then SkipSpaceForward(s, i + 1) else i
  }

  /** The scan from the right, stopping at `lo`: the end of the last
      non-whitespace character before `j`, or `lo`. */
  function SkipSpaceBackward(s: string, lo: nat, j: nat): (k: nat)
    requires lo <= j <= |s|
    ensures lo <= k <= j && SpaceIn(s, k, j)
    ensures lo < k ==> !IsSpace(s[k - 1])
    decreases j - lo
  {
    if lo < j && IsSpace(s[j - 1]) then SkipSpaceBackward(s, lo, j - 1) else j
  }

  /** `s.strip()`: `s` with its leading and trailing whitespace removed. */
  function Strip(s: string): (r: string)
    ensures exists i, j :: 0 <= i <= j <= |s| && r == s[i..j] && SpaceIn(s, 0, i) && SpaceIn(s, j, |s|)
    ensures r == [] || (!IsSpace(r[0]) && !IsSpace(r[|r| - 1]))
  {
    var i := SkipSpaceForward(s, 0);
    var j := SkipSpaceBackward(s, i, |s|);
    assert j > i ==> s[i..j][0] == s[i] && s[i..j][j - i - 1] == s[j - 1];
    s[i..j]
  }

  /** `s.strip()` is empty exactly when `s` is all whitespace. */
  lemma StripEmptyIffAllSpace(s: string)
    ensures Strip(s) == [] <==> AllSpace(s)
  {
    var i := SkipSpaceForward(s, 0);
    var j := SkipSpaceBackward(s, i, |s|);
    assert Strip(s) == s[i..j];
    if i == j {
      assert i == |s|;
      assert SpaceIn(s, 0, |s|);
    }
  }

  /** Stripping twice is stripping once. */
  lemma StripIdempotent(s: string)
    ensures Strip(Strip(s)) == Strip(s)
  {
    var r := Strip(s);
    assert SkipSpaceForward(r, 0) == 0;
    assert SkipSpaceBackward(r, 0, |r|) == |r|;
    assert r[0..|r|] == r;
  }

  predicate IsDigit(c: char) {
    '0' as int <= c as int <= '9' as int
  }

  function DigitChar(d: nat): (c: char)
    requires d < 10
    ensures IsDigit(c) && c as int - '0' as int == d
  {
    ('0' as int + d) as char
  }

  /** `str(n)` for a non-negative int: decimal digits, no leading zero. */
  function DecimalString(n: nat): (r: string)
    ensures |r| >= 1
    ensures forall i :: 0 <= i < |r| ==> IsDigit(r[i])
    ensures r[0] == '0' ==> n == 0
    decreases n
  {
    if n < 10 then [DigitChar(n)] else DecimalString(n / 10) + [DigitChar(n % 10)]
  }

  /** `int(s)` for a string of decimal digits: the partner of `DecimalString`. */
  function ParseDecimal(s: string): nat
    requires forall i :: 0 <= i < |s| ==> IsDigit(s[i])
    decreases |s|
  {
    if |s| == 0 then 0
    else
      assert IsDigit(s[|s| - 1]);
      10 * ParseDecimal(s[..|s| - 1]) + (s[|s| - 1] as int - '0' as int)
  }

  /** `int(str(n)) == n`. */
  lemma {:induction false} ParseDecimalString(n: nat)
    ensures ParseDecimal(DecimalString(n)) == n
    decreases n
  {
    var r := DecimalString(n);
    if n < 10 {
    } else {
      ParseDecimalString(n / 10);
      assert r[..|r| - 1] == DecimalString(n / 10);
    }
  }

  /** `str` is injective on non-negative ints, so distinct refs print differently. */
  lemma DecimalStringInjective(m: nat, n: nat)
    ensures DecimalString(m) == DecimalString(n) <==> m == n
  {
    ParseDecimalString(m);
    ParseDecimalString(n);
  }

  /** Every character is ASCII (`s.encode('ascii')` succeeds). */
  predicate IsAscii(s: string) {
    forall i :: 0 <= i < |s| ==> s[i] as int < 128
  }
}
