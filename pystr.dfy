/** The Python string built-ins the binding code relies on: `str(n)` and
    `'%d' % n` on integers, `str.rjust`, `str.replace` and `os.path.join` on
    a POSIX system. Python's ordering `<` on strings is defined too; the
    binding code never compares strings, and it serves only to state how the
    text file names sort. */
module PyStr {

  predicate IsDigit(c: char)
  {
    '0' <= c <= '9'
  }

  predicate IsDigits(s: string)
  {
    forall k :: 0 <= k < |s| ==> IsDigit(s[k])
  }

  /** The character of decimal digit `d`. */
  function DigitChar(d: nat): (c: char)
    requires d < 10
    ensures IsDigit(c)
  {
    ('0' as int + d) as char
  }

  /** The value of digit character `c`; inverse of DigitChar. */
  function DigitValue(c: char): (d: nat)
    requires IsDigit(c)
    ensures d < 10 && DigitChar(d) == c
  {
    c as int - '0' as int
  }

  /** Decimal notation of a natural number, most significant digit first,
      without leading zeros. */
  function NatToString(n: nat): (s: string)
    ensures |s| > 0 && IsDigits(s)
    ensures |s| > 1 ==> s[0] != '0'
    decreases n
  {
    if n < 10 then [DigitChar(n)]
    else NatToString(n / 10) + [DigitChar(n % 10)]
  }

  /** Python's `str(n)` and `'%d' % n` for an integer. */
  function IntToString(n: int): (s: string)
    ensures |s| > 0
  {
    if n < 0 then "-" + NatToString(-n) else NatToString(n)
  }

  /** The value of a string of decimal digits. */
  function ParseNat(s: string): nat
    requires IsDigits(s)
    decreases |s|
  {
    if s == [] then 0 else ParseNat(s[..|s| - 1]) * 10 + DigitValue(s[|s| - 1])
  }

  /** Python's `int(s)` on what IntToString produces (0 for anything else). */
  function ParseInt(s: string): int
  {
    if |s| > 0 && s[0] == '-' && IsDigits(s[1..]) then -(ParseNat(s[1..]) as int)
    else if IsDigits(s) then ParseNat(s)
    else 0
  }

  lemma {:induction false} ParseNatToString(n: nat)
    ensures ParseNat(NatToString(n)) == n
    decreases n
  {
    if n >= 10 {
      ParseNatToString(n / 10);
      var s := NatToString(n);
      assert s[..|s| - 1] == NatToString(n / 10);
    }
  }

  /** Reading back the decimal notation of any integer gives that integer. */
  lemma ParseIntToString(n: int)
    ensures ParseInt(IntToString(n)) == n
  {
    if n < 0 {
      ParseNatToString(-n);
      assert IntToString(n)[1..] == NatToString(-n);
    } else {
      ParseNatToString(n);
    }
  }

  /** Distinct integers have distinct decimal notations. */
  lemma IntToStringInjective(a: int, b: int)
    ensures IntToString(a) == IntToString(b) ==> a == b
  {
    ParseIntToString(a);
    ParseIntToString(b);
  }

  /** `n` copies of `c`. */
  function Repeat(c: char, n: nat): string
  {
    seq(n, _ => c)
  }

  /** Python's `s.rjust(width, fill)`: `s` padded on the left with `fill`
      up to `width` characters; a longer `s` is returned unchanged. */
  function RJust(s: string, width: nat, fill: char): (r: string)
    ensures |r| == if |s| < width then width else |s|
    ensures r[|r| - |s|..] == s
    ensures forall k :: 0 <= k < |r| - |s| ==> r[k] == fill
  {
    if |s| < width then Repeat(fill, width - |s|) + s else s
  }

  /** Padding a string with one more character at its end to `width` is
      padding the string to `width - 1` and then adding that character. */
  lemma RJustSnoc(s: string, c: char, width: nat, fill: char)
    requires width >= 1
    ensures RJust(s + [c], width, fill) == RJust(s, width - 1, fill) + [c]
  {
    if |s| + 1 < width {
      assert Repeat(fill, width - |s| - 1) + (s + [c]) == (Repeat(fill, width - 1 - |s|) + s) + [c];
    }
  }

  /** The pattern `pat` occurs in `s` starting at position `i`. */
  predicate OccursAt(s: string, pat: string, i: nat)
  {
    i + |pat| <= |s| && s[i..i + |pat|] == pat
  }

  /** Python's `s.replace(pat, rep)` for a non-empty `pat`: scanning left to
      right, every occurrence that does not overlap an earlier replaced one
      is replaced by `rep`. */
  function Replace(s: string, pat: string, rep: string): string
    requires |pat| > 0
    decreases |s|
  {
    if |s| < |pat| then s
    else if s[..|pat|] == pat then rep + Replace(s[|pat|..], pat, rep)
    else [s[0]] + Replace(s[1..], pat, rep)
  }

  /** An occurrence in the tail of `s` is an occurrence in `s`, one place later. */
  lemma OccursAtTail(s: string, pat: string, i: nat)
    requires |s| > 0
    ensures OccursAt(s[1..], pat, i) <==> OccursAt(s, pat, i + 1)
  {
    if i + 1 + |pat| <= |s| {
      assert s[1..][i..i + |pat|] == s[i + 1..i + 1 + |pat|];
    }
  }

  /** A string without the pattern is left as it is. */
  lemma {:induction false} ReplaceAbsent(s: string, pat: string, rep: string)
    requires |pat| > 0
    requires forall i :: 0 <= i < |s| ==> !OccursAt(s, pat, i)
    ensures Replace(s, pat, rep) == s
    decreases |s|
  {
    if |s| >= |pat| {
      assert !OccursAt(s, pat, 0);
      forall i | 0 <= i < |s[1..]|
        ensures !OccursAt(s[1..], pat, i)
      {
        OccursAtTail(s, pat, i);
      }
      ReplaceAbsent(s[1..], pat, rep);
      assert s == [s[0]] + s[1..];
    }
  }

  /** The leftmost occurrence is replaced, the text before it is kept, and
      the scan resumes after it. */
  lemma {:induction false} ReplaceLeftmost(a: string, pat: string, b: string, rep: string)
    requires |pat| > 0
    requires forall i :: 0 <= i < |a| ==> !OccursAt(a + pat + b, pat, i)
    ensures Replace(a + pat + b, pat, rep) == a + rep + Replace(b, pat, rep)
    decreases |a|
  {
    if a == [] {
      ReplaceHere(pat, b, rep);
      assert a + pat + b == pat + b;
    } else {
      assert (a + pat + b)[1..] == a[1..] + pat + b;
      AbsentFromTail(a + pat + b, pat, |a|);
      ReplaceLeftmost(a[1..], pat, b, rep);
      ReplaceKeepsFirst(a, pat, b, rep);
    }
  }

  /** The step of `ReplaceLeftmost` for a non-empty `a`: its first
      character is kept in front of the replaced rest. */
  lemma ReplaceKeepsFirst(a: string, pat: string, b: string, rep: string)
    requires |pat| > 0 && a != []
    requires !OccursAt(a + pat + b, pat, 0)
    requires Replace(a[1..] + pat + b, pat, rep) == a[1..] + rep + Replace(b, pat, rep)
    ensures Replace(a + pat + b, pat, rep) == a + rep + Replace(b, pat, rep)
  {
    var s := a + pat + b;
    assert s[1..] == a[1..] + pat + b;
    ReplaceSkip(s, pat, rep);
    assert a == [a[0]] + a[1..];
  }

  /** No occurrence among the first `n` positions of `s` means none among
      the first `n - 1` positions of its tail. */
  lemma AbsentFromTail(s: string, pat: string, n: nat)
    requires |s| > 0 && n > 0
    requires forall i :: 0 <= i < n ==> !OccursAt(s, pat, i)
    ensures forall i :: 0 <= i < n - 1 ==> !OccursAt(s[1..], pat, i)
  {
    forall i | 0 <= i < n - 1
      ensures !OccursAt(s[1..], pat, i)
    {
      OccursAtTail(s, pat, i);
    }
  }

  /** An occurrence at the start is replaced and the scan goes on after it. */
  lemma ReplaceHere(pat: string, b: string, rep: string)
    requires |pat| > 0
    ensures Replace(pat + b, pat, rep) == rep + Replace(b, pat, rep)
  {
    var s := pat + b;
    assert s[..|pat|] == pat && s[|pat|..] == b;
  }

  /** Without an occurrence at the start, the first character is kept. */
  lemma ReplaceSkip(s: string, pat: string, rep: string)
    requires |pat| > 0 && |s| > 0
    requires !OccursAt(s, pat, 0)
    ensures Replace(s, pat, rep) == [s[0]] + Replace(s[1..], pat, rep)
  {
    if |s| < |pat| {
      assert Replace(s[1..], pat, rep) == s[1..];
      assert s == [s[0]] + s[1..];
    } else {
      assert s[..|pat|] != pat;
    }
  }

  /** Python's `s < t` on strings: lexicographic by code point, a proper
      prefix sorting first. */
  predicate Less(s: string, t: string)
    decreases |s|
  {
    if t == [] then false
    else if s == [] then true
    else s[0] < t[0] || (s[0] == t[0] && Less(s[1..], t[1..]))
  }

  lemma {:induction false} LessIrreflexive(s: string)
    ensures !Less(s, s)
    decreases |s|
  {
    if s != [] {
      LessIrreflexive(s[1..]);
    }
  }

  /** For equal-length strings, a common suffix does not change the order. */
  lemma {:induction false} LessCommonSuffix(s: string, t: string, u: string)
    requires |s| == |t|
    ensures Less(s + u, t + u) <==> Less(s, t)
    decreases |s|
  {
    if s == [] {
      assert s + u == u && t + u == u;
      LessIrreflexive(u);
    } else {
      LessCommonSuffix(s[1..], t[1..], u);
      assert (s + u)[1..] == s[1..] + u;
      assert (t + u)[1..] == t[1..] + u;
    }
  }

  /** For equal-length strings, the order after appending one character to
      each is decided by the prefixes first and the last characters second. */
  lemma {:induction false} LessSnoc(s: string, t: string, x: char, y: char)
    requires |s| == |t|
    ensures Less(s + [x], t + [y]) <==> Less(s, t) || (s == t && x < y)
    decreases |s|
  {
    if s == [] {
      assert s + [x] == [x] && t + [y] == [y];
    } else {
      LessSnoc(s[1..], t[1..], x, y);
      assert (s + [x])[1..] == s[1..] + [x];
      assert (t + [y])[1..] == t[1..] + [y];
      if s[0] == t[0] && s[1..] == t[1..] {
        assert s == [s[0]] + s[1..] && t == [t[0]] + t[1..];
      }
    }
  }

  /** Python's `posixpath.join(a, b)`: an absolute `b` replaces `a`;
      otherwise `b` is appended, with a `/` in between unless `a` is empty
      or already ends with one. */
  function PathJoin(a: string, b: string): string
  {
    if |b| > 0 && b[0] == '/' then b
    else if a == [] || a[|a| - 1] == '/' then a + b
    else a + "/" + b
  }

  /** Joining a relative name under a directory keeps the directory as a
      prefix and the name as a suffix, with at most one `/` between. */
  lemma PathJoinUnder(a: string, b: string)
    requires |b| == 0 || b[0] != '/'
    ensures var r := PathJoin(a, b);
      && |a| + |b| <= |r| <= |a| + |b| + 1
      && r[..|a|] == a
      && r[|r| - |b|..] == b
      && (|r| == |a| + |b| + 1 ==> r[|a|] == '/')
  {
  }
}
