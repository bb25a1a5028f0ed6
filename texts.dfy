/** The pure string work of the text export: the file name of a chapter
    and the normalisation of its extracted text. */
module Texts {
  import opened PyStr

  /** `'%s.txt' % str(chap['id']).rjust(5, '0')`. */
  function TextFileName(id: int): string
  {
    RJust(IntToString(id), 5, '0') + ".txt"
  }

  /** A file name is the id, left-padded with '0' to at least five
      characters and never truncated, followed by `.txt`. */
  lemma TextFileNameShape(id: int)
    ensures var name := TextFileName(id); var digits := IntToString(id);
      && |name| == (if |digits| < 5 then 5 else |digits|) + 4
      && name[|name| - 4..] == ".txt"
      && name[|name| - 4 - |digits|..|name| - 4] == digits
      && forall k :: 0 <= k < |name| - 4 - |digits| ==> name[k] == '0'
  {
    var padded := RJust(IntToString(id), 5, '0');
    assert TextFileName(id)[..|padded|] == padded;
  }

  function Pow10(k: nat): (p: nat)
    ensures p >= 1
  {
    if k == 0 then 1 else 10 * Pow10(k - 1)
  }

  /** The last `k` decimal digits of `n`, as exactly `k` characters. */
  function FixedDigits(n: nat, k: nat): (s: string)
    ensures |s| == k
  {
    if k == 0 then [] else FixedDigits(n / 10, k - 1) + [DigitChar(n % 10)]
  }

  lemma {:induction false} FixedDigitsOfZero(k: nat)
    ensures FixedDigits(0, k) == Repeat('0', k)
  {
    if k > 0 {
      FixedDigitsOfZero(k - 1);
      assert Repeat('0', k - 1) + ['0'] == Repeat('0', k);
    }
  }

  /** A number below 10^k padded to k characters is its k-digit notation. */
  lemma {:induction false} PaddedIsFixedDigits(n: nat, k: nat)
    requires 1 <= k && n < Pow10(k)
    ensures RJust(NatToString(n), k, '0') == FixedDigits(n, k)
    decreases k
  {
    if n < 10 {
      FixedDigitsOfZero(k - 1);
      assert n / 10 == 0 && n % 10 == n;
      assert RJust([DigitChar(n)], k, '0') == Repeat('0', k - 1) + [DigitChar(n)];
    } else {
      assert k >= 2;
      assert n / 10 < Pow10(k - 1);
      PaddedIsFixedDigits(n / 10, k - 1);
      RJustSnoc(NatToString(n / 10), DigitChar(n % 10), k, '0');
    }
  }

  /** Below 10^k, the k-digit notations are distinct for distinct numbers
      and sort as strings in the numeric order of the numbers. */
  lemma {:induction false} FixedDigitsOrder(a: nat, b: nat, k: nat)
    requires a < Pow10(k) && b < Pow10(k)
    ensures a == b <==> FixedDigits(a, k) == FixedDigits(b, k)
    ensures a < b <==> Less(FixedDigits(a, k), FixedDigits(b, k))
    decreases k
  {
    if k == 0 {
      LessIrreflexive([]);
    } else {
      assert a / 10 < Pow10(k - 1) && b / 10 < Pow10(k - 1);
      FixedDigitsOrder(a / 10, b / 10, k - 1);
      var s, t := FixedDigits(a / 10, k - 1), FixedDigits(b / 10, k - 1);
      var x, y := DigitChar(a % 10), DigitChar(b % 10);
      LessSnoc(s, t, x, y);
      assert DigitValue(x) == a % 10 && DigitValue(y) == b % 10;
      assert x < y <==> a % 10 < b % 10;
      if s + [x] == t + [y] {
        assert s == (s + [x])[..k - 1] && t == (t + [y])[..k - 1];
        assert x == (s + [x])[k - 1] && y == (t + [y])[k - 1];
      }
      assert a == 10 * (a / 10) + a % 10 && b == 10 * (b / 10) + b % 10;
    }
  }

  /** For ids 0..99999, file names sort as strings in the numeric order of
      the ids, and distinct ids give distinct names. */
  lemma TextFileNameOrder(a: int, b: int)
    requires 0 <= a <= 99999 && 0 <= b <= 99999
    ensures a == b <==> TextFileName(a) == TextFileName(b)
    ensures a < b <==> Less(TextFileName(a), TextFileName(b))
  {
    assert Pow10(5) == 100000;
    PaddedIsFixedDigits(a, 5);
    PaddedIsFixedDigits(b, 5);
    FixedDigitsOrder(a, b, 5);
    var s, t := FixedDigits(a, 5), FixedDigits(b, 5);
    LessCommonSuffix(s, t, ".txt");
    if TextFileName(a) == TextFileName(b) {
      assert s == TextFileName(a)[..5] && t == TextFileName(b)[..5];
    }
  }

  /** The paragraph boundary rewrite: `body.replace('</p><p', '</p>\n<p')`. */
  function SplitParagraphs(body: string): string
  {
    Replace(body, "</p><p", "</p>\n<p")
  }

  predicate IsLineBreak(c: char)
  {
    c == '\r' || c == '\n'
  }

  predicate NoLineBreak(s: string)
  {
    forall k :: 0 <= k < |s| ==> !IsLineBreak(s[k])
  }

  predicate AllLineBreaks(s: string)
  {
    forall k :: 0 <= k < |s| ==> IsLineBreak(s[k])
  }

  /** What every run of line breaks becomes. */
  const BlankLine: string := "\r\n\r\n"

  /** `s` without its leading run of line breaks. */
  function SkipLineBreaks(s: string): (r: string)
    ensures |r| <= |s|
    decreases |s|
  {
    if s != [] && IsLineBreak(s[0]) then SkipLineBreaks(s[1..]) else s
  }

  /** What is skipped is a run of line breaks, what is left is the rest of
      `s` and does not start with a line break. */
  lemma {:induction false} SkipLineBreaksShape(s: string)
    ensures var r := SkipLineBreaks(s);
      && r == s[|s| - |r|..]
      && AllLineBreaks(s[..|s| - |r|])
      && (r == [] || !IsLineBreak(r[0]))
    decreases |s|
  {
    if s != [] && IsLineBreak(s[0]) {
      SkipLineBreaksShape(s[1..]);
      var r := SkipLineBreaks(s);
      assert s[1..][..|s| - 1 - |r|] == s[1..|s| - |r|];
    }
  }

  /** `re.sub('[\r\n]+', '\r\n\r\n', text)`: every maximal run of CR and LF
      characters becomes exactly one CR LF CR LF. */
  function CollapseLineBreaks(s: string): string
    decreases |s|
  {
    if s == [] then []
    else if IsLineBreak(s[0]) then BlankLine + CollapseLineBreaks(SkipLineBreaks(s[1..]))
    else [s[0]] + CollapseLineBreaks(s[1..])
  }

  /** Text without line breaks is left as it is. */
  lemma {:induction false} CollapseKeepsPlainText(s: string)
    requires NoLineBreak(s)
    ensures CollapseLineBreaks(s) == s
    decreases |s|
  {
    if s != [] {
      CollapseKeepsPlainText(s[1..]);
      assert s == [s[0]] + s[1..];
    }
  }

  /** A non-empty run of line breaks, whatever its length and mix of CR
      and LF, becomes exactly one CR LF CR LF. */
  lemma CollapseRun(s: string)
    requires |s| > 0 && AllLineBreaks(s)
    ensures CollapseLineBreaks(s) == BlankLine
  {
    SkipRun(s[1..]);
  }

  /** Nothing is left of a run of line breaks. */
  lemma {:induction false} SkipRun(s: string)
    requires AllLineBreaks(s)
    ensures SkipLineBreaks(s) == []
    decreases |s|
  {
    if s != [] {
      SkipRun(s[1..]);
    }
  }

  /** Dropping a line-break run in front of a non-line-break character
      leaves that character and what follows it. */
  lemma {:induction false} SkipLineBreaksBefore(a: string, x: char, b: string)
    requires AllLineBreaks(a) && !IsLineBreak(x)
    ensures SkipLineBreaks(a + [x] + b) == [x] + b
    decreases |a|
  {
    if a != [] {
      assert (a + [x] + b)[1..] == a[1..] + [x] + b;
      SkipLineBreaksBefore(a[1..], x, b);
    } else {
      assert a + [x] + b == [x] + b;
    }
  }

  lemma CollapseAtLineBreak(s: string)
    requires s != [] && IsLineBreak(s[0])
    ensures CollapseLineBreaks(s) == BlankLine + CollapseLineBreaks(SkipLineBreaks(s))
  {
    assert SkipLineBreaks(s) == SkipLineBreaks(s[1..]);
  }

  lemma CollapseAtOther(c: char, s: string)
    requires !IsLineBreak(c)
    ensures CollapseLineBreaks([c] + s) == [c] + CollapseLineBreaks(s)
  {
    assert ([c] + s)[1..] == s;
  }

  /** A character that is not a line break separates the text into two
      parts that are normalised independently: no run extends across it. */
  lemma {:induction false} CollapseSplit(a: string, x: char, b: string)
    requires !IsLineBreak(x)
    ensures CollapseLineBreaks(a + [x] + b) == CollapseLineBreaks(a) + [x] + CollapseLineBreaks(b)
    decreases |a|, 1
  {
    if a == [] {
      assert a + [x] + b == [x] + b;
      CollapseAtOther(x, b);
    } else if IsLineBreak(a[0]) {
      CollapseSplitAtRun(a, x, b);
    } else {
      CollapseSplitAtOther(a, x, b);
    }
  }

  lemma {:induction false} CollapseSplitAtRun(a: string, x: char, b: string)
    requires !IsLineBreak(x) && a != [] && IsLineBreak(a[0])
    ensures CollapseLineBreaks(a + [x] + b) == CollapseLineBreaks(a) + [x] + CollapseLineBreaks(b)
    decreases |a|, 0
  {
    var rest := SkipLineBreaks(a);
    assert rest == SkipLineBreaks(a[1..]);
    if rest == [] {
      RunSkippedEntirely(a);
      CollapseSplitAfterRun(a, x, b);
    } else {
      CollapseSplit(rest, x, b);
      CollapseSplitBeforeRest(a, x, b);
    }
  }

  /** A string that `SkipLineBreaks` drops entirely is a run of line breaks. */
  lemma RunSkippedEntirely(a: string)
    requires SkipLineBreaks(a) == []
    ensures AllLineBreaks(a)
  {
    SkipLineBreaksShape(a);
    assert a[..|a|] == a;
  }

  /** A leading run of line breaks followed by more text: once the text
      after the run is known to split at `x`, so does the whole. */
  lemma CollapseSplitBeforeRest(a: string, x: char, b: string)
    requires !IsLineBreak(x) && a != [] && IsLineBreak(a[0]) && SkipLineBreaks(a) != []
    requires var rest := SkipLineBreaks(a);
      CollapseLineBreaks(rest + [x] + b) == CollapseLineBreaks(rest) + [x] + CollapseLineBreaks(b)
    ensures CollapseLineBreaks(a + [x] + b) == CollapseLineBreaks(a) + [x] + CollapseLineBreaks(b)
  {
    var rest := SkipLineBreaks(a);
    CollapseRunPrefix(a, x, b);
    CollapseAtLineBreak(a);
    BlankLineThenSplit(CollapseLineBreaks(a + [x] + b), CollapseLineBreaks(rest + [x] + b),
                       CollapseLineBreaks(a), CollapseLineBreaks(rest), x, CollapseLineBreaks(b));
  }

  /** Putting a CR LF CR LF in front of both sides of a split. */
  lemma BlankLineThenSplit(whole: string, wholeRest: string, head: string, headRest: string, x: char, tail: string)
    requires whole == BlankLine + wholeRest && head == BlankLine + headRest
    requires wholeRest == headRest + [x] + tail
    ensures whole == head + [x] + tail
  {
  }

  /** A leading run of line breaks that does not make up all of `a` still
      becomes one CR LF CR LF when more text follows `a`. */
  lemma CollapseRunPrefix(a: string, x: char, b: string)
    requires a != [] && IsLineBreak(a[0]) && SkipLineBreaks(a) != []
    ensures CollapseLineBreaks(a + [x] + b) == BlankLine + CollapseLineBreaks(SkipLineBreaks(a) + [x] + b)
  {
    var t := [x] + b;
    assert a + [x] + b == a + t;
    assert SkipLineBreaks(a) + t == SkipLineBreaks(a) + [x] + b;
    assert (a + t)[0] == a[0];
    CollapseAtLineBreak(a + t);
    SkipLineBreaksAppend(a, t);
  }

  /** A run of line breaks followed by another character. */
  lemma CollapseSplitAfterRun(a: string, x: char, b: string)
    requires !IsLineBreak(x) && a != [] && AllLineBreaks(a)
    ensures CollapseLineBreaks(a + [x] + b) == CollapseLineBreaks(a) + [x] + CollapseLineBreaks(b)
  {
    var xb := [x] + b;
    var s := a + xb;
    assert a + [x] + b == s;
    assert s[0] == a[0];
    SkipLineBreaksBefore(a, x, b);
    CollapseRun(a);
    calc {
      CollapseLineBreaks(s);
      { CollapseAtLineBreak(s); }
      BlankLine + CollapseLineBreaks(xb);
      { CollapseAtOther(x, b); }
      BlankLine + ([x] + CollapseLineBreaks(b));
    }
  }

  lemma {:induction false} CollapseSplitAtOther(a: string, x: char, b: string)
    requires !IsLineBreak(x) && a != [] && !IsLineBreak(a[0])
    ensures CollapseLineBreaks(a + [x] + b) == CollapseLineBreaks(a) + [x] + CollapseLineBreaks(b)
    decreases |a|, 0
  {
    var s := a + [x] + b;
    var cb := CollapseLineBreaks(b);
    var a' := a[1..];
    assert s == [a[0]] + (a' + [x] + b);
    CollapseAtOther(a[0], a' + [x] + b);
    CollapseSplit(a', x, b);
    assert a == [a[0]] + a';
    CollapseAtOther(a[0], a');
    var ca' := CollapseLineBreaks(a');
    assert CollapseLineBreaks(s) == [a[0]] + (ca' + [x] + cb);
    assert CollapseLineBreaks(a) == [a[0]] + ca';
  }

  /** When a string does not consist only of line breaks, its leading run
      is not affected by what follows it. */
  lemma {:induction false} SkipLineBreaksAppend(a: string, b: string)
    requires SkipLineBreaks(a) != []
    ensures SkipLineBreaks(a + b) == SkipLineBreaks(a) + b
    decreases |a|
  {
    if a != [] && IsLineBreak(a[0]) {
      assert (a + b)[1..] == a[1..] + b;
      SkipLineBreaksAppend(a[1..], b);
    }
  }

  /** One CR LF CR LF in front of text that does not start with a line
      break is kept as it is. */
  lemma BlankLineBefore(t: string)
    requires t == [] || !IsLineBreak(t[0])
    ensures CollapseLineBreaks(BlankLine + t) == BlankLine + CollapseLineBreaks(t)
  {
    CollapseRun(BlankLine);
    if t != [] {
      assert t == [t[0]] + t[1..];
      CollapseAtOther(t[0], t[1..]);
      assert BlankLine + t == BlankLine + [t[0]] + t[1..];
      CollapseSplit(BlankLine, t[0], t[1..]);
    } else {
      assert BlankLine + t == BlankLine;
    }
  }

  /** Normalising twice is normalising once: every run in normalised text
      is already one CR LF CR LF. */
  lemma {:induction false} CollapseIdempotent(s: string)
    ensures CollapseLineBreaks(CollapseLineBreaks(s)) == CollapseLineBreaks(s)
    decreases |s|
  {
    if s != [] {
      if IsLineBreak(s[0]) {
        var rest := SkipLineBreaks(s);
        SkipLineBreaksShape(s);
        var tail := CollapseLineBreaks(rest);
        CollapseAtLineBreak(s);
        CollapseIdempotent(rest);
        if rest != [] {
          assert rest == [rest[0]] + rest[1..];
          CollapseAtOther(rest[0], rest[1..]);
        }
        BlankLineBefore(tail);
      } else {
        var tail := CollapseLineBreaks(s[1..]);
        assert s == [s[0]] + s[1..];
        CollapseAtOther(s[0], s[1..]);
        CollapseIdempotent(s[1..]);
        CollapseAtOther(s[0], tail);
      }
    }
  }

  /** The characters other than CR and LF survive, in order, and nothing
      else is added but line breaks. */
  function WithoutLineBreaks(s: string): (r: string)
    ensures NoLineBreak(r)
    decreases |s|
  {
    if s == [] then []
    else (if IsLineBreak(s[0]) then [] else [s[0]]) + WithoutLineBreaks(s[1..])
  }

  lemma {:induction false} WithoutLineBreaksAppend(a: string, b: string)
    ensures WithoutLineBreaks(a + b) == WithoutLineBreaks(a) + WithoutLineBreaks(b)
    decreases |a|
  {
    if a != [] {
      assert (a + b)[1..] == a[1..] + b;
      WithoutLineBreaksAppend(a[1..], b);
    } else {
      assert a + b == b;
    }
  }

  lemma {:induction false} WithoutLineBreaksOfRun(s: string)
    requires AllLineBreaks(s)
    ensures WithoutLineBreaks(s) == []
    decreases |s|
  {
    if s != [] {
      WithoutLineBreaksOfRun(s[1..]);
    }
  }

  lemma {:induction false} CollapseKeepsOtherCharacters(s: string)
    ensures WithoutLineBreaks(CollapseLineBreaks(s)) == WithoutLineBreaks(s)
    decreases |s|
  {
    if s != [] {
      if IsLineBreak(s[0]) {
        var rest := SkipLineBreaks(s);
        SkipLineBreaksShape(s);
        CollapseAtLineBreak(s);
        CollapseKeepsOtherCharacters(rest);
        WithoutLineBreaksAppend(BlankLine, CollapseLineBreaks(rest));
        WithoutLineBreaksOfRun(BlankLine);
        var run := s[..|s| - |rest|];
        assert s == run + rest;
        WithoutLineBreaksAppend(run, rest);
        WithoutLineBreaksOfRun(run);
      } else {
        CollapseKeepsOtherCharacters(s[1..]);
        WithoutLineBreaksAppend([s[0]], CollapseLineBreaks(s[1..]));
        assert ([s[0]] + CollapseLineBreaks(s[1..]))[1..] == CollapseLineBreaks(s[1..]);
      }
    }
  }

  /** What a text file holds for a chapter body, given the markup
      stripper `strip` (the text of BeautifulSoup's `stripped_strings`
      joined with two LFs). */
  function TextContent(strip: string -> string, body: string): string
  {
    CollapseLineBreaks(strip(SplitParagraphs(body)))
  }

  /** The written text contains no line-break runs other than CR LF CR LF. */
  lemma TextContentNormalised(strip: string -> string, body: string)
    ensures CollapseLineBreaks(TextContent(strip, body)) == TextContent(strip, body)
  {
    CollapseIdempotent(strip(SplitParagraphs(body)));
  }

  /** File names of a short and a negative id: short ones are padded, and
      a minus sign counts as a character. */
  lemma TextFileNameExamples()
    ensures TextFileName(7) == "00007.txt"
    ensures TextFileName(-3) == "000-3.txt"
  {
    assert Repeat('0', 4) == "0000";
    assert Repeat('0', 3) == "000";
    assert NatToString(7) == "7";
    assert NatToString(3) == "3";
    assert IntToString(-3) == "-3";
  }

  /** An id of more than five digits is kept whole. */
  lemma TextFileNameLongId()
    ensures TextFileName(123456) == "123456.txt"
  {
    assert NatToString(12) == NatToString(1) + ['2'];
    assert NatToString(123) == "12" + ['3'];
    assert NatToString(1234) == "123" + ['4'];
    assert NatToString(12345) == "1234" + ['5'];
    assert NatToString(123456) == "12345" + ['6'];
  }

  /** Past five digits the names stop sorting numerically: the name of
      100000 sorts before the name of 99999. */
  lemma TextFileNameOrderPastFiveDigits()
    ensures 99999 < 100000 && Less(TextFileName(100000), TextFileName(99999))
  {
    var a, b := TextFileName(100000), TextFileName(99999);
    assert a[0] == '1' by { TextFileNameSixDigits(); }
    assert b[0] == '9' by { TextFileNameFiveNines(); }
    assert |a| > 0 && |b| > 0;
  }

  lemma TextFileNameSixDigits()
    ensures TextFileName(100000) == "100000.txt"
  {
    assert NatToString(10) == NatToString(1) + ['0'];
    assert NatToString(100) == "10" + ['0'];
    assert NatToString(1000) == "100" + ['0'];
    assert NatToString(10000) == "1000" + ['0'];
    assert NatToString(100000) == "10000" + ['0'];
  }

  lemma TextFileNameFiveNines()
    ensures TextFileName(99999) == "99999.txt"
  {
    assert NatToString(99) == NatToString(9) + ['9'];
    assert NatToString(999) == "99" + ['9'];
    assert NatToString(9999) == "999" + ['9'];
    assert NatToString(99999) == "9999" + ['9'];
    assert Repeat('0', 0) == [];
  }

  /** A mixed run of breaks becomes one blank line, and so does a
      trailing one. */
  lemma CollapseExample()
    ensures CollapseLineBreaks("a\n\r\nb\n") == "a\r\n\r\nb\r\n\r\n"
  {
    var run, tail := "\n\r\n", "\n";
    var input := ['a'] + (run + ['b'] + tail);
    assert "a\n\r\nb\n" == input;
    calc {
      CollapseLineBreaks(input);
      { CollapseAtOther('a', run + ['b'] + tail); }
      ['a'] + CollapseLineBreaks(run + ['b'] + tail);
      { CollapseSplit(run, 'b', tail); }
      ['a'] + (CollapseLineBreaks(run) + ['b'] + CollapseLineBreaks(tail));
      { CollapseRun(run); CollapseRun(tail); }
      ['a'] + (BlankLine + ['b'] + BlankLine);
    }
    assert ['a'] + (BlankLine + ['b'] + BlankLine) == "a\r\n\r\nb\r\n\r\n";
  }
}
