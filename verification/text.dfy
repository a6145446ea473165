/** Python `str` operations used by the tag reader and the catalog search. */
module Text {

  /** `str.upper()` restricted to ASCII letters: every string it is applied to here is ASCII. */
  function UpperChar(c: char): char {
    if 'a' <= c <= 'z' then (c as int - 32) as char else c
  }

  function Upper(s: string): (r: string)
    ensures |r| == |s|
    ensures forall i :: 0 <= i < |s| ==> r[i] == UpperChar(s[i])
  {
    seq(|s|, i requires 0 <= i < |s| => UpperChar(s[i]))
  }

  lemma UpperAppend(a: string, b: string)
    ensures Upper(a + b) == Upper(a) + Upper(b)
  {
  }

  /** `"".join(parts)`. */
  function Concat(parts: seq<string>): string {
    if |parts| == 0 then "" else parts[0] + Concat(parts[1..])
  }

  /** `sep.join(parts)`. */
  function Join(parts: seq<string>, sep: string): string {
    if |parts| == 0 then ""
    else if |parts| == 1 then parts[0]
    else parts[0] + sep + Join(parts[1..], sep)
  }

  /**
   * `s.replace(pat, rep)` for a non-empty pattern: occurrences are found left to right and
   * replaced without overlap.
   */
  function ReplaceAll(s: string, pat: string, rep: string): string
    requires |pat| > 0
    decreases |s|
  {
    if |s| == 0 then ""
    else if pat <= s then rep + ReplaceAll(s[|pat|..], pat, rep)
    else [s[0]] + ReplaceAll(s[1..], pat, rep)
  }

  /** Replacing with something no longer than the pattern never makes a string longer. */
  lemma {:induction false} ReplaceAllShrinks(s: string, pat: string, rep: string)
    requires |pat| > 0 && |rep| <= |pat|
    ensures |ReplaceAll(s, pat, rep)| <= |s|
    decreases |s|
  {
    if |s| == 0 {
    } else if pat <= s {
      ReplaceAllShrinks(s[|pat|..], pat, rep);
    } else {
      ReplaceAllShrinks(s[1..], pat, rep);
    }
  }

  /** Every character of the output comes from the input or from the replacement. */
  lemma {:induction false} ReplaceAllChars(s: string, pat: string, rep: string, c: char)
    requires |pat| > 0
    requires c in ReplaceAll(s, pat, rep)
    ensures c in s || c in rep
    decreases |s|
  {
    if |s| == 0 {
    } else if pat <= s {
      if c !in rep {
        ReplaceAllChars(s[|pat|..], pat, rep, c);
      }
    } else {
      if c != s[0] {
        ReplaceAllChars(s[1..], pat, rep, c);
      }
    }
  }

  /** Replacing a one-character pattern by text without that character removes it entirely. */
  lemma {:induction false} ReplaceAllRemovesChar(s: string, c: char, rep: string)
    requires c !in rep
    ensures c !in ReplaceAll(s, [c], rep)
    decreases |s|
  {
    if |s| == 0 {
    } else if [c] <= s {
      ReplaceAllRemovesChar(s[1..], c, rep);
    } else {
      ReplaceAllRemovesChar(s[1..], c, rep);
    }
  }

  /** When one character of the pattern never occurs in `s`, replacement changes nothing. */
  lemma {:induction false} ReplaceAllAbsent(s: string, pat: string, rep: string, k: nat)
    requires k < |pat| && pat[k] !in s
    ensures ReplaceAll(s, pat, rep) == s
    decreases |s|
  {
    if |s| == 0 {
    } else {
      ReplaceAllAbsent(s[1..], pat, rep, k);
    }
  }

  /**
   * `s.split(sep)` for a non-empty separator, scanning left to right; `cur` is the part being
   * accumulated so far.
   */
  function SplitFrom(s: string, sep: string, cur: string): (r: seq<string>)
    requires |sep| > 0
    ensures |r| > 0
    decreases |s|
  {
    if |s| == 0 then [cur]
    else if sep <= s then [cur] + SplitFrom(s[|sep|..], sep, "")
    else SplitFrom(s[1..], sep, cur + [s[0]])
  }

  function Split(s: string, sep: string): (r: seq<string>)
    requires |sep| > 0
  {
    SplitFrom(s, sep, "")
  }

  /** Joining the parts of a split with the same separator gives back the split string. */
  lemma {:induction false} JoinSplitFrom(s: string, sep: string, cur: string)
    requires |sep| > 0
    ensures Join(SplitFrom(s, sep, cur), sep) == cur + s
    decreases |s|
  {
    if |s| == 0 {
    } else if sep <= s {
      var rest := SplitFrom(s[|sep|..], sep, "");
      JoinSplitFrom(s[|sep|..], sep, "");
      assert [cur] + rest == SplitFrom(s, sep, cur);
      assert Join([cur] + rest, sep) == cur + sep + Join(rest, sep);
      assert s == sep + s[|sep|..];
    } else {
      JoinSplitFrom(s[1..], sep, cur + [s[0]]);
      assert s == [s[0]] + s[1..];
    }
  }

  lemma JoinSplit(s: string, sep: string)
    requires |sep| > 0
    ensures Join(Split(s, sep), sep) == s
  {
    JoinSplitFrom(s, sep, "");
  }

  // ---------------------------------------------------------------------------------------
  // Decimal numerals

  predicate IsDigit(c: char) {
    '0' <= c <= '9'
  }

  function Digit(c: char): int
    requires IsDigit(c)
  {
    c as int - '0' as int
  }

  function DigitChar(d: int): (c: char)
    requires 0 <= d < 10
    ensures IsDigit(c) && Digit(c) == d
  {
    ('0' as int + d) as char
  }

  /** The value of a string of decimal digits, most significant first. */
  function DecimalValue(s: string): int
    requires forall i :: 0 <= i < |s| ==> IsDigit(s[i])
  {
    if |s| == 0 then 0 else 10 * DecimalValue(s[..|s| - 1]) + Digit(s[|s| - 1])
  }

  /** The digits of `n` without leading zeros: the magnitude part of `str(n)`. */
  function NatDigits(n: nat): (r: string)
    ensures |r| > 0
    ensures forall i :: 0 <= i < |r| ==> IsDigit(r[i])
  {
    if n < 10 then [DigitChar(n)] else NatDigits(n / 10) + [DigitChar(n % 10)]
  }

  /** `str(n)` for an integer. */
  function IntToString(n: int): string {
    if n < 0 then "-" + NatDigits(-n) else NatDigits(n)
  }

  /** The digits read back as the number they were made from, with no leading zero. */
  lemma {:induction false} NatDigitsValue(n: nat)
    ensures DecimalValue(NatDigits(n)) == n
    ensures NatDigits(n)[0] == '0' ==> n == 0
  {
    if n >= 10 {
      NatDigitsValue(n / 10);
      var r := NatDigits(n);
      assert r[..|r| - 1] == NatDigits(n / 10);
    }
  }

  /** `str(n)` is a minus sign exactly for negative numbers, followed by digits worth `|n|`. */
  lemma IntToStringValue(n: int)
    ensures var s := IntToString(n);
      && (|s| > 0 && s[0] == '-' <==> n < 0)
      && var digits := if n < 0 then s[1..] else s;
      && |digits| > 0
      && (forall i :: 0 <= i < |digits| ==> IsDigit(digits[i]))
      && DecimalValue(digits) == (if n < 0 then -n else n)
  {
    if n < 0 {
      NatDigitsValue(-n);
      assert IntToString(n)[1..] == NatDigits(-n);
    } else {
      NatDigitsValue(n);
    }
  }
}
