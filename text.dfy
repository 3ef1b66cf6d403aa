/** Character classes and string operations of the Python runtime that the
    manuscript pipeline relies on: `str.strip`, ASCII case folding, substring
    tests, `' '.join`, `str(int)`, `int(str)`, `rstrip` of a character set and
    `str.replace(pattern, '')`. */
module Text {
  import opened Prelude

  /** Python's `str.isspace()`, which is also what `\s` matches in a `str`
      regular expression: the ASCII controls 0x09-0x0D and 0x1C-0x1F, the space,
      NEL, NBSP and the Unicode space separators and line/paragraph separators. */
  predicate IsSpace(c: char) {
    ('\t' <= c <= '\r') || ('\U{1C}' <= c <= '\U{1F}') || c == ' ' ||
    c == '\U{85}' || c == '\U{A0}' || c == '\U{1680}' ||
    ('\U{2000}' <= c <= '\U{200A}') || c == '\U{2028}' || c == '\U{2029}' ||
    c == '\U{202F}' || c == '\U{205F}' || c == '\U{3000}'
  }

  /** `c` is one of the ten code points from `zero` on. */
  predicate InBlock(c: char, zero: int) {
    zero <= c as int < zero + 10
  }

  /** The number of blocks of decimal digits in Unicode 15.0 (the Unicode
      version of Python 3.12): general category Nd is exactly 68 blocks of
      ten code points, each running from its zero to its nine. */
  const BlockCount := 68

  /** The code point of the zero of the `i`-th block, in increasing order. */
  function BlockZero(i: nat): (z: int)
    requires i < BlockCount
    ensures z >= 0x30
  {
    if i == 0 then 0x30
    else if i == 1 then 0x660
    else if i == 2 then 0x6F0
    else if i == 3 then 0x7C0
    else if i == 4 then 0x966
    else if i == 5 then 0x9E6
    else if i == 6 then 0xA66
    else if i == 7 then 0xAE6
    else if i == 8 then 0xB66
    else if i == 9 then 0xBE6
    else if i == 10 then 0xC66
    else if i == 11 then 0xCE6
    else if i == 12 then 0xD66
    else if i == 13 then 0xDE6
    else if i == 14 then 0xE50
    else if i == 15 then 0xED0
    else if i == 16 then 0xF20
    else if i == 17 then 0x1040
    else if i == 18 then 0x1090
    else if i == 19 then 0x17E0
    else if i == 20 then 0x1810
    else if i == 21 then 0x1946
    else if i == 22 then 0x19D0
    else if i == 23 then 0x1A80
    else if i == 24 then 0x1A90
    else if i == 25 then 0x1B50
    else if i == 26 then 0x1BB0
    else if i == 27 then 0x1C40
    else if i == 28 then 0x1C50
    else if i == 29 then 0xA620
    else if i == 30 then 0xA8D0
    else if i == 31 then 0xA900
    else if i == 32 then 0xA9D0
    else if i == 33 then 0xA9F0
    else if i == 34 then 0xAA50
    else if i == 35 then 0xABF0
    else if i == 36 then 0xFF10
    else if i == 37 then 0x104A0
    else if i == 38 then 0x10D30
    else if i == 39 then 0x11066
    else if i == 40 then 0x110F0
    else if i == 41 then 0x11136
    else if i == 42 then 0x111D0
    else if i == 43 then 0x112F0
    else if i == 44 then 0x11450
    else if i == 45 then 0x114D0
    else if i == 46 then 0x11650
    else if i == 47 then 0x116C0
    else if i == 48 then 0x11730
    else if i == 49 then 0x118E0
    else if i == 50 then 0x11950
    else if i == 51 then 0x11C50
    else if i == 52 then 0x11D50
    else if i == 53 then 0x11DA0
    else if i == 54 then 0x11F50
    else if i == 55 then 0x16A60
    else if i == 56 then 0x16AC0
    else if i == 57 then 0x16B50
    else if i == 58 then 0x1D7CE
    else if i == 59 then 0x1D7D8
    else if i == 60 then 0x1D7E2
    else if i == 61 then 0x1D7EC
    else if i == 62 then 0x1D7F6
    else if i == 63 then 0x1E140
    else if i == 64 then 0x1E2F0
    else if i == 65 then 0x1E4F0
    else if i == 66 then 0x1E950
    else 0x1FBF0
  }

  /** The zero of the block that holds `c`, searching the blocks from the
      `i`-th upwards and stopping at the first that starts above `c`; -1 when
      no block holds it. */
  function DigitZeroFrom(c: char, i: nat): (z: int)
    ensures z == -1 || InBlock(c, z)
    decreases BlockCount - i
  {
    if i >= BlockCount || (c as int) < BlockZero(i) then -1
    else if InBlock(c, BlockZero(i)) then BlockZero(i)
    else DigitZeroFrom(c, i + 1)
  }

  /** The zero of the block of decimal digits that holds `c`, or -1 when `c`
      is not a decimal digit. Below the second block only ASCII `0`-`9` are
      digits. */
  function DigitZero(c: char): (z: int)
    ensures z == -1 || InBlock(c, z)
  {
    if (c as int) < 0x660 then (if '0' <= c <= '9' then 0x30 else -1)
    else DigitZeroFrom(c, 1)
  }

  /** What `\d` matches in a `str` pattern and what `int()` reads as a
      digit: any Unicode decimal digit (category Nd), ASCII among them. */
  predicate IsDigit(c: char) { DigitZero(c) >= 0 }

  /** The search from the `i`-th block finds nothing when every block from
      there on that starts at or below `c` ends below it. */
  lemma {:induction false} NoBlockFrom(c: char, i: nat)
    requires forall k :: i <= k < BlockCount && BlockZero(k) <= c as int ==>
      BlockZero(k) + 10 <= c as int
    ensures DigitZeroFrom(c, i) == -1
    decreases BlockCount - i
  {
    if i < BlockCount && BlockZero(i) <= c as int {
      NoBlockFrom(c, i + 1);
    }
  }

  /** The search from the `i`-th block finds the `j`-th when every block
      between them ends below `c` and the `j`-th holds it. */
  lemma {:induction false} BlockFrom(c: char, i: nat, j: nat)
    requires i <= j < BlockCount && InBlock(c, BlockZero(j))
    requires forall k :: i <= k < j ==> BlockZero(k) + 10 <= c as int
    ensures DigitZeroFrom(c, i) == BlockZero(j)
    decreases j - i
  {
    if i < j {
      BlockFrom(c, i + 1, j);
    }
  }

  /** No whitespace character is a decimal digit. */
  lemma SpaceNotDigit(c: char)
    requires IsSpace(c)
    ensures !IsDigit(c)
  {
    if c as int >= 0x660 {
      forall k | 1 <= k < BlockCount && BlockZero(k) <= c as int
        ensures BlockZero(k) + 10 <= c as int
      {
      }
      NoBlockFrom(c, 1);
    }
  }

  /** The value of a decimal digit, as `int()` reads it. */
  function DigitValue(c: char): (d: nat)
    requires IsDigit(c)
    ensures d < 10
  {
    c as int - DigitZero(c)
  }

  predicate IsUpper(c: char) { 'A' <= c <= 'Z' }

  /** What `[A-Z]` matches under `re.IGNORECASE`, restricted to ASCII. */
  predicate IsLetter(c: char) { 'A' <= c <= 'Z' || 'a' <= c <= 'z' }

  predicate AllDigits(s: string) {
    forall k :: 0 <= k < |s| ==> IsDigit(s[k])
  }

  /** The input without its leading whitespace. */
  function TrimStart(s: string): (r: string)
    ensures |r| <= |s|
    decreases |s|
  {
    if |s| > 0 && IsSpace(s[0]) then TrimStart(s[1..]) else s
  }

  /** The input without its trailing whitespace. */
  function TrimEnd(s: string): (r: string)
    ensures |r| <= |s|
    decreases |s|
  {
    if |s| > 0 && IsSpace(s[|s| - 1]) then TrimEnd(s[..|s| - 1]) else s
  }

  /** Python's `str.strip()` with no argument. */
  function Strip(s: string): string {
    TrimEnd(TrimStart(s))
  }

  /** What `TrimStart` leaves is a suffix of the input that does not start
      with whitespace, and what it cuts off is all whitespace. */
  lemma {:induction false} TrimStartShape(s: string)
    ensures var r := TrimStart(s);
      r == s[|s| - |r|..] && (r == [] || !IsSpace(r[0])) &&
      forall k :: 0 <= k < |s| - |r| ==> IsSpace(s[k])
    decreases |s|
  {
    if |s| > 0 && IsSpace(s[0]) {
      TrimStartShape(s[1..]);
      var r := TrimStart(s[1..]);
      assert s[1..][|s| - 1 - |r|..] == s[|s| - |r|..];
      forall k | 0 <= k < |s| - |r| ensures IsSpace(s[k]) {
        if k > 0 { assert s[k] == s[1..][k - 1]; }
      }
    }
  }

  /** What `TrimEnd` leaves is a prefix of the input that does not end with
      whitespace, and what it cuts off is all whitespace. */
  lemma {:induction false} TrimEndShape(s: string)
    ensures var r := TrimEnd(s);
      r == s[..|r|] && (r == [] || !IsSpace(r[|r| - 1])) &&
      forall k :: |r| <= k < |s| ==> IsSpace(s[k])
    decreases |s|
  {
    if |s| > 0 && IsSpace(s[|s| - 1]) {
      TrimEndShape(s[..|s| - 1]);
      var r := TrimEnd(s[..|s| - 1]);
      assert s[..|s| - 1][..|r|] == s[..|r|];
      forall k | |r| <= k < |s| ensures IsSpace(s[k]) {
        if k < |s| - 1 { assert s[k] == s[..|s| - 1][k]; }
      }
    }
  }

  /** The stripped text is the slice of the input that starts after its
      leading whitespace; it neither starts nor ends with whitespace, and
      everything cut off on either side is whitespace. */
  lemma StripShape(s: string)
    ensures var a := |s| - |TrimStart(s)|; var r := Strip(s);
      a + |r| <= |s| && r == s[a..a + |r|] &&
      (forall k :: 0 <= k < a ==> IsSpace(s[k])) &&
      (forall k :: a + |r| <= k < |s| ==> IsSpace(s[k])) &&
      (r == [] || (!IsSpace(r[0]) && !IsSpace(r[|r| - 1])))
  {
    TrimStartShape(s);
    TrimEndShape(TrimStart(s));
    TrimmedPieces(s, TrimStart(s), Strip(s));
  }

  /** Cutting whitespace off the front of `s` to get `t`, then off the back
      of `t` to get `r`, leaves `r` as a slice of `s` with only whitespace
      around it. */
  lemma TrimmedPieces(s: string, t: string, r: string)
    requires |t| <= |s| && t == s[|s| - |t|..] && (t == [] || !IsSpace(t[0]))
    requires forall k :: 0 <= k < |s| - |t| ==> IsSpace(s[k])
    requires |r| <= |t| && r == t[..|r|] && (r == [] || !IsSpace(r[|r| - 1]))
    requires forall k :: |r| <= k < |t| ==> IsSpace(t[k])
    ensures var a := |s| - |t|;
      a + |r| <= |s| && r == s[a..a + |r|] &&
      (forall k :: 0 <= k < a ==> IsSpace(s[k])) &&
      (forall k :: a + |r| <= k < |s| ==> IsSpace(s[k])) &&
      (r == [] || (!IsSpace(r[0]) && !IsSpace(r[|r| - 1])))
  {
    var a := |s| - |t|;
    assert r == s[a..a + |r|];
    assert r != [] ==> r[0] == t[0];
    forall k | a + |r| <= k < |s| ensures IsSpace(s[k]) {
      assert s[k] == t[k - a];
    }
  }

  /** The stripped text is empty exactly when the input is all whitespace. */
  lemma StripEmptyIff(s: string)
    ensures Strip(s) == [] <==> forall k :: 0 <= k < |s| ==> IsSpace(s[k])
  {
    var t := TrimStart(s);
    TrimStartShape(s);
    TrimEndShape(t);
    assert |t| > 0 ==> t[0] == s[|s| - |t|];
  }

  function LowerChar(c: char): char {
    if 'A' <= c <= 'Z' then (c as int + 32) as char else c
  }

  /** `str.lower()`, restricted to ASCII letters. */
  function Lower(s: string): (r: string)
    ensures |r| == |s|
  {
    seq(|s|, k requires 0 <= k < |s| => LowerChar(s[k]))
  }

  /** `w` occurs in `s` starting at index `i`. */
  predicate OccursAt(s: string, w: string, i: nat) {
    i + |w| <= |s| && s[i..i + |w|] == w
  }

  /** Python's `w in s`. */
  predicate Contains(s: string, w: string) {
    exists i :: 0 <= i <= |s| && OccursAt(s, w, i)
  }

  /** The lower-case word `w` occurs in `t` at index `i`, ignoring ASCII case. */
  predicate MatchesCI(t: string, i: nat, w: string) {
    i + |w| <= |t| && forall k :: 0 <= k < |w| ==> LowerChar(t[i + k]) == w[k]
  }

  /** Case-insensitive `re.search` of a lower-case word. */
  predicate ContainsCI(t: string, w: string) {
    exists i :: 0 <= i <= |t| && MatchesCI(t, i, w)
  }

  /** Python's `sep.join(parts)`. */
  function Join(sep: string, parts: seq<string>): string
    decreases |parts|
  {
    if parts == [] then ""
    else if |parts| == 1 then parts[0]
    else parts[0] + sep + Join(sep, parts[1..])
  }

  function DigitChar(d: nat): (c: char)
    requires d < 10
    ensures IsDigit(c) && DigitValue(c) == d
  {
    ('0' as int + d) as char
  }

  /** The ASCII decimal digits are exactly the digits below code point 128,
      and each has its usual value. */
  lemma AsciiDigits(c: char)
    ensures ('0' <= c <= '9') <==> (IsDigit(c) && c as int < 128)
    ensures '0' <= c <= '9' ==> DigitValue(c) == c as int - '0' as int
  {
  }

  /** `int` reads digits of other scripts too: Arabic-Indic three is 3 and
      fullwidth one, two is 12. */
  lemma NonAsciiDigits()
    ensures ParseInt("\U{0663}") == Some(3)
    ensures ParseInt("\U{FF11}\U{FF12}") == Some(12)
  {
    assert DigitZero('\U{0663}') == 0x660;
    BlockFrom('\U{FF11}', 1, 36);
    BlockFrom('\U{FF12}', 1, 36);
    assert DigitsValue("\U{FF11}\U{FF12}"[..1]) == 1;
  }

  /** Python's `str(n)` for a non-negative integer. */
  function NatToString(n: nat): (r: string)
    ensures |r| > 0 && AllDigits(r)
    decreases n
  {
    if n < 10 then [DigitChar(n)] else NatToString(n / 10) + [DigitChar(n % 10)]
  }

  /** The value of a string of decimal digits. */
  function DigitsValue(s: string): nat
    requires AllDigits(s)
    decreases |s|
  {
    if s == [] then 0
    else DigitsValue(s[..|s| - 1]) * 10 + DigitValue(s[|s| - 1])
  }

  /** Python's `int(s)` on the strings it can receive here: a non-empty run of
      decimal digits, of any script, gives its value; anything else raises
      (`None`). */
  function ParseInt(s: string): (r: Option<nat>)
    ensures r.Some? <==> |s| > 0 && AllDigits(s)
  {
    if |s| > 0 && AllDigits(s) then Some(DigitsValue(s)) else None
  }

  /** `int(str(n)) == n`. */
  lemma {:induction false} ParseNatToString(n: nat)
    ensures ParseInt(NatToString(n)) == Some(n)
    decreases n
  {
    var s := NatToString(n);
    if n < 10 {
      assert s[..0] == [];
      assert DigitsValue(s) == DigitsValue(s[..0]) * 10 + DigitValue(s[0]);
    } else {
      ParseNatToString(n / 10);
      assert s[..|s| - 1] == NatToString(n / 10);
    }
  }

  /** `str(n) == str(m)` only when `n == m`. */
  lemma NatToStringInjective(n: nat, m: nat)
    requires NatToString(n) == NatToString(m)
    ensures n == m
  {
    ParseNatToString(n);
    ParseNatToString(m);
  }

  /** Python's `s.rstrip('ABCDEFGHIJKLMNOPQRSTUVWXYZ')`. */
  function RStripUpper(s: string): (r: string)
    ensures |r| <= |s| && r == s[..|r|]
    ensures r == [] || !IsUpper(r[|r| - 1])
    ensures forall k :: |r| <= k < |s| ==> IsUpper(s[k])
    decreases |s|
  {
    if |s| > 0 && IsUpper(s[|s| - 1]) then RStripUpper(s[..|s| - 1]) else s
  }

  /** Python's `s.replace(pat, '')`: one left-to-right pass that deletes each
      non-overlapping occurrence of `pat`. */
  function RemoveAll(s: string, pat: string): string
    requires |pat| > 0
    decreases |s|
  {
    if |s| < |pat| then s
    else if s[..|pat|] == pat then RemoveAll(s[|pat|..], pat)
    else [s[0]] + RemoveAll(s[1..], pat)
  }

  /** A string without an occurrence of `pat` is left as it is. */
  lemma {:induction false} RemoveAllAbsent(s: string, pat: string)
    requires |pat| > 0 && !Contains(s, pat)
    ensures RemoveAll(s, pat) == s
    decreases |s|
  {
    if |s| >= |pat| {
      assert !OccursAt(s, pat, 0);
      assert s[..|pat|] != pat;
      forall i | 0 <= i <= |s| - 1 ensures !OccursAt(s[1..], pat, i) {
        assert !OccursAt(s, pat, i + 1);
        if i + |pat| <= |s| - 1 {
          assert s[1..][i..i + |pat|] == s[i + 1..i + 1 + |pat|];
        }
      }
      RemoveAllAbsent(s[1..], pat);
      assert [s[0]] + s[1..] == s;
    }
  }

  /** Being a single pass, the deletion can join the pieces around an
      occurrence into a new one: the result may still contain `pat`. */
  lemma RemoveAllSinglePass()
    ensures RemoveAll("TiTitle:tle:", "Title:") == "Title:"
  {
    var s := "TiTitle:tle:";
    assert s[..6][2] != "Title:"[2];
    assert s[1..] == "iTitle:tle:";
    assert s[1..][..6][0] != "Title:"[0];
    assert s[2..] == "Title:tle:";
    assert s[2..][..6] == "Title:";
    assert s[2..][6..] == "tle:";
    assert "tle:"[..0] == [];
  }
}
