/** The JavaScript string operations the backend relies on: `split` on one
    character, `trim`, `parseInt` (decimal only), `includes`, `startsWith`,
    `endsWith`, ASCII case mapping and number-to-string conversion. */
module JsText {
  import opened Results

  /* ---------------------------------------------------------------------
     Searching
     --------------------------------------------------------------------- */

  predicate StartsWith(s: string, prefix: string) {
    |prefix| <= |s| && s[..|prefix|] == prefix
  }

  predicate EndsWith(s: string, suffix: string) {
    |suffix| <= |s| && s[|s| - |suffix|..] == suffix
  }

  /** `s.includes(sub)`. */
  predicate Contains(s: string, sub: string)
    decreases |s|
  {
    StartsWith(s, sub) || (|s| > 0 && Contains(s[1..], sub))
  }

  /** `s.includes("..")` means two adjacent dots somewhere in `s`. */
  lemma {:induction false} ContainsDotDot(s: string)
    ensures Contains(s, "..") <==> exists i :: 0 <= i < |s| - 1 && s[i] == '.' && s[i + 1] == '.'
    decreases |s|
  {
    if |s| > 0 {
      ContainsDotDot(s[1..]);
      if StartsWith(s, "..") {
        assert s[0] == '.' && s[1] == '.';
      } else if Contains(s[1..], "..") {
        var i :| 0 <= i < |s[1..]| - 1 && s[1..][i] == '.' && s[1..][i + 1] == '.';
        assert s[i + 1] == '.' && s[i + 1 + 1] == '.';
      }
      if exists i :: 0 <= i < |s| - 1 && s[i] == '.' && s[i + 1] == '.' {
        var i :| 0 <= i < |s| - 1 && s[i] == '.' && s[i + 1] == '.';
        if i > 0 {
          assert 0 <= i - 1 < |s[1..]| - 1 && s[1..][i - 1] == '.' && s[1..][i - 1 + 1] == '.';
          assert Contains(s[1..], "..");
        } else {
          assert s[..2] == "..";
          assert StartsWith(s, "..");
        }
      }
    }
  }

  /** `s.includes(c)` for a one-character string is membership. */
  lemma {:induction false} ContainsChar(s: string, c: char)
    ensures Contains(s, [c]) <==> c in s
    decreases |s|
  {
    if |s| > 0 {
      ContainsChar(s[1..], c);
      assert s == [s[0]] + s[1..];
      assert StartsWith(s, [c]) <==> s[0] == c;
    }
  }

  /* ---------------------------------------------------------------------
     String.prototype.split with a one-character separator
     --------------------------------------------------------------------- */

  /** Inverse of Split: the parts glued back together with the separator. */
  function Join(parts: seq<string>, sep: char): string
    requires |parts| >= 1
  {
    if |parts| == 1 then parts[0] else parts[0] + [sep] + Join(parts[1..], sep)
  }

  /** `s.split(sep)`: never empty (SplitParts says what the parts are). */
  function Split(s: string, sep: char): (parts: seq<string>)
    ensures |parts| >= 1
  {
    if |s| == 0 then [""]
    else
      var rest := Split(s[1..], sep);
      if s[0] == sep then [""] + rest
      else [[s[0]] + rest[0]] + rest[1..]
  }

  /** No part holds the separator, and joining the parts with the separator
      gives `s` back. */
  lemma {:induction false} SplitParts(s: string, sep: char)
    ensures var parts := Split(s, sep);
      && (forall i :: 0 <= i < |parts| ==> sep !in parts[i])
      && Join(parts, sep) == s
  {
    if |s| > 0 {
      SplitParts(s[1..], sep);
      var rest := Split(s[1..], sep);
      if s[0] == sep {
        assert ([""] + rest)[1..] == rest;
      } else {
        var parts := [[s[0]] + rest[0]] + rest[1..];
        assert parts[1..] == rest[1..];
        assert forall i :: 1 <= i < |parts| ==> parts[i] == rest[i];
        assert |rest| > 1 ==> Join(rest, sep) == rest[0] + [sep] + Join(rest[1..], sep);
      }
    }
  }

  /** Every character of a part is a character of the joined text. */
  lemma {:induction false} JoinHoldsParts(parts: seq<string>, sep: char, i: nat)
    requires |parts| >= 1 && i < |parts|
    ensures forall c :: c in parts[i] ==> c in Join(parts, sep)
  {
    if |parts| > 1 && i > 0 {
      JoinHoldsParts(parts[1..], sep, i - 1);
    }
  }

  /** Splitting peels off the text before the first separator. */
  lemma {:induction false} SplitFirst(a: string, sep: char, b: string)
    requires sep !in a
    ensures Split(a + [sep] + b, sep) == [a] + Split(b, sep)
  {
    if |a| == 0 {
      assert a + [sep] + b == [sep] + b;
      assert ([sep] + b)[1..] == b;
    } else {
      assert (a + [sep] + b)[1..] == a[1..] + [sep] + b;
      SplitFirst(a[1..], sep, b);
      assert [a[0]] + a[1..] == a;
    }
  }

  /** Splitting a string without the separator gives the string itself. */
  lemma {:induction false} SplitWithoutSeparator(s: string, sep: char)
    requires sep !in s
    ensures Split(s, sep) == [s]
  {
    if |s| > 0 {
      assert sep !in s[1..];
      SplitWithoutSeparator(s[1..], sep);
      assert s[0] != sep;
      assert [s[0]] + s[1..] == s;
    }
  }

  /** Two separator-free strings joined by the separator split back into
      the two. */
  lemma SplitTwo(x: string, sep: char, y: string)
    requires sep !in x && sep !in y
    ensures Split(x + [sep] + y, sep) == [x, y]
  {
    SplitFirst(x, sep, y);
    SplitWithoutSeparator(y, sep);
  }

  /** `s.split(sep)` for a string holding the separator: at least two
      parts. */
  function SplitHolding(s: string, sep: char): (parts: seq<string>)
    requires sep in s
    ensures |parts| >= 2
  {
    SplitCount(s, sep);
    assert sep in multiset(s);
    Split(s, sep)
  }

  /** The number of parts is one more than the number of separators. */
  lemma {:induction false} SplitCount(s: string, sep: char)
    ensures |Split(s, sep)| == 1 + multiset(s)[sep]
  {
    if |s| > 0 {
      SplitCount(s[1..], sep);
      assert s == [s[0]] + s[1..];
      assert multiset(s) == multiset{s[0]} + multiset(s[1..]);
    }
  }

  /* ---------------------------------------------------------------------
     String.prototype.trim
     --------------------------------------------------------------------- */

  /** ECMAScript WhiteSpace and LineTerminator code points. */
  predicate IsWhitespace(c: char) {
    c == '\t' || c == '\n' || c == '\U{000B}' || c == '\U{000C}' || c == '\r' || c == ' '
    || c == '\U{00A0}' || c == '\U{1680}' || ('\U{2000}' <= c <= '\U{200A}')
    || c == '\U{2028}' || c == '\U{2029}' || c == '\U{202F}' || c == '\U{205F}'
    || c == '\U{3000}' || c == '\U{FEFF}'
  }

  /** Drops leading whitespace; the result does not start with whitespace
      (TrimStartIsSuffix and TrimStartDropsWhitespace say what is kept and
      what is dropped). */
  function TrimStart(s: string): (r: string)
    ensures |r| <= |s|
    ensures |r| > 0 ==> !IsWhitespace(r[0])
  {
    if |s| > 0 && IsWhitespace(s[0]) then TrimStart(s[1..]) else s
  }

  /** Drops trailing whitespace; the result does not end with whitespace
      (TrimEndIsPrefix and TrimEndDropsWhitespace say what is kept and what
      is dropped). */
  function TrimEnd(s: string): (r: string)
    ensures |r| <= |s|
    ensures |r| > 0 ==> !IsWhitespace(r[|r| - 1])
  {
    if |s| > 0 && IsWhitespace(s[|s| - 1]) then TrimEnd(s[..|s| - 1]) else s
  }

  /** What TrimStart keeps is a suffix of its input. */
  lemma {:induction false} TrimStartIsSuffix(s: string)
    ensures TrimStart(s) == s[|s| - |TrimStart(s)|..]
    decreases |s|
  {
    if |s| > 0 && IsWhitespace(s[0]) {
      TrimStartIsSuffix(s[1..]);
    }
  }

  /** What TrimEnd keeps is a prefix of its input. */
  lemma {:induction false} TrimEndIsPrefix(s: string)
    ensures TrimEnd(s) == s[..|TrimEnd(s)|]
    decreases |s|
  {
    if |s| > 0 && IsWhitespace(s[|s| - 1]) {
      TrimEndIsPrefix(s[..|s| - 1]);
    }
  }

  lemma {:induction false} TrimStartDropsWhitespace(s: string)
    ensures forall i :: 0 <= i < |s| - |TrimStart(s)| ==> IsWhitespace(s[i])
    decreases |s|
  {
    if |s| > 0 && IsWhitespace(s[0]) {
      TrimStartDropsWhitespace(s[1..]);
      assert forall i :: 1 <= i < |s| - |TrimStart(s)| ==> s[i] == s[1..][i - 1];
    }
  }

  lemma {:induction false} TrimEndDropsWhitespace(s: string)
    ensures forall i :: |TrimEnd(s)| <= i < |s| ==> IsWhitespace(s[i])
    decreases |s|
  {
    if |s| > 0 && IsWhitespace(s[|s| - 1]) {
      TrimEndDropsWhitespace(s[..|s| - 1]);
      assert forall i :: |TrimEnd(s)| <= i < |s| - 1 ==> s[i] == s[..|s| - 1][i];
    }
  }

  /** `s.trim()`: neither end of the result is whitespace. */
  function Trim(s: string): (r: string)
    ensures |r| == 0 || (!IsWhitespace(r[0]) && !IsWhitespace(r[|r| - 1]))
  {
    var t := TrimStart(s);
    TrimEndIsPrefix(t);
    TrimEnd(t)
  }

  /** Trimming a string that has no whitespace at either end changes nothing. */
  lemma TrimUntouched(s: string)
    requires |s| == 0 || (!IsWhitespace(s[0]) && !IsWhitespace(s[|s| - 1]))
    ensures Trim(s) == s
  {
  }

  /* ---------------------------------------------------------------------
     Decimal digits
     --------------------------------------------------------------------- */

  predicate IsDigit(c: char) { '0' <= c <= '9' }

  predicate AllDigits(s: string) { forall i :: 0 <= i < |s| ==> IsDigit(s[i]) }

  /** The longest prefix of `s` made of decimal digits. */
  function DigitPrefix(s: string): (d: string)
    ensures |d| <= |s| && d == s[..|d|] && AllDigits(d)
    ensures |d| == |s| || !IsDigit(s[|d|])
  {
    if |s| > 0 && IsDigit(s[0]) then [s[0]] + DigitPrefix(s[1..]) else ""
  }

  /** The value of a digit string, most significant digit first. */
  function DigitsValue(d: string): nat
    requires AllDigits(d)
  {
    if |d| == 0 then 0 else 10 * DigitsValue(d[..|d| - 1]) + (d[|d| - 1] as int - '0' as int)
  }

  function DigitChar(n: nat): (c: char)
    requires n < 10
    ensures IsDigit(c) && c as int - '0' as int == n
  {
    (n + '0' as int) as char
  }

  /** `String(n)` for a non-negative integer (NatToStringDigits says what
      the text is). */
  function NatToString(n: nat): string {
    if n < 10 then [DigitChar(n)] else NatToString(n / 10) + [DigitChar(n % 10)]
  }

  /** The text of `n` is a non-empty run of decimal digits without a leading
      zero, and reading the digits back gives `n`. */
  lemma {:induction false} NatToStringDigits(n: nat)
    ensures var s := NatToString(n);
      && |s| >= 1 && AllDigits(s)
      && (s[0] == '0' ==> n == 0 && s == "0")
      && DigitsValue(s) == n
  {
    if n >= 10 {
      NatToStringDigits(n / 10);
      var s := NatToString(n);
      assert s[..|s| - 1] == NatToString(n / 10);
    }
  }

  /** `String(n)` (template literal `${n}`) for an integer. */
  function IntToString(n: int): string {
    if n < 0 then "-" + NatToString(-n) else NatToString(n)
  }

  /** Two numbers with the same decimal text are the same number. */
  lemma NatToStringInjective(a: nat, b: nat)
    requires NatToString(a) == NatToString(b)
    ensures a == b
  {
    NatToStringDigits(a);
    NatToStringDigits(b);
  }

  /** The digit prefix of a digit string followed by a non-digit is that
      digit string. */
  lemma {:induction false} DigitPrefixOfDigits(d: string, rest: string)
    requires AllDigits(d)
    requires |rest| == 0 || !IsDigit(rest[0])
    ensures DigitPrefix(d + rest) == d
  {
    if |d| > 0 {
      assert (d + rest)[1..] == d[1..] + rest;
      DigitPrefixOfDigits(d[1..], rest);
      assert d == [d[0]] + d[1..];
    } else {
      assert d + rest == rest;
    }
  }

  /* ---------------------------------------------------------------------
     parseInt (radix 10)
     --------------------------------------------------------------------- */

  /** The value of the leading run of decimal digits; None when there is
      none. */
  function LeadingNumber(body: string): Option<int> {
    var digits := DigitPrefix(body);
    if |digits| == 0 then None else Some(DigitsValue(digits))
  }

  /** `parseInt(s)`: skip leading whitespace, read an optional sign, then
      the longest run of decimal digits; no digits at all gives NaN (None).
      ParseIntOfDecimal and ParseIntNoDigits say what it reads. */
  function ParseInt(s: string): Option<int> {
    var t := TrimStart(s);
    if |t| > 0 && t[0] == '-' then
      match LeadingNumber(t[1..])
      case None => None
      case Some(m) => Some(-m)
    else if |t| > 0 && t[0] == '+' then
      match LeadingNumber(t[1..])
      case None => None
      case Some(m) => Some(m)
    else
      match LeadingNumber(t)
      case None => None
      case Some(m) => Some(m)
  }

  /** Leading text that starts with a digit or a sign is left alone by the
      whitespace skip. */
  lemma TrimStartKeeps(s: string)
    requires |s| > 0 && (IsDigit(s[0]) || s[0] == '-')
    ensures TrimStart(s) == s
  {
    assert !IsWhitespace(s[0]);
  }

  /** The leading number of a digit string followed by a non-digit is the
      value of that digit string. */
  lemma LeadingNumberOfDigits(d: string, rest: string)
    requires |d| > 0 && AllDigits(d)
    requires |rest| == 0 || !IsDigit(rest[0])
    ensures LeadingNumber(d + rest) == Some(DigitsValue(d))
  {
    DigitPrefixOfDigits(d, rest);
  }

  /** parseInt reads back what String(n) wrote, whatever non-digit text
      follows the number. */
  lemma ParseIntOfDecimal(n: int, rest: string)
    requires |rest| == 0 || !IsDigit(rest[0])
    ensures ParseInt(IntToString(n) + rest) == Some(n)
  {
    if n < 0 {
      var m := NatToString(-n);
      NatToStringDigits(-n);
      assert IntToString(n) == "-" + m;
      assert IntToString(n) + rest == "-" + (m + rest);
      ParseIntOfNegative(m, rest, n);
    } else {
      var m := NatToString(n);
      NatToStringDigits(n);
      assert IntToString(n) == m;
      ParseIntOfDigits(m, rest);
    }
  }

  lemma ParseIntOfDigits(m: string, rest: string)
    requires |m| > 0 && AllDigits(m)
    requires |rest| == 0 || !IsDigit(rest[0])
    ensures ParseInt(m + rest) == Some(DigitsValue(m))
  {
    var s := m + rest;
    assert s[0] == m[0];
    TrimStartKeeps(s);
    LeadingNumberOfDigits(m, rest);
  }

  /** parseInt of a single digit is its value. */
  lemma ParseIntOfOneDigit(c: char)
    requires IsDigit(c)
    ensures ParseInt([c]) == Some(c as int - '0' as int)
  {
    assert [c][..0] == [];
    assert DigitsValue([c]) == c as int - '0' as int;
    ParseIntOfDigits([c], "");
    assert [c] + "" == [c];
  }

  lemma ParseIntOfNegative(m: string, rest: string, n: int)
    requires |m| > 0 && AllDigits(m) && n + DigitsValue(m) == 0
    requires |rest| == 0 || !IsDigit(rest[0])
    ensures ParseInt("-" + (m + rest)) == Some(n)
  {
    var s := "-" + (m + rest);
    var v: int := DigitsValue(m);
    assert s[0] == '-' && s[1..] == m + rest;
    TrimStartKeeps(s);
    LeadingNumberOfDigits(m, rest);
    NegativeParse(s, v);
    assert -v == n;
  }

  lemma NegativeParse(s: string, v: int)
    requires |s| > 0 && s[0] == '-' && TrimStart(s) == s && LeadingNumber(s[1..]) == Some(v)
    ensures ParseInt(s) == Some(-v)
  {
  }

  /** parseInt of a string with no digit at all is NaN. */
  lemma ParseIntNoDigits(s: string)
    requires forall i :: 0 <= i < |s| ==> !IsDigit(s[i])
    ensures ParseInt(s) == None
  {
    var t := TrimStart(s);
    TrimStartIsSuffix(s);
    assert forall i :: 0 <= i < |t| ==> t[i] == s[|s| - |t| + i];
  }

  /** The text of a non-negative number is digits only, has nothing to
      trim, and parses back to the number. */
  lemma DecimalText(n: nat)
    ensures var s := IntToString(n);
      && |s| > 0 && AllDigits(s) && Trim(s) == s && ParseInt(s) == Some(n)
  {
    DecimalTextDigits(n);
    DecimalTextTrim(n);
    DecimalTextParse(n);
  }

  lemma DecimalTextDigits(n: nat)
    ensures |IntToString(n)| > 0 && AllDigits(IntToString(n))
  {
    NatToStringDigits(n);
  }

  lemma DecimalTextTrim(n: nat)
    ensures Trim(IntToString(n)) == IntToString(n)
  {
    var s := IntToString(n);
    DecimalTextDigits(n);
    assert IsDigit(s[0]) && IsDigit(s[|s| - 1]);
    TrimUntouched(s);
  }

  lemma DecimalTextParse(n: nat)
    ensures ParseInt(IntToString(n)) == Some(n)
  {
    ParseIntOfDecimal(n, "");
    assert IntToString(n) + "" == IntToString(n);
  }

  /** `a-b` for two numbers: nothing to trim, and its dash parts are the
      two numbers' texts. */
  lemma DashedPairText(a: nat, b: nat)
    ensures Trim(IntToString(a) + "-" + IntToString(b)) == IntToString(a) + "-" + IntToString(b)
    ensures '-' in IntToString(a) + "-" + IntToString(b)
    ensures Split(IntToString(a) + "-" + IntToString(b), '-') == [IntToString(a), IntToString(b)]
  {
    var x := IntToString(a);
    var y := IntToString(b);
    var t := x + "-" + y;
    DecimalTextDigits(a);
    DecimalTextDigits(b);
    assert t[0] == x[0] && t[|t| - 1] == y[|y| - 1];
    assert IsDigit(t[0]) && IsDigit(t[|t| - 1]);
    TrimUntouched(t);
    assert t[|x|] == '-';
    NotInDigits(x, '-');
    NotInDigits(y, '-');
    SplitTwo(x, '-', y);
  }

  /** A character that is not a digit does not occur in a digit string. */
  lemma NotInDigits(s: string, c: char)
    requires AllDigits(s) && !IsDigit(c)
    ensures c !in s
  {
    forall i | 0 <= i < |s| ensures s[i] != c {
      assert IsDigit(s[i]);
    }
  }

  /** Trimming keeps a digit-free string digit-free. */
  lemma TrimKeepsNoDigits(s: string)
    requires forall i :: 0 <= i < |s| ==> !IsDigit(s[i])
    ensures forall i :: 0 <= i < |Trim(s)| ==> !IsDigit(Trim(s)[i])
  {
    var t := TrimStart(s);
    TrimStartIsSuffix(s);
    assert forall i :: 0 <= i < |t| ==> t[i] == s[|s| - |t| + i];
    var u := TrimEnd(t);
    TrimEndIsPrefix(t);
    assert forall i :: 0 <= i < |u| ==> u[i] == t[i];
  }

  /** Trimming adds no character. */
  lemma TrimInside(s: string)
    ensures forall c :: c in Trim(s) ==> c in s
  {
    var t := TrimStart(s);
    TrimStartIsSuffix(s);
    assert forall i :: 0 <= i < |t| ==> t[i] == s[|s| - |t| + i];
    var u := TrimEnd(t);
    TrimEndIsPrefix(t);
    assert forall i :: 0 <= i < |u| ==> u[i] == t[i];
  }

  /** Names built as `prefix + String(n) + tail`, where the tail does not
      start with a digit, differ whenever the numbers differ. */
  lemma NumberedNamesDiffer(prefix: string, a: int, tailA: string, b: int, tailB: string)
    requires |tailA| == 0 || !IsDigit(tailA[0])
    requires |tailB| == 0 || !IsDigit(tailB[0])
    requires a != b
    ensures prefix + (IntToString(a) + tailA) != prefix + (IntToString(b) + tailB)
  {
    var x := IntToString(a) + tailA;
    var y := IntToString(b) + tailB;
    assert (prefix + x)[|prefix|..] == x;
    assert (prefix + y)[|prefix|..] == y;
    ParseIntOfDecimal(a, tailA);
    ParseIntOfDecimal(b, tailB);
  }

  /* ---------------------------------------------------------------------
     ASCII case mapping
     --------------------------------------------------------------------- */

  function LowerChar(c: char): char {
    if 'A' <= c <= 'Z' then (c as int + 32) as char else c
  }

  function UpperChar(c: char): char {
    if 'a' <= c <= 'z' then (c as int - 32) as char else c
  }

  /** `s.toLowerCase()` on the ASCII letters. */
  function ToLower(s: string): (r: string)
    ensures |r| == |s| && forall i :: 0 <= i < |s| ==> r[i] == LowerChar(s[i])
  {
    seq(|s|, i requires 0 <= i < |s| => LowerChar(s[i]))
  }

  /** `s.toUpperCase()` on the ASCII letters. */
  function ToUpper(s: string): (r: string)
    ensures |r| == |s| && forall i :: 0 <= i < |s| ==> r[i] == UpperChar(s[i])
  {
    seq(|s|, i requires 0 <= i < |s| => UpperChar(s[i]))
  }

  /** Lowering commutes with taking a suffix. */
  lemma LowerOfSuffix(s: string, k: int)
    requires 0 <= k <= |s|
    ensures ToLower(s)[k..] == ToLower(s[k..])
  {
    assert forall i :: 0 <= i < |s| - k ==> ToLower(s)[k..][i] == ToLower(s[k..])[i];
  }

  /** Two strings equal up to ASCII case. */
  predicate EqualsIgnoringCase(s: string, t: string) {
    ToUpper(s) == ToUpper(t)
  }
}
