/** The text functions the response parser uses: trimming and comparing from
    kwctoolkit/strings/string_utils, and the C library's atoi, strtol and tolower. */
module TextUtils {
  import opened Basics
  import opened Search

  // ---------- Characters ----------

  function ToLower(c: char): char {
    if 'A' <= c <= 'Z' then c - 'A' + 'a' else c
  }

  function Lower(s: string): string {
    seq(|s|, i requires 0 <= i < |s| => ToLower(s[i]))
  }

  const UPPER: string := "ABCDEFGHIJKLMNOPQRSTUVWXYZ"
  const LOWER: string := "abcdefghijklmnopqrstuvwxyz"

  /** Exactly the capital letters change. */
  lemma ToLowerExactly(c: char)
    ensures forall i :: 0 <= i < 26 ==> ToLower(UPPER[i]) == LOWER[i]
    ensures c !in UPPER ==> ToLower(c) == c
  {
    assert forall i :: 0 <= i < 26 ==> UPPER[i] == 'A' + i as char && LOWER[i] == 'a' + i as char;
    if 'A' <= c <= 'Z' {
      assert UPPER[(c - 'A') as int] == c;
    }
  }

  predicate IsSpace(c: char) {
    c == ' ' || '\t' <= c <= '\r'
  }

  predicate IsDigit(c: char) {
    '0' <= c <= '9'
  }

  predicate IsHexDigit(c: char) {
    IsDigit(c) || 'a' <= c <= 'f' || 'A' <= c <= 'F'
  }

  function DigitValue(c: char): (d: nat)
    requires IsHexDigit(c)
    ensures d < 16 && (IsDigit(c) ==> d < 10)
  {
    if IsDigit(c) then (c - '0') as int
    else if 'a' <= c <= 'f' then (c - 'a') as int + 10
    else (c - 'A') as int + 10
  }

  predicate AllHex(s: string) {
    forall i :: 0 <= i < |s| ==> IsHexDigit(s[i])
  }

  predicate AllDigits(s: string) {
    forall i :: 0 <= i < |s| ==> IsDigit(s[i])
  }

  // ---------- Numbers ----------

  /** The number that a string of digits denotes. */
  function Value(digits: string, base: nat): nat
    requires AllHex(digits)
  {
    if digits == "" then 0
    else Value(digits[..|digits| - 1], base) * base + DigitValue(digits[|digits| - 1])
  }

  function HexPrefix(s: string): (r: string)
    ensures AllHex(r) && |r| <= |s| && r == s[..|r|] && (|r| < |s| ==> !IsHexDigit(s[|r|]))
  {
    if s == "" || !IsHexDigit(s[0]) then "" else [s[0]] + HexPrefix(s[1..])
  }

  function DigitPrefix(s: string): (r: string)
    ensures AllHex(r) && AllDigits(r) && |r| <= |s| && r == s[..|r|] && (|r| < |s| ==> !IsDigit(s[|r|]))
  {
    if s == "" || !IsDigit(s[0]) then "" else [s[0]] + DigitPrefix(s[1..])
  }

  function SkipSpaces(s: string): string {
    if s == "" || !IsSpace(s[0]) then s else SkipSpaces(s[1..])
  }

  const LONG_MAX: int := 0x7fff_ffff_ffff_ffff

  function Clamp(x: int): int {
    if x > LONG_MAX then LONG_MAX else if x < -LONG_MAX - 1 then -LONG_MAX - 1 else x
  }

  function Signed(negative: bool, x: int): int {
    if negative then -x else x
  }

  /** A hexadecimal number may start with "0x". */
  function SkipHexMark(u: string): string {
    if |u| > 2 && u[0] == '0' && (u[1] == 'x' || u[1] == 'X') && IsHexDigit(u[2]) then u[2..] else u
  }

  /** `strtol(s, nullptr, 16)`. */
  function Strtol16(s: string): int {
    var t := SkipSpaces(s);
    var negative := t != "" && t[0] == '-';
    var u := if t != "" && (t[0] == '-' || t[0] == '+') then t[1..] else t;
    Clamp(Signed(negative, Value(HexPrefix(SkipHexMark(u)), 16)))
  }

  /** `atoi`, as far as the number fits. */
  function Atoi(s: string): int {
    var t := SkipSpaces(s);
    var negative := t != "" && t[0] == '-';
    var u := if t != "" && (t[0] == '-' || t[0] == '+') then t[1..] else t;
    Signed(negative, Value(DigitPrefix(u), 10))
  }

  lemma {:induction false} PrefixOfHex(digits: string, rest: string)
    requires AllHex(digits) && (rest == "" || !IsHexDigit(rest[0]))
    ensures HexPrefix(digits + rest) == digits
    decreases |digits|
  {
    if digits == "" {
      assert digits + rest == rest;
    } else {
      assert (digits + rest)[1..] == digits[1..] + rest;
      PrefixOfHex(digits[1..], rest);
    }
  }

  /** A hexadecimal number is read up to whatever cannot continue it. */
  lemma Strtol16OfHex(digits: string, rest: string)
    requires digits != "" && AllHex(digits) && Value(digits, 16) <= LONG_MAX
    requires rest == "" || !(IsHexDigit(rest[0]) || rest[0] == 'x' || rest[0] == 'X')
    ensures Strtol16(digits + rest) == Value(digits, 16)
  {
    hide Value, HexPrefix;
    var s := digits + rest;
    assert s[0] == digits[0];
    assert |s| > 2 ==> s[1] == if |digits| > 1 then digits[1] else rest[0];
    PrefixOfHex(digits, rest);
  }

  lemma {:induction false} PrefixOfDigits(digits: string)
    requires AllDigits(digits)
    ensures DigitPrefix(digits) == digits
    decreases |digits|
  {
    if digits != "" {
      PrefixOfDigits(digits[1..]);
    }
  }

  /** Digits followed by something else. */
  lemma {:induction false} DigitsBefore(digits: string, rest: string)
    requires AllDigits(digits) && (rest == "" || !IsDigit(rest[0]))
    ensures DigitPrefix(digits + rest) == digits
    decreases |digits|
  {
    if digits == "" {
      assert digits + rest == rest;
    } else {
      assert (digits + rest)[1..] == digits[1..] + rest;
      DigitsBefore(digits[1..], rest);
    }
  }

  lemma {:induction false} SpacesSkipped(spaces: string, s: string)
    requires (forall i :: 0 <= i < |spaces| ==> IsSpace(spaces[i])) && (s == "" || !IsSpace(s[0]))
    ensures SkipSpaces(spaces + s) == s
    decreases |spaces|
  {
    if spaces == "" {
      assert spaces + s == s;
    } else {
      assert (spaces + s)[1..] == spaces[1..] + s;
      SpacesSkipped(spaces[1..], s);
    }
  }

  /** White space, a sign and digits, up to whatever is no digit. */
  lemma AtoiExactly(spaces: string, sign: string, digits: string, rest: string)
    requires forall i :: 0 <= i < |spaces| ==> spaces[i] in " \t\n\r" || spaces[i] as int in {11, 12}
    requires sign == "" || sign == "+" || sign == "-"
    requires digits != "" && AllDigits(digits) && AllHex(digits) && (rest == "" || !IsDigit(rest[0]))
    ensures var x := Atoi(spaces + (sign + (digits + rest)));
      if sign == "-" then x + Value(digits, 10) == 0 else x == Value(digits, 10)
  {
    hide SkipSpaces, DigitPrefix, Value;
    var u := digits + rest;
    var t := sign + u;
    assert u[0] == digits[0] && IsDigit(digits[0]);
    assert t[0] == if sign == "" then digits[0] else sign[0];
    SpacesSkipped(spaces, t);
    DigitsBefore(digits, rest);
    assert sign != "" ==> t[1..] == u;
    assert sign == "" ==> t == u;
  }

  /** White space, a sign, perhaps "0x", and hexadecimal digits; numbers out of range stop at its end. */
  lemma Strtol16Exactly(spaces: string, sign: string, prefix: string, digits: string, rest: string)
    requires forall i :: 0 <= i < |spaces| ==> spaces[i] in " \t\n\r" || spaces[i] as int in {11, 12}
    requires sign == "" || sign == "+" || sign == "-"
    requires prefix == "" || prefix == "0x" || prefix == "0X"
    requires digits != "" && AllHex(digits) && (rest == "" || !IsHexDigit(rest[0]))
    requires prefix == "" && rest != "" ==> rest[0] != 'x' && rest[0] != 'X'
    ensures var x, v := Strtol16(spaces + (sign + (prefix + (digits + rest)))), Value(digits, 16);
      if sign == "-" then if v <= 0x8000_0000_0000_0000 then x + v == 0 else x == -0x8000_0000_0000_0000
      else if v <= 0x7fff_ffff_ffff_ffff then x == v else x == 0x7fff_ffff_ffff_ffff
  {
    hide SkipSpaces, HexPrefix, Value, SkipHexMark;
    var d := digits + rest;
    var u := prefix + d;
    var t := sign + u;
    assert d[0] == digits[0];
    assert u[0] == if prefix == "" then digits[0] else prefix[0];
    assert t[0] == if sign == "" then u[0] else sign[0];
    SpacesSkipped(spaces, t);
    PrefixOfHex(digits, rest);
    assert if sign == "" then t == u else t[1..] == u;
    HexMark(prefix, digits, rest);
  }

  lemma HexMark(prefix: string, digits: string, rest: string)
    requires prefix == "" || prefix == "0x" || prefix == "0X"
    requires digits != "" && AllHex(digits)
    requires prefix == "" && rest != "" ==> rest[0] != 'x' && rest[0] != 'X'
    ensures SkipHexMark(prefix + (digits + rest)) == digits + rest
  {
    var d := digits + rest;
    var u := prefix + d;
    assert d[0] == digits[0];
    if prefix == "" {
      assert u == d;
      assert |d| > 1 ==> d[1] == if |digits| > 1 then digits[1] else rest[0];
    } else {
      assert u[2..] == d && u[0] == prefix[0] && u[1] == prefix[1] && u[2] == d[0];
    }
  }

  // ---------- Writing numbers ----------

  const LOWER_DIGITS: string := "0123456789abcdef"
  const UPPER_DIGITS: string := "0123456789ABCDEF"

  function Decimal(n: nat): string {
    if n < 10 then [LOWER_DIGITS[n]] else Decimal(n / 10) + [LOWER_DIGITS[n % 10]]
  }

  function Hexadecimal(n: nat, digits: string): string
    requires |digits| == 16
  {
    if n < 16 then [digits[n]] else Hexadecimal(n / 16, digits) + [digits[n % 16]]
  }

  lemma DigitsOfNumbers(d: nat)
    requires d < 16
    ensures IsHexDigit(LOWER_DIGITS[d]) && DigitValue(LOWER_DIGITS[d]) == d
    ensures IsHexDigit(UPPER_DIGITS[d]) && DigitValue(UPPER_DIGITS[d]) == d
    ensures d < 10 ==> IsDigit(LOWER_DIGITS[d])
  {
  }

  lemma OneMoreDigit(s: string, c: char, base: nat)
    requires AllHex(s) && IsHexDigit(c)
    ensures AllHex(s + [c]) && Value(s + [c], base) == Value(s, base) * base + DigitValue(c)
  {
    assert (s + [c])[..|s + [c]| - 1] == s;
  }

  lemma OneDigit(c: char, base: nat)
    requires IsHexDigit(c)
    ensures AllHex([c]) && Value([c], base) == DigitValue(c)
  {
    assert [c][..0] == "";
  }

  /** Reading a number as it was written gives the number. */
  lemma {:induction false} ValueOfDecimal(n: nat)
    ensures var s := Decimal(n); s != "" && AllHex(s) && AllDigits(s) && Value(s, 10) == n
  {
    hide Value, DigitValue;
    DigitsOfNumbers(n % 10);
    if n < 10 {
      OneDigit(LOWER_DIGITS[n], 10);
    } else {
      ValueOfDecimal(n / 10);
      OneMoreDigit(Decimal(n / 10), LOWER_DIGITS[n % 10], 10);
    }
  }

  lemma {:induction false} ValueOfHexadecimal(n: nat, digits: string)
    requires digits == LOWER_DIGITS || digits == UPPER_DIGITS
    ensures var s := Hexadecimal(n, digits); s != "" && AllHex(s) && Value(s, 16) == n
  {
    hide Value, DigitValue;
    DigitsOfNumbers(n % 16);
    if n < 16 {
      OneDigit(digits[n], 16);
    } else {
      ValueOfHexadecimal(n / 16, digits);
      OneMoreDigit(Hexadecimal(n / 16, digits), digits[n % 16], 16);
    }
  }

  lemma AtoiOfDigits(digits: string)
    requires digits != "" && AllDigits(digits) && AllHex(digits)
    ensures Atoi(digits) == Value(digits, 10)
  {
    PrefixOfDigits(digits);
  }

  // ---------- Trimming ----------

  const BLANK: char := ' '

  predicate AllBlank(s: string) {
    forall i :: 0 <= i < |s| ==> s[i] == BLANK
  }

  function TrimFront(s: string): (r: string)
    ensures |r| <= |s| && r == s[|s| - |r|..] && AllBlank(s[..|s| - |r|])
    ensures r != "" ==> r[0] != BLANK
    ensures r == "" <==> AllBlank(s)
  {
    if s == "" || s[0] != BLANK then s
    else
      var r := TrimFront(s[1..]);
      assert s[..|s| - |r|] == [s[0]] + s[1..][..|s| - 1 - |r|];
      r
  }

  function TrimBack(s: string): (r: string)
    ensures |r| <= |s| && r == s[..|r|] && AllBlank(s[|r|..])
    ensures r != "" ==> r[|r| - 1] != BLANK
    ensures r == "" <==> AllBlank(s)
  {
    if s == "" || s[|s| - 1] != BLANK then s
    else
      var r := TrimBack(s[..|s| - 1]);
      assert s[|r|..] == s[..|s| - 1][|r|..] + [s[|s| - 1]];
      r
  }

  /** `TrimString(s, " ", TRIM_ALL)`: a non-empty string of blanks only makes `substr` throw. */
  function Trim(s: string): Option<string> {
    if s == "" then Some("")
    else if AllBlank(s) then None
    else Some(TrimBack(TrimFront(s)))
  }

  predicate StartsWithIgnoringCase(s: string, prefix: string) {
    |prefix| <= |s| && Lower(s[..|prefix|]) == Lower(prefix)
  }

  // ---------- Lines ----------

  /** A line without its carriage returns. */
  function RemoveCr(s: string): string {
    if s == "" then ""
    else RemoveCr(s[..|s| - 1]) + (if s[|s| - 1] == '\r' then "" else [s[|s| - 1]])
  }

  lemma RemoveCrLast(s: string)
    ensures RemoveCr(s + "\r") == RemoveCr(s)
  {
    assert (s + "\r")[..|s|] == s;
  }

  lemma {:induction false} RemoveCrConcat(s: string, t: string)
    ensures RemoveCr(s + t) == RemoveCr(s) + RemoveCr(t)
    decreases |t|
  {
    if t == "" {
      assert s + t == s;
    } else {
      assert (s + t)[..|s + t| - 1] == s + t[..|t| - 1];
      RemoveCrConcat(s, t[..|t| - 1]);
    }
  }

  /** What is left holds no carriage return, and only characters of the line. */
  lemma {:induction false} RemoveCrAll(s: string)
    ensures '\r' !in RemoveCr(s) && forall c :: c in RemoveCr(s) ==> c in s
    decreases |s|
  {
    if s != "" {
      RemoveCrAll(s[..|s| - 1]);
    }
  }

  lemma {:induction false} RemoveCrNone(s: string)
    requires '\r' !in s
    ensures RemoveCr(s) == s
    decreases |s|
  {
    if s != "" {
      RemoveCrNone(s[..|s| - 1]);
    }
  }

  /** The words of a status line: a run of blanks is skipped, then a word ends at a blank or a NUL. */
  function SkipBlanks(s: string, i: nat): (j: nat)
    requires i <= |s|
    ensures i <= j <= |s| && At(s, j) != BLANK && forall k :: i <= k < j ==> s[k] == BLANK
    decreases |s| - i
  {
    if At(s, i) == BLANK then SkipBlanks(s, i + 1) else i
  }

  function WordEnd(s: string, i: nat): (j: nat)
    requires i <= |s|
    ensures i <= j <= |s| && (At(s, j) == BLANK || At(s, j) == '\0')
    ensures forall k :: i <= k < j ==> s[k] != BLANK && s[k] != '\0'
    decreases |s| - i
  {
    if At(s, i) == BLANK || At(s, i) == '\0' then i else WordEnd(s, i + 1)
  }
}
