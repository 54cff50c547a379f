/** The JavaScript string and number built-ins that the auth domain relies on:
    the white-space class, integer-to-text conversion, `parseInt(s, 10)` and
    `split` on a one-character separator. */
module JsText {

  /** JavaScript's white space and line terminators: the regular-expression class `\s`,
      and what `String.prototype.trim` and `parseInt` skip. */
  predicate IsWhiteSpace(c: char) {
    c == '\t' || c == '\n' || c == '\U{000B}' || c == '\U{000C}' || c == '\r' || c == ' '
    || c == '\U{00A0}' || c == '\U{1680}' || ('\U{2000}' <= c <= '\U{200A}')
    || c == '\U{2028}' || c == '\U{2029}' || c == '\U{202F}' || c == '\U{205F}'
    || c == '\U{3000}' || c == '\U{FEFF}'
  }

  predicate IsDigit(c: char) {
    '0' <= c <= '9'
  }

  predicate AllDigits(s: string) {
    forall i :: 0 <= i < |s| ==> IsDigit(s[i])
  }

  function DigitChar(d: nat): (c: char)
    requires d < 10
    ensures IsDigit(c)
  {
    ('0' as int + d) as char
  }

  function DigitValue(c: char): (d: nat)
    requires IsDigit(c)
    ensures d < 10 && DigitChar(d) == c
  {
    c as int - '0' as int
  }

  /** Outside the Basic Multilingual Plane: a JavaScript string stores it as a surrogate pair. */
  predicate IsAstral(c: char) {
    c as int >= 0x1_0000
  }

  /** `String.prototype.length`: the number of UTF-16 code units, two for each astral character. */
  function Utf16Length(s: string): (n: nat)
    ensures |s| <= n <= 2 * |s|
  {
    if s == [] then 0 else (if IsAstral(s[0]) then 2 else 1) + Utf16Length(s[1..])
  }

  /** The UTF-16 length counts one unit per character plus one more per astral character. */
  lemma {:induction false} Utf16LengthOfConcat(a: string, b: string)
    ensures Utf16Length(a + b) == Utf16Length(a) + Utf16Length(b)
  {
    if a == [] {
      assert a + b == b;
    } else {
      assert (a + b)[1..] == a[1..] + b;
      Utf16LengthOfConcat(a[1..], b);
    }
  }

  /** Text without astral characters has as many code units as characters. */
  lemma {:induction false} Utf16LengthOfBmp(s: string)
    requires forall i :: 0 <= i < |s| ==> !IsAstral(s[i])
    ensures Utf16Length(s) == |s|
  {
    if s != [] {
      assert !IsAstral(s[0]);
      Utf16LengthOfBmp(s[1..]);
    }
  }

  /** The decimal text of a natural number, without leading zeros. */
  function NatToDecimal(n: nat): (s: string)
    ensures |s| > 0 && AllDigits(s)
    ensures s[0] == '0' ==> s == "0"
  {
    if n < 10 then [DigitChar(n)] else NatToDecimal(n / 10) + [DigitChar(n % 10)]
  }

  /** `String(n)` and `${n}` for an integer Number. */
  function IntToDecimal(n: int): string {
    if n < 0 then "-" + NatToDecimal(-n) else NatToDecimal(n)
  }

  /** The value of a run of decimal digits, most significant first. */
  function DigitsValue(s: string): nat
    requires AllDigits(s)
  {
    if s == [] then 0 else 10 * DigitsValue(s[..|s| - 1]) + DigitValue(s[|s| - 1])
  }

  /** The longest prefix of `s` made of decimal digits. */
  function LeadingDigits(s: string): (d: string)
    ensures AllDigits(d) && d <= s
    ensures |d| < |s| ==> !IsDigit(s[|d|])
  {
    if s != [] && IsDigit(s[0]) then [s[0]] + LeadingDigits(s[1..]) else []
  }

  /** `s` without its leading white space. */
  function TrimStart(s: string): (r: string)
    ensures |r| <= |s|
    ensures forall i :: 0 <= i < |s| - |r| ==> IsWhiteSpace(s[i])
    ensures r != [] ==> !IsWhiteSpace(r[0])
  {
    if s != [] && IsWhiteSpace(s[0]) then TrimStart(s[1..]) else s
  }

  /** A JavaScript Number as far as this core uses one: an integer, or not-a-number. */
  datatype Number = NaN | Integer(value: int)

  /** `parseInt(s, 10)`: skip leading white space, read an optional sign, then the longest
      run of decimal digits; with no digit the result is NaN. */
  function ParseInt(s: string): Number {
    ParseSigned(TrimStart(s))
  }

  function ParseSigned(t: string): Number {
    if t != [] && t[0] == '-' then Negate(ParseDigits(t[1..]))
    else if t != [] && t[0] == '+' then ParseDigits(t[1..])
    else ParseDigits(t)
  }

  function ParseDigits(u: string): Number {
    var digits := LeadingDigits(u);
    if digits == [] then NaN else Integer(DigitsValue(digits))
  }

  function Negate(x: Number): Number {
    if x.NaN? then NaN else Integer(-x.value)
  }

  lemma {:induction false} DigitsValueOfDecimal(n: nat)
    ensures DigitsValue(NatToDecimal(n)) == n
  {
    if n >= 10 {
      var s := NatToDecimal(n);
      assert s[..|s| - 1] == NatToDecimal(n / 10);
      DigitsValueOfDecimal(n / 10);
    }
  }

  lemma {:induction false} LeadingDigitsOfDigits(s: string)
    requires AllDigits(s)
    ensures LeadingDigits(s) == s
  {
    if s != [] {
      LeadingDigitsOfDigits(s[1..]);
    }
  }

  /** How `parseInt` reads unsigned text: white space, digits, then anything that does not start with a digit. */
  lemma ParseIntReadsUnsigned(space: string, digits: string, rest: string)
    requires forall i :: 0 <= i < |space| ==> IsWhiteSpace(space[i])
    requires digits != [] && AllDigits(digits)
    requires rest == [] || !IsDigit(rest[0])
    ensures ParseInt(space + digits + rest) == Integer(DigitsValue(digits))
  {
    var t := digits + rest;
    assert IsDigit(t[0]);
    assert space + digits + rest == space + t;
    TrimStartSkips(space, t);
    LeadingDigitsPrefix(digits, rest);
  }

  /** How `parseInt` reads signed text: white space, `+` or `-`, digits, then anything that does not start with a digit. */
  lemma ParseIntReadsSigned(space: string, sign: char, digits: string, rest: string)
    requires forall i :: 0 <= i < |space| ==> IsWhiteSpace(space[i])
    requires sign == '-' || sign == '+'
    requires digits != [] && AllDigits(digits)
    requires rest == [] || !IsDigit(rest[0])
    ensures ParseInt(space + [sign] + digits + rest)
            == Integer(if sign == '-' then -(DigitsValue(digits) as int) else DigitsValue(digits))
  {
    var u := digits + rest;
    var t := [sign] + u;
    assert t[0] == sign && t[1..] == u;
    assert space + [sign] + digits + rest == space + t;
    TrimStartSkips(space, t);
    LeadingDigitsPrefix(digits, rest);
    var v := DigitsValue(digits);
    assert ParseDigits(u) == Integer(v);
    assert ParseDigits(t[1..]) == Integer(v);
    if sign == '-' {
      assert ParseSigned(t) == Negate(Integer(v));
    } else {
      assert ParseSigned(t) == Integer(v);
    }
  }

  lemma {:induction false} TrimStartSkips(space: string, t: string)
    requires forall i :: 0 <= i < |space| ==> IsWhiteSpace(space[i])
    requires t == [] || !IsWhiteSpace(t[0])
    ensures TrimStart(space + t) == t
  {
    if space == [] {
      assert space + t == t;
    } else {
      assert (space + t)[1..] == space[1..] + t;
      TrimStartSkips(space[1..], t);
    }
  }

  lemma {:induction false} LeadingDigitsPrefix(digits: string, rest: string)
    requires AllDigits(digits)
    requires rest == [] || !IsDigit(rest[0])
    ensures LeadingDigits(digits + rest) == digits
  {
    if digits == [] {
      assert digits + rest == rest;
    } else {
      assert (digits + rest)[1..] == digits[1..] + rest;
      LeadingDigitsPrefix(digits[1..], rest);
    }
  }

  /** The digits `parseInt` reads from a decimal rendering are all of it. */
  lemma ParseDigitsOfDecimal(m: nat)
    ensures ParseDigits(NatToDecimal(m)) == Integer(m)
  {
    DigitsValueOfDecimal(m);
    LeadingDigitsOfDigits(NatToDecimal(m));
  }

  /** A decimal rendering starts with a digit, so there is no white space to skip. */
  lemma TrimStartOfDecimal(m: nat)
    ensures TrimStart(NatToDecimal(m)) == NatToDecimal(m)
  {
    assert IsDigit(NatToDecimal(m)[0]);
  }

  /** Rendering an integer and parsing it back gives the integer again. */
  lemma ParseIntOfDecimal(n: int)
    ensures ParseInt(IntToDecimal(n)) == Integer(n)
  {
    if n < 0 {
      var d := NatToDecimal(-n);
      var t := "-" + d;
      ParseDigitsOfDecimal(-n);
      assert t[0] == '-' && t[1..] == d;
    } else {
      ParseDigitsOfDecimal(n);
      TrimStartOfDecimal(n);
    }
  }

  /** The number of times `c` occurs in `s`. */
  function Occurrences(s: string, c: char): nat {
    if s == [] then 0 else (if s[0] == c then 1 else 0) + Occurrences(s[1..], c)
  }

  /** `s.split(sep)` for a one-character separator: the pieces between separators, empty ones included. */
  function Split(s: string, sep: char): (parts: seq<string>)
    ensures |parts| == Occurrences(s, sep) + 1
    ensures forall i :: 0 <= i < |parts| ==> sep !in parts[i]
  {
    if s == [] then [""]
    else
      var rest := Split(s[1..], sep);
      if s[0] == sep then [""] + rest else [[s[0]] + rest[0]] + rest[1..]
  }

  /** `parts.join(sep)`. */
  function Join(parts: seq<string>, sep: string): string {
    if parts == [] then ""
    else if |parts| == 1 then parts[0]
    else parts[0] + sep + Join(parts[1..], sep)
  }

  /** Joining the pieces of a split with the separator gives back the text. */
  lemma {:induction false} JoinSplit(s: string, sep: char)
    ensures Join(Split(s, sep), [sep]) == s
  {
    if s != [] {
      var rest := Split(s[1..], sep);
      JoinSplit(s[1..], sep);
      if s[0] == sep {
        assert Split(s, sep)[1..] == rest;
        assert s == "" + [sep] + s[1..];
      } else {
        var parts := Split(s, sep);
        if |rest| == 1 {
          assert parts == [[s[0]] + rest[0]];
        } else {
          assert parts[1..] == rest[1..];
          assert Join(rest, [sep]) == rest[0] + [sep] + Join(rest[1..], [sep]);
        }
      }
    }
  }

  /** Text up to the first separator is the first piece; the rest is split on its own. */
  lemma {:induction false} SplitAtFirst(a: string, sep: char, b: string)
    requires sep !in a
    ensures Split(a + [sep] + b, sep) == [a] + Split(b, sep)
  {
    if a == [] {
      assert a + [sep] + b == [sep] + b;
      assert ([sep] + b)[1..] == b;
    } else {
      assert (a + [sep] + b)[1..] == a[1..] + [sep] + b;
      SplitAtFirst(a[1..], sep, b);
      assert [a[0]] + a[1..] == a;
    }
  }
}
