/** The few JavaScript string primitives the portal scripts depend on:
    `trim`, `toLowerCase`, `includes`, `parseInt`, `Number(string)` and the
    decimal rendering of an integer inside a template literal. */
module JsText {
  import opened Wrappers

  /** White space skipped by `trim` and `parseInt`: the ASCII white space
      characters, NO-BREAK SPACE and the byte-order mark. */
  predicate IsSpace(c: char) {
    c == ' ' || c == '\t' || c == '\n' || c == '\r' || c == '\U{B}' || c == '\U{C}'
    || c == '\U{A0}' || c == '\U{FEFF}'
  }

  /** `s.trimStart()`: the suffix of `s` left after its leading white space. */
  function TrimStart(s: string): (r: string)
    ensures |r| <= |s| && r == s[|s| - |r|..]
    ensures forall i :: 0 <= i < |s| - |r| ==> IsSpace(s[i])
    ensures r == [] || !IsSpace(r[0])
  {
    if s != [] && IsSpace(s[0]) then TrimStart(s[1..]) else s
  }

  /** `s.trimEnd()`: the prefix of `s` left after its trailing white space. */
  function TrimEnd(s: string): (r: string)
    ensures |r| <= |s| && r == s[..|r|]
    ensures forall i :: |r| <= i < |s| ==> IsSpace(s[i])
    ensures r == [] || !IsSpace(r[|r| - 1])
  {
    if s != [] && IsSpace(s[|s| - 1]) then TrimEnd(s[..|s| - 1]) else s
  }

  /** `s.trim()`. */
  function Trim(s: string): (r: string)
    ensures |r| <= |s|
    ensures r == [] || (!IsSpace(r[0]) && !IsSpace(r[|r| - 1]))
  {
    TrimEnd(TrimStart(s))
  }

  /** `s.trim()` is `s` with its leading and its trailing white space cut off
      and nothing else changed: a slice of `s` outside which there is only white
      space, and which neither starts nor ends with white space. */
  lemma TrimIsSlice(s: string) returns (i: nat, j: nat)
    ensures i <= j <= |s| && Trim(s) == s[i..j]
    ensures forall k :: 0 <= k < i ==> IsSpace(s[k])
    ensures forall k :: j <= k < |s| ==> IsSpace(s[k])
    ensures i < j ==> !IsSpace(s[i]) && !IsSpace(s[j - 1])
  {
    var t := TrimStart(s);
    i := |s| - |t|;
    j := i + |TrimEnd(t)|;
    TrimmedSlice(s, i, j, t);
    TrailingSpace(s, i, t);
    TrimmedEnds(s, i, j);
  }

  lemma TrimmedSlice(s: string, i: nat, j: nat, t: string)
    requires t == TrimStart(s) && i == |s| - |t| && j == i + |TrimEnd(t)|
    ensures i <= j <= |s| && Trim(s) == s[i..j]
  {
    var r := TrimEnd(t);
    assert Trim(s) == r;
    assert t == s[i..];
    assert r == t[..|r|];
    SliceOfSlice(s, i, |r|);
  }

  lemma SliceOfSlice<T>(s: seq<T>, i: nat, n: nat)
    requires i + n <= |s|
    ensures s[i..][..n] == s[i..i + n]
  {
  }

  lemma TrimmedEnds(s: string, i: nat, j: nat)
    requires i <= j <= |s| && Trim(s) == s[i..j]
    ensures i < j ==> !IsSpace(s[i]) && !IsSpace(s[j - 1])
  {
    if i < j {
      var r := Trim(s);
      assert s[i] == r[0] && s[j - 1] == r[|r| - 1];
    }
  }

  lemma TrailingSpace(s: string, i: nat, t: string)
    requires t == TrimStart(s) && i == |s| - |t|
    ensures forall k :: i + |TrimEnd(t)| <= k < |s| ==> IsSpace(s[k])
  {
    var r := TrimEnd(t);
    forall k | i + |r| <= k < |s|
      ensures IsSpace(s[k])
    {
      assert IsSpace(t[k - i]);
      assert t[k - i] == s[i..][k - i];
    }
  }

  /** `toLowerCase` on one character; only the ASCII capitals are mapped. */
  function LowerChar(c: char): char {
    if IsUpper(c) then (c as int + 32) as char else c
  }

  predicate IsUpper(c: char) {
    'A' <= c <= 'Z'
  }

  /** `s.toLowerCase()`: no capital is left, every capital becomes the small
      letter 32 code points above it, and every other character is kept. */
  function ToLower(s: string): (r: string)
    ensures |r| == |s|
    ensures forall i :: 0 <= i < |r| ==> !IsUpper(r[i])
    ensures forall i :: 0 <= i < |s| && !IsUpper(s[i]) ==> r[i] == s[i]
    ensures forall i :: 0 <= i < |s| && IsUpper(s[i]) ==> r[i] as int == s[i] as int + 32
  {
    seq(|s|, i requires 0 <= i < |s| => LowerChar(s[i]))
  }

  /** Lower-casing twice is lower-casing once, and text without capitals is
      its own lower case. */
  lemma ToLowerIdempotent(s: string)
    ensures ToLower(ToLower(s)) == ToLower(s)
    ensures (forall i :: 0 <= i < |s| ==> !IsUpper(s[i])) ==> ToLower(s) == s
  {
  }

  /** `t` is a prefix of `s`. */
  predicate IsPrefix(t: string, s: string) {
    |t| <= |s| && s[..|t|] == t
  }

  /** `s.includes(t)`: `t` occurs in `s` at some position. */
  predicate Contains(s: string, t: string) {
    exists i | 0 <= i <= |s| :: IsPrefix(t, s[i..])
  }

  // ---------------------------------------------------------------------------
  // Digits in radix 10 and 16
  // ---------------------------------------------------------------------------

  predicate IsHexDigit(c: char) {
    ('0' <= c <= '9') || ('a' <= c <= 'f') || ('A' <= c <= 'F')
  }

  /** The value of a hexadecimal digit character (0..15). */
  function DigitValue(c: char): (d: nat)
    requires IsHexDigit(c)
    ensures d < 16
    ensures d < 10 <==> '0' <= c <= '9'
  {
    if '0' <= c <= '9' then c as int - '0' as int
    else if 'a' <= c <= 'f' then c as int - 'a' as int + 10
    else c as int - 'A' as int + 10
  }

  /** `c` is a digit of radix `radix` (10 or 16 here). */
  predicate IsRadixDigit(c: char, radix: nat) {
    IsHexDigit(c) && DigitValue(c) < radix
  }

  predicate AllDigits(ds: string, radix: nat) {
    forall i :: 0 <= i < |ds| ==> IsRadixDigit(ds[i], radix)
  }

  /** The number a string of radix digits denotes, most significant digit first. */
  function Value(ds: string, radix: nat): nat
    requires AllDigits(ds, radix)
  {
    if ds == [] then 0 else Value(ds[..|ds| - 1], radix) * radix + DigitValue(ds[|ds| - 1])
  }

  /** The longest prefix of `s` made of radix digits. */
  function DigitRun(s: string, radix: nat): (r: string)
    ensures |r| <= |s| && r == s[..|r|]
    ensures AllDigits(r, radix)
    ensures |r| == |s| || !IsRadixDigit(s[|r|], radix)
  {
    if s != [] && IsRadixDigit(s[0], radix) then [s[0]] + DigitRun(s[1..], radix) else []
  }

  /** The digit run of a digit string followed by a non-digit is that digit string. */
  lemma {:induction false} DigitRunStops(ds: string, rest: string, radix: nat)
    requires AllDigits(ds, radix)
    requires rest == [] || !IsRadixDigit(rest[0], radix)
    ensures DigitRun(ds + rest, radix) == ds
  {
    if ds != [] {
      assert (ds + rest)[1..] == ds[1..] + rest;
      DigitRunStops(ds[1..], rest, radix);
    } else {
      assert ds + rest == rest;
    }
  }

  // ---------------------------------------------------------------------------
  // Decimal rendering of integers (`${n}` in a template literal)
  // ---------------------------------------------------------------------------

  function DigitChar(d: nat): (c: char)
    requires d < 10
    ensures IsRadixDigit(c, 10) && DigitValue(c) == d
  {
    ('0' as int + d) as char
  }

  /** The decimal digits of `n`, without leading zeros. */
  function NatToString(n: nat): (r: string)
    ensures r != [] && AllDigits(r, 10)
    ensures Value(r, 10) == n
    ensures |r| > 1 ==> r[0] != '0'
  {
    if n < 10 then [DigitChar(n)]
    else
      var front := NatToString(n / 10);
      var r := front + [DigitChar(n % 10)];
      assert r[..|r| - 1] == front;
      r
  }

  /** The decimal rendering of an integer, with a leading '-' when negative. */
  function IntToString(i: int): (r: string)
    ensures r != [] && (r[0] == '-' || IsRadixDigit(r[0], 10))
  {
    if i < 0 then "-" + NatToString(-i) else NatToString(i)
  }

  // ---------------------------------------------------------------------------
  // parseInt(s) and Number(s)
  // ---------------------------------------------------------------------------

  /** `s` (sign already removed) carries the "0x"/"0X" prefix that makes
      `parseInt` read hexadecimal digits. */
  predicate HasHexPrefix(u: string) {
    |u| >= 2 && u[0] == '0' && (u[1] == 'x' || u[1] == 'X')
  }

  /** Splits an optional leading '-' or '+' off `t`, giving the sign it denotes. */
  function SplitSign(t: string): (int, string) {
    if t != [] && t[0] == '-' then (-1, t[1..])
    else if t != [] && t[0] == '+' then (1, t[1..])
    else (1, t)
  }

  /** The unsigned part of `parseInt`: hexadecimal digits after a "0x"
      prefix, decimal digits otherwise, stopping at the first non-digit. */
  function ParseDigits(u: string): Option<nat> {
    var radix := if HasHexPrefix(u) then 16 else 10;
    var ds := DigitRun(if HasHexPrefix(u) then u[2..] else u, radix);
    if ds == [] then None else Some(Value(ds, radix))
  }

  /** `parseInt(s)` with no radix argument: skip leading white space, take an
      optional sign, read hexadecimal after a "0x" prefix and decimal otherwise,
      and stop at the first character that is not a digit. `None` is `NaN`. */
  function ParseInt(s: string): Option<int> {
    var (sign, u) := SplitSign(TrimStart(s));
    match ParseDigits(u)
    case None => None
    case Some(n) => Some(sign * n)
  }

  /** Text that starts with a decimal digit and no hexadecimal prefix parses
      to the value of its leading digits. */
  lemma ParseIntOfDecimal(s: string)
    requires s != [] && IsRadixDigit(s[0], 10) && !HasHexPrefix(s)
    ensures ParseInt(s) == Some(Value(DigitRun(s, 10), 10))
  {
    assert TrimStart(s) == s;
    assert SplitSign(s) == (1, s);
    assert DigitRun(s, 10) != [];
  }

  /** Leading digits followed by text that cannot continue the number parse
      to the digits' value: parseInt("40.5") is 40, parseInt("7 credits") is 7. */
  lemma ParseIntReadsDigitPrefix(n: nat, rest: string)
    requires rest == [] || (!IsRadixDigit(rest[0], 10) && rest[0] != 'x' && rest[0] != 'X')
    ensures ParseInt(NatToString(n) + rest) == Some(n)
  {
    var ds := NatToString(n);
    var s := ds + rest;
    assert s[0] == ds[0];
    assert !HasHexPrefix(s) by {
      if |ds| == 1 { assert s[1..] == rest; } else { assert s[1] == ds[1]; }
    }
    DigitRunStops(ds, rest, 10);
    ParseIntOfDecimal(s);
  }

  /** Rendering an integer and parsing it back yields the integer. */
  lemma ParseIntOfIntToString(i: int)
    ensures ParseInt(IntToString(i)) == Some(i)
  {
    if i < 0 {
      var ds := NatToString(-i);
      var s := "-" + ds;
      assert TrimStart(s) == s;
      assert s[1..] == ds;
      assert SplitSign(s) == (-1, ds);
      assert !HasHexPrefix(ds);
      DigitRunStops(ds, [], 10);
      assert ds + [] == ds;
    } else {
      ParseIntReadsDigitPrefix(i, []);
      assert NatToString(i) + [] == NatToString(i);
    }
  }

  /** The radix a "0x", "0o" or "0b" prefix (either case) selects for `Number`. */
  function RadixPrefix(t: string): (r: Option<nat>)
    ensures HasHexPrefix(t) <==> r == Some(16)
  {
    if |t| >= 2 && t[0] == '0' then
      if t[1] == 'x' || t[1] == 'X' then Some(16)
      else if t[1] == 'o' || t[1] == 'O' then Some(8)
      else if t[1] == 'b' || t[1] == 'B' then Some(2)
      else None
    else None
  }

  /** 10 to the power `n`. */
  function Pow10(n: nat): (r: nat)
    ensures r > 0
  {
    if n == 0 then 1 else 10 * Pow10(n - 1)
  }

  /** `x` times 10 to the power `e`. */
  function Scale(x: real, e: int): real {
    if e >= 0 then x * Pow10(e) as real else x / Pow10(-e) as real
  }

  /** The exponent part that ends a decimal literal: nothing (exponent 0), or
      'e'/'E', an optional sign and at least one digit. `None` when `x` is
      anything else. */
  function Exponent(x: string): Option<int> {
    if x == [] then Some(0)
    else if x[0] == 'e' || x[0] == 'E' then
      var (sign, ds) := SplitSign(x[1..]);
      if ds != [] && AllDigits(ds, 10) then Some(sign * Value(ds, 10)) else None
    else None
  }

  /** An unsigned decimal literal making up all of `u`: integer digits, an
      optional '.' followed by fraction digits, with at least one digit in
      all, then an optional exponent part. `None` when `u` has another form. */
  function DecimalLiteral(u: string): Option<real> {
    var whole := DigitRun(u, 10);
    AfterWhole(whole, u[|whole|..])
  }

  /** The rest of a decimal literal once its integer digits `whole` are read. */
  function AfterWhole(whole: string, rest: string): Option<real>
    requires AllDigits(whole, 10)
  {
    if rest != [] && rest[0] == '.' then
      var frac := DigitRun(rest[1..], 10);
      Mantissa(whole, frac, rest[1 + |frac|..])
    else Mantissa(whole, [], rest)
  }

  /** Integer digits `whole`, fraction digits `frac` and an exponent part `tail`. */
  function Mantissa(whole: string, frac: string, tail: string): Option<real>
    requires AllDigits(whole, 10) && AllDigits(frac, 10)
  {
    if whole == [] && frac == [] then None
    else
      match Exponent(tail)
      case None => None
      case Some(e) =>
        Some(Scale(Value(whole, 10) as real + Value(frac, 10) as real / Pow10(|frac|) as real, e))
  }

  /** `Number(s)` on text: surrounding white space is ignored and blank text
      is 0; "0x", "0o" and "0b" (either case) introduce unsigned hexadecimal,
      octal and binary digits; anything else is an optional sign followed by
      a decimal literal. `None` is `NaN`. "Infinity" is read as `NaN` too. */
  function ToNumber(s: string): Option<real> {
    NumberOfTrimmed(Trim(s))
  }

  /** `Number` of text `t` that has already been trimmed. */
  function NumberOfTrimmed(t: string): Option<real> {
    if t == [] then Some(0.0)
    else if RadixPrefix(t).Some? then
      var radix := RadixPrefix(t).value;
      if |t| > 2 && AllDigits(t[2..], radix) then Some(Value(t[2..], radix) as real) else None
    else
      var (sign, u) := SplitSign(t);
      match DecimalLiteral(u)
      case None => None
      case Some(x) => Some(sign as real * x)
  }

  /** The value of text in integer form: after trimming, blank, or "0x"/"0X"
      and hexadecimal digits, or an optional sign and decimal digits. `None`
      for text in any other form. */
  function IntegerValue(s: string): Option<int> {
    IntegerOfTrimmed(Trim(s))
  }

  function IntegerOfTrimmed(t: string): Option<int> {
    if t == [] then Some(0)
    else if HasHexPrefix(t) then
      (if |t| > 2 && AllDigits(t[2..], 16) then Some(Value(t[2..], 16)) else None)
    else
      var (sign, u) := SplitSign(t);
      if u != [] && AllDigits(u, 10) then Some(sign * Value(u, 10)) else None
  }

  /** Text in integer form. */
  predicate IntegerText(s: string) {
    IntegerValue(s).Some?
  }

  /** A decimal literal with neither point nor exponent is its digits' value. */
  lemma DecimalLiteralOfDigits(u: string)
    requires u != [] && AllDigits(u, 10)
    ensures DecimalLiteral(u) == Some(Value(u, 10) as real)
  {
    DigitRunStops(u, [], 10);
    assert u + [] == u;
    assert u[|u|..] == [];
    assert DecimalLiteral(u) == Mantissa(u, [], []);
    assert Exponent([]) == Some(0) && Value([], 10) == 0 && Pow10(0) == 1;
  }

  /** `Number` reads text in integer form as the integer it denotes. */
  lemma ToNumberOfIntegerText(s: string)
    requires IntegerText(s)
    ensures ToNumber(s) == Some(IntegerValue(s).value as real)
  {
    var t := Trim(s);
    if t != [] {
      if HasHexPrefix(t) {
        HexIntegerNumber(t);
      } else {
        DecimalIntegerNumber(t);
      }
    }
  }

  lemma HexIntegerNumber(t: string)
    requires IntegerOfTrimmed(t).Some? && HasHexPrefix(t)
    ensures NumberOfTrimmed(t) == Some(IntegerOfTrimmed(t).value as real)
  {
    assert RadixPrefix(t) == Some(16);
  }

  lemma DecimalIntegerNumber(t: string)
    requires IntegerOfTrimmed(t).Some? && t != [] && !HasHexPrefix(t)
    ensures NumberOfTrimmed(t) == Some(IntegerOfTrimmed(t).value as real)
  {
    var (sign, u) := SplitSign(t);
    assert IntegerOfTrimmed(t) == Some(sign * Value(u, 10)) && u != [] && AllDigits(u, 10);
    assert RadixPrefix(t).None? by {
      if |t| >= 2 && t[0] == '0' {
        assert u == t;
        assert IsRadixDigit(t[1], 10);
      }
    }
    DecimalLiteralOfDigits(u);
    SignedReal(sign, Value(u, 10));
  }

  lemma SignedReal(sign: int, v: nat)
    requires sign == 1 || sign == -1
    ensures sign as real * v as real == (sign * v) as real
  {
  }

  /** `Trim(s)` is `TrimStart(s)` without a tail of white space. */
  lemma TrimSplit(s: string) returns (tail: string)
    ensures TrimStart(s) == Trim(s) + tail
    ensures tail == [] || IsSpace(tail[0])
  {
    var t0 := TrimStart(s);
    var t := TrimEnd(t0);
    tail := t0[|t|..];
    assert t0 == t + tail;
    if tail != [] {
      assert tail[0] == t0[|t|];
    }
  }

  /** A "0x" literal followed by white space: parseInt reads the same digits. */
  lemma HexDigitsThenSpace(t: string, tail: string)
    requires HasHexPrefix(t) && |t| > 2 && AllDigits(t[2..], 16)
    requires tail == [] || IsSpace(tail[0])
    ensures SplitSign(t + tail) == (1, t + tail)
    ensures ParseDigits(t + tail) == Some(Value(t[2..], 16))
  {
    var u := t + tail;
    assert u[0] == '0' && u[1] == t[1];
    assert HasHexPrefix(u);
    assert u[2..] == t[2..] + tail;
    DigitRunStops(t[2..], tail, 16);
  }

  /** Decimal digits followed by white space: parseInt reads the same digits. */
  lemma DecimalDigitsThenSpace(u: string, tail: string)
    requires u != [] && AllDigits(u, 10)
    requires tail == [] || IsSpace(tail[0])
    ensures ParseDigits(u + tail) == Some(Value(u, 10))
  {
    var w := u + tail;
    assert !HasHexPrefix(w) by {
      if |u| >= 2 { assert w[1] == u[1]; } else { assert w[1..] == tail; }
    }
    DigitRunStops(u, tail, 10);
  }

  /** Text appended after a non-empty string does not change its sign. */
  lemma SplitSignAppend(t: string, tail: string)
    requires t != []
    ensures SplitSign(t + tail) == (SplitSign(t).0, SplitSign(t).1 + tail)
  {
    assert (t + tail)[0] == t[0];
    assert (t + tail)[1..] == t[1..] + tail;
  }

  /** Text in integer form that `parseInt` accepts denotes the same integer
      under `parseInt` and under `IntegerValue`: they differ only in that
      `parseInt` ignores trailing text. */
  lemma IntegerValueAgreesWithParseInt(s: string)
    requires ParseInt(s).Some? && IntegerText(s)
    ensures IntegerValue(s) == ParseInt(s)
  {
    var tail := TrimSplit(s);
    var t := Trim(s);
    if t == [] {
      // Only white space: parseInt finds no digit.
      assert false;
    } else if HasHexPrefix(t) {
      HexDigitsThenSpace(t, tail);
      assert IntegerValue(s) == Some(Value(t[2..], 16));
    } else {
      var (sign, u) := SplitSign(t);
      SplitSignAppend(t, tail);
      assert IntegerValue(s) == Some(sign * Value(u, 10));
      DecimalDigitsThenSpace(u, tail);
    }
  }

  /** For text in integer form, `Number` gives the number `parseInt` gives
      whenever `parseInt` gives one. */
  lemma ToNumberAgreesWithParseInt(s: string)
    requires ParseInt(s).Some? && IntegerText(s)
    ensures ToNumber(s) == Some(ParseInt(s).value as real)
  {
    IntegerValueAgreesWithParseInt(s);
    ToNumberOfIntegerText(s);
  }

  /** Outside integer form the two readings part: `Number` reads an exponent,
      a fraction and a binary prefix, where `parseInt` stops at the first
      character that is not a digit. */
  lemma NumberReadsBeyondParseInt(exponent: string, fraction: string, binary: string)
    requires exponent == "1e3" && fraction == "40.5" && binary == "0b1"
    ensures ToNumber(exponent) == Some(1000.0) && ParseInt(exponent) == Some(1)
    ensures ToNumber(fraction) == Some(40.5) && ParseInt(fraction) == Some(40)
    ensures ToNumber(binary) == Some(1.0) && ParseInt(binary) == Some(0)
  {
    ExponentExample(exponent);
    FractionExample(fraction);
    BinaryExample(binary);
  }

  /** Text that neither starts nor ends with white space is its own trim. */
  lemma TrimNoSpaceEnds(s: string)
    requires s != [] && !IsSpace(s[0]) && !IsSpace(s[|s| - 1])
    ensures Trim(s) == s
  {
    assert TrimStart(s) == s;
    assert TrimEnd(s) == s;
  }

  /** Trimmed text without sign or radix prefix is read by `Number` as a
      decimal literal. */
  lemma ToNumberUnsigned(s: string)
    requires s != [] && Trim(s) == s && RadixPrefix(s).None? && s[0] != '-' && s[0] != '+'
    ensures ToNumber(s) == DecimalLiteral(s)
  {
    assert SplitSign(s) == (1, s);
  }

  /** A decimal literal with digits and no point ends in its exponent part. */
  lemma DecimalLiteralWhole(whole: string, rest: string)
    requires whole != [] && AllDigits(whole, 10)
    requires rest == [] || (!IsRadixDigit(rest[0], 10) && rest[0] != '.')
    ensures DecimalLiteral(whole + rest) ==
              match Exponent(rest)
              case None => None
              case Some(e) => Some(Scale(Value(whole, 10) as real, e))
  {
    DecimalLiteralAfterDigits(whole, rest);
    MantissaOfWhole(whole, rest);
  }

  /** The integer digits of a decimal literal run up to the first non-digit. */
  lemma DecimalLiteralAfterDigits(whole: string, rest: string)
    requires AllDigits(whole, 10)
    requires rest == [] || !IsRadixDigit(rest[0], 10)
    ensures DecimalLiteral(whole + rest) == AfterWhole(whole, rest)
  {
    DigitRunStops(whole, rest, 10);
    assert (whole + rest)[|whole|..] == rest;
  }

  lemma MantissaOfWhole(whole: string, rest: string)
    requires AllDigits(whole, 10)
    ensures Mantissa(whole, [], rest) ==
              if whole == [] then None
              else match Exponent(rest)
                case None => None
                case Some(e) => Some(Scale(Value(whole, 10) as real, e))
  {
    var m := Value(whole, 10) as real + Value([], 10) as real / Pow10(0) as real;
    assert m == Value(whole, 10) as real by { assert Value([], 10) == 0; }
    if whole != [] {
      match Exponent(rest) {
        case None =>
        case Some(e) => assert Mantissa(whole, [], rest) == Some(Scale(m, e));
      }
    }
  }

  /** An exponent part "e" followed by digits. */
  lemma ExponentOfDigits(ds: string)
    requires ds != [] && AllDigits(ds, 10)
    ensures Exponent(['e'] + ds) == Some(Value(ds, 10))
  {
    assert (['e'] + ds)[1..] == ds;
    assert SplitSign(ds) == (1, ds);
  }

  lemma ExponentExample(s: string)
    requires s == "1e3"
    ensures ToNumber(s) == Some(1000.0) && ParseInt(s) == Some(1)
  {
    TrimNoSpaceEnds(s);
    ToNumberUnsigned(s);
    ExponentLiteral(s);
    ExponentParseInt(s);
  }

  lemma ExponentParseInt(s: string)
    requires s == "1e3"
    ensures ParseInt(s) == Some(1)
  {
    assert "1" + "e3" == s;
    DigitRunStops("1", "e3", 10);
    assert Value("1", 10) == 1;
    ParseIntOfDecimal(s);
  }

  lemma ExponentLiteral(s: string)
    requires s == "1e3"
    ensures DecimalLiteral(s) == Some(1000.0)
  {
    assert s == "1" + "e3";
    DecimalLiteralWhole("1", "e3");
    assert "e3" == ['e'] + "3";
    ExponentOfDigits("3");
    assert Value("1", 10) == 1;
    assert Scale(1.0, 3) == 1000.0 by { assert Pow10(3) == 1000; }
  }

  lemma FractionExample(s: string)
    requires s == "40.5"
    ensures ToNumber(s) == Some(40.5) && ParseInt(s) == Some(40)
  {
    TrimNoSpaceEnds(s);
    ToNumberUnsigned(s);
    FractionLiteral(s);
    FractionParseInt(s);
  }

  lemma FractionParseInt(s: string)
    requires s == "40.5"
    ensures ParseInt(s) == Some(40)
  {
    assert "40" + ".5" == s;
    DigitRunStops("40", ".5", 10);
    assert Value("40", 10) == 40 by { assert "40"[..1] == "4"; }
    ParseIntOfDecimal(s);
  }

  lemma FractionLiteral(s: string)
    requires s == "40.5"
    ensures DecimalLiteral(s) == Some(40.5)
  {
    assert "40" + ['.'] + "5" == s;
    DecimalLiteralFraction("40", "5");
    assert Value("40", 10) == 40 by { assert "40"[..1] == "4"; }
    assert Value("5", 10) == 5;
  }

  /** Whole digits, a point and fraction digits, with no exponent. */
  lemma DecimalLiteralFraction(whole: string, frac: string)
    requires whole != [] && AllDigits(whole, 10) && frac != [] && AllDigits(frac, 10)
    ensures DecimalLiteral(whole + ['.'] + frac) ==
              Some(Value(whole, 10) as real + Value(frac, 10) as real / Pow10(|frac|) as real)
  {
    var rest := ['.'] + frac;
    assert whole + ['.'] + frac == whole + rest;
    DecimalLiteralAfterDigits(whole, rest);
    AfterPoint(whole, frac);
    MantissaWithoutExponent(whole, frac);
  }

  lemma MantissaWithoutExponent(whole: string, frac: string)
    requires AllDigits(whole, 10) && AllDigits(frac, 10) && whole != []
    ensures Mantissa(whole, frac, []) ==
              Some(Value(whole, 10) as real + Value(frac, 10) as real / Pow10(|frac|) as real)
  {
    var m := Value(whole, 10) as real + Value(frac, 10) as real / Pow10(|frac|) as real;
    assert Exponent([]) == Some(0);
    assert Scale(m, 0) == m by { assert Pow10(0) == 1; }
  }

  /** After a point, the fraction digits run to the end of the text. */
  lemma AfterPoint(whole: string, frac: string)
    requires AllDigits(whole, 10) && AllDigits(frac, 10)
    ensures AfterWhole(whole, ['.'] + frac) == Mantissa(whole, frac, [])
  {
    var rest := ['.'] + frac;
    assert rest[1..] == frac + [];
    DigitRunStops(frac, [], 10);
    assert rest[1 + |frac|..] == [];
  }

  lemma BinaryExample(s: string)
    requires s == "0b1"
    ensures ToNumber(s) == Some(1.0) && ParseInt(s) == Some(0)
  {
    TrimNoSpaceEnds(s);
    assert Trim(s) == s;
    assert RadixPrefix(s) == Some(2);
    assert s[2..] == "1";
    assert AllDigits("1", 2) && Value("1", 2) == 1;
    assert ToNumber(s) == Some(1.0);
    assert "0" + "b1" == s;
    DigitRunStops("0", "b1", 10);
    ParseIntOfDecimal(s);
  }
}
