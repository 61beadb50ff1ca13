/**
 * The JavaScript string and number primitives that the portal's forms rely on:
 * `trim`, `toLowerCase`, `includes`, `parseInt`, `parseFloat` and the decimal
 * rendering of a non-negative integer. Strings are sequences of characters.
 */
module Text {

  datatype Option<T> = None | Some(value: T)

  /** The result of `parseFloat`: NaN, a finite value, or one of the infinities. */
  datatype JsNumber = NaN | Finite(value: real) | PosInfinity | NegInfinity

  // ---------------------------------------------------------------------------
  // Whitespace and trimming
  // ---------------------------------------------------------------------------

  /** The characters ECMAScript treats as white space or line terminators. */
  predicate IsWhiteSpace(c: char)
  {
    c == ' ' || c == '\t' || c == '\n' || c == '\r' || c == '\U{B}' || c == '\U{C}'
    || c == '\U{A0}' || c == '\U{1680}' || ('\U{2000}' <= c <= '\U{200A}')
    || c == '\U{2028}' || c == '\U{2029}' || c == '\U{202F}' || c == '\U{205F}'
    || c == '\U{3000}' || c == '\U{FEFF}'
  }

  /** A string made only of white space (the empty string included). */
  predicate IsBlank(s: string)
  {
    forall i :: 0 <= i < |s| ==> IsWhiteSpace(s[i])
  }

  /** Drops the leading white space, as the start of `trim` and of the number parsers do. */
  function TrimStart(s: string): (r: string)
    ensures |r| <= |s| && r == s[|s| - |r|..]
    ensures IsBlank(s[..|s| - |r|])
    ensures r == [] || !IsWhiteSpace(r[0])
  {
    if s == [] || !IsWhiteSpace(s[0]) then s
    else
      var r := TrimStart(s[1..]);
      assert s[1..][..|s| - 1 - |r|] == s[1..|s| - |r|];
      r
  }

  /** Drops the trailing white space. */
  function TrimEnd(s: string): (r: string)
    ensures |r| <= |s| && r == s[..|r|]
    ensures IsBlank(s[|r|..])
    ensures r == [] || !IsWhiteSpace(r[|r| - 1])
  {
    if s == [] || !IsWhiteSpace(s[|s| - 1]) then s
    else
      var r := TrimEnd(s[..|s| - 1]);
      assert s[..|s| - 1][|r|..] == s[|r|..|s| - 1];
      r
  }

  /** `String.prototype.trim`. */
  function Trim(s: string): (r: string)
  {
    TrimEnd(TrimStart(s))
  }

  /** A string is blank after `trim` exactly when it holds nothing but white space. */
  lemma TrimEmptyIffBlank(s: string)
    ensures Trim(s) == [] <==> IsBlank(s)
  {
    var t := TrimStart(s);
    if !IsBlank(s) {
      var i :| 0 <= i < |s| && !IsWhiteSpace(s[i]);
      assert t[i - (|s| - |t|)] == s[i];
    }
  }

  // ---------------------------------------------------------------------------
  // Case mapping and substring search
  // ---------------------------------------------------------------------------

  function LowerChar(c: char): char
  {
    if 'A' <= c <= 'Z' then (c as int - 'A' as int + 'a' as int) as char else c
  }

  /** `String.prototype.toLowerCase` on the ASCII letters; every other character is kept. */
  function ToLower(s: string): (r: string)
    ensures |r| == |s|
    ensures forall i :: 0 <= i < |s| ==> r[i] == LowerChar(s[i])
  {
    if s == [] then [] else [LowerChar(s[0])] + ToLower(s[1..])
  }

  /** Lower-casing works character by character, so it distributes over concatenation. */
  lemma ToLowerAppend(a: string, b: string)
    ensures ToLower(a + b) == ToLower(a) + ToLower(b)
  {
    assert forall i :: 0 <= i < |a + b| ==> ToLower(a + b)[i] == (ToLower(a) + ToLower(b))[i];
  }

  /** `sub` occurs in `s` starting at position `i`. */
  predicate OccursAt(s: string, sub: string, i: int)
  {
    0 <= i <= |s| - |sub| && s[i..i + |sub|] == sub
  }

  /** `s.includes(sub)`: `sub` occurs in `s` at some position. */
  predicate Contains(s: string, sub: string)
  {
    exists i | 0 <= i <= |s| - |sub| :: OccursAt(s, sub, i)
  }

  /** Case-insensitive search as the chatbot does it: lower-case the text, then `includes`. */
  predicate ContainsIgnoringCase(s: string, sub: string)
  {
    Contains(ToLower(s), sub)
  }

  /** A keyword found in a text is also found in any longer text around it. */
  lemma ContainsInContext(prefix: string, s: string, suffix: string, sub: string)
    requires Contains(s, sub)
    ensures Contains(prefix + s + suffix, sub)
  {
    var i :| 0 <= i <= |s| - |sub| && OccursAt(s, sub, i);
    var j := |prefix| + i;
    assert (prefix + s + suffix)[j..j + |sub|] == s[i..i + |sub|];
    assert OccursAt(prefix + s + suffix, sub, j);
  }

  // ---------------------------------------------------------------------------
  // Digits and numbers
  // ---------------------------------------------------------------------------

  /** The value of `c` as a digit in base `radix` (10 or 16), or -1 if it is not one. */
  function DigitValue(c: char, radix: nat): (d: int)
    requires radix == 10 || radix == 16
    ensures -1 <= d < radix as int
  {
    if '0' <= c <= '9' then c as int - '0' as int
    else if radix == 16 && 'a' <= c <= 'f' then c as int - 'a' as int + 10
    else if radix == 16 && 'A' <= c <= 'F' then c as int - 'A' as int + 10
    else -1
  }

  /** The length of the longest prefix of `s` made of base-`radix` digits. */
  function DigitPrefixLength(s: string, radix: nat): (n: nat)
    requires radix == 10 || radix == 16
    ensures n <= |s|
    ensures forall i :: 0 <= i < n ==> DigitValue(s[i], radix) >= 0
    ensures n < |s| ==> DigitValue(s[n], radix) < 0
  {
    if s == [] || DigitValue(s[0], radix) < 0 then 0 else 1 + DigitPrefixLength(s[1..], radix)
  }

  /** The value of a run of base-`radix` digits, most significant first. */
  function DigitsValue(s: string, radix: nat): nat
    requires radix == 10 || radix == 16
    requires forall i :: 0 <= i < |s| ==> DigitValue(s[i], radix) >= 0
  {
    if s == [] then 0
    else DigitsValue(s[..|s| - 1], radix) * radix + DigitValue(s[|s| - 1], radix)
  }

  function DigitChar(d: nat): (c: char)
    requires d < 10
    ensures DigitValue(c, 10) == d
  {
    ('0' as int + d) as char
  }

  /** The decimal rendering of `n`, as a template literal `${n}` prints it. */
  function NatToString(n: nat): (s: string)
    ensures |s| > 0
    ensures forall i :: 0 <= i < |s| ==> DigitValue(s[i], 10) >= 0
  {
    if n < 10 then [DigitChar(n)] else NatToString(n / 10) + [DigitChar(n % 10)]
  }

  /** Reading back the rendering of a number gives the number. */
  lemma {:induction false} NatToStringValue(n: nat)
    ensures DigitsValue(NatToString(n), 10) == n
  {
    var s := NatToString(n);
    if n >= 10 {
      NatToStringValue(n / 10);
      assert s[..|s| - 1] == NatToString(n / 10);
    }
  }

  /** Distinct numbers have distinct renderings. */
  lemma NatToStringInjective(a: nat, b: nat)
    requires NatToString(a) == NatToString(b)
    ensures a == b
  {
    NatToStringValue(a);
    NatToStringValue(b);
  }

  /** An optional leading `-` or `+`: whether it was `-`, and what follows the sign. */
  function Sign(t: string): (bool, string)
  {
    if |t| > 0 && (t[0] == '-' || t[0] == '+') then (t[0] == '-', t[1..]) else (false, t)
  }

  /** The value of the longest run of base-`radix` digits at the start of `v`, if the run
      is not empty. */
  function LeadingDigits(v: string, radix: nat): Option<nat>
    requires radix == 10 || radix == 16
  {
    var n := DigitPrefixLength(v, radix);
    if n == 0 then None
    else
      assert forall i :: 0 <= i < n ==> v[..n][i] == v[i];
      Some(DigitsValue(v[..n], radix))
  }

  function Negate(negative: bool, m: nat): int
  {
    if negative then -(m as int) else m
  }

  /** A `0x` or `0X` prefix, which makes `parseInt` read base 16. */
  predicate HexPrefixed(u: string)
  {
    |u| >= 2 && u[0] == '0' && (u[1] == 'x' || u[1] == 'X')
  }

  /** `parseInt` on the text after the sign. */
  function ParseUnsigned(negative: bool, u: string): Option<int>
  {
    var digits := if HexPrefixed(u) then LeadingDigits(u[2..], 16) else LeadingDigits(u, 10);
    match digits
    case None => None
    case Some(m) => Some(Negate(negative, m))
  }

  /** `parseInt(s)` without a radix: leading white space, an optional sign, a `0x`/`0X`
      prefix selecting base 16, then the longest run of digits; NaN (here `None`) if the
      run is empty. */
  function ParseInt(s: string): Option<int>
  {
    var signed := Sign(TrimStart(s));
    ParseUnsigned(signed.0, signed.1)
  }

  /** `parseInt` reads back every decimal rendering exactly. */
  lemma ParseIntOfNatToString(n: nat)
    ensures ParseInt(NatToString(n)) == Some(n)
  {
    ParseIntOfDigits(NatToString(n));
    NatToStringValue(n);
  }

  /** A non-empty run of decimal digits is read by `parseInt` as its decimal value. */
  lemma ParseIntOfDigits(s: string)
    requires s != [] && forall i :: 0 <= i < |s| ==> DigitValue(s[i], 10) >= 0
    ensures ParseInt(s) == Some(DigitsValue(s, 10))
  {
    DigitsUntrimmed(s);
    DigitsUnsigned(s);
    DigitsNotHex(s);
    LeadingDigitsOfDigits(s, 10);
  }

  /** A run of decimal digits has no leading white space. */
  lemma DigitsUntrimmed(s: string)
    requires s != [] && forall i :: 0 <= i < |s| ==> DigitValue(s[i], 10) >= 0
    ensures TrimStart(s) == s
  {
    assert DigitValue(s[0], 10) >= 0;
  }

  /** A run of decimal digits has no sign. */
  lemma DigitsUnsigned(s: string)
    requires s != [] && forall i :: 0 <= i < |s| ==> DigitValue(s[i], 10) >= 0
    ensures Sign(s) == (false, s)
  {
    assert DigitValue(s[0], 10) >= 0;
  }

  /** A run of decimal digits has no hex prefix. */
  lemma DigitsNotHex(s: string)
    requires s != [] && forall i :: 0 <= i < |s| ==> DigitValue(s[i], 10) >= 0
    ensures !HexPrefixed(s)
  {
    if |s| >= 2 {
      assert DigitValue(s[1], 10) >= 0;
    }
  }

  lemma LeadingDigitsOfDigits(s: string, radix: nat)
    requires radix == 10 || radix == 16
    requires s != [] && forall i :: 0 <= i < |s| ==> DigitValue(s[i], radix) >= 0
    ensures LeadingDigits(s, radix) == Some(DigitsValue(s, radix))
  {
    DigitPrefixOfDigits(s, radix);
    assert s[..|s|] == s;
  }

  lemma {:induction false} DigitPrefixOfDigits(s: string, radix: nat)
    requires radix == 10 || radix == 16
    requires forall i :: 0 <= i < |s| ==> DigitValue(s[i], radix) >= 0
    ensures DigitPrefixLength(s, radix) == |s|
  {
    if s != [] {
      DigitPrefixOfDigits(s[1..], radix);
    }
  }

  function Pow10(e: nat): (p: real)
    ensures p >= 1.0
  {
    if e == 0 then 1.0 else 10.0 * Pow10(e - 1)
  }

  /** The exponent part `e`/`E`, optional sign, digits, of a decimal literal, if present
      at the start of `s`; otherwise `parseFloat` ignores the `e`. */
  function ExponentPart(s: string): Option<int>
  {
    if |s| == 0 || (s[0] != 'e' && s[0] != 'E') then None
    else
      var (negative, u) := Sign(s[1..]);
      match LeadingDigits(u, 10)
      case None => None
      case Some(m) => Some(Negate(negative, m))
  }

  /** The unsigned decimal literal `digits[.digits]` at the start of `u`, with the text
      after it; `None` when it has no digit at all. */
  function DecimalPart(u: string): Option<(real, string)>
  {
    var k := DigitPrefixLength(u, 10);
    var whole := match LeadingDigits(u, 10) case None => 0.0 case Some(w) => w as real;
    var rest := u[k..];
    if |rest| > 0 && rest[0] == '.' then
      var f := DigitPrefixLength(rest[1..], 10);
      var fraction := match LeadingDigits(rest[1..], 10) case None => 0.0 case Some(d) => d as real / Pow10(f);
      if k == 0 && f == 0 then None else Some((whole + fraction, rest[1 + f..]))
    else if k == 0 then None
    else Some((whole, rest))
  }

  /** Whether `u` starts with the word `Infinity`. */
  predicate InfinityPrefixed(u: string)
  {
    && |u| >= 8 && u[0] == 'I' && u[1] == 'n' && u[2] == 'f' && u[3] == 'i'
    && u[4] == 'n' && u[5] == 'i' && u[6] == 't' && u[7] == 'y'
  }

  function Scale(mantissa: real, e: int): real
  {
    if e >= 0 then mantissa * Pow10(e) else mantissa / Pow10(-e)
  }

  /** `parseFloat(s)` over the reals: leading white space, an optional sign, then either
      `Infinity` or the longest decimal literal `digits[.digits][e[sign]digits]` that has at
      least one digit before the exponent; NaN otherwise. */
  function ParseFloat(s: string): JsNumber
  {
    var signed := Sign(TrimStart(s));
    ParseFloatUnsigned(signed.0, signed.1)
  }

  /** `parseFloat` on the text after the sign. */
  function ParseFloatUnsigned(negative: bool, u: string): JsNumber
  {
    if InfinityPrefixed(u) then (if negative then NegInfinity else PosInfinity)
    else
      match DecimalPart(u)
      case None => NaN
      case Some((mantissa, tail)) =>
        var magnitude := match ExponentPart(tail) case None => mantissa case Some(e) => Scale(mantissa, e);
        Finite(if negative then -magnitude else magnitude)
  }

  /** A non-empty run of decimal digits, optionally after a `-`, is read by `parseFloat`
      as its decimal value with that sign. */
  lemma ParseFloatOfDigits(negative: bool, s: string)
    requires s != [] && forall i :: 0 <= i < |s| ==> DigitValue(s[i], 10) >= 0
    ensures var value := DigitsValue(s, 10) as real;
      ParseFloat((if negative then "-" else "") + s) == Finite(if negative then -value else value)
  {
    if negative {
      NegatedDigits(s);
    } else {
      assert "" + s == s;
      DigitsUntrimmed(s);
      DigitsUnsigned(s);
    }
    UnsignedDigitsFloat(negative, s);
  }

  lemma UnsignedDigitsFloat(negative: bool, s: string)
    requires s != [] && forall i :: 0 <= i < |s| ==> DigitValue(s[i], 10) >= 0
    ensures var value := DigitsValue(s, 10) as real;
      ParseFloatUnsigned(negative, s) == Finite(if negative then -value else value)
  {
    DecimalOfDigits(s);
    assert ExponentPart([]) == None;
  }

  /** A `-` before a run of digits is its sign, and nothing is trimmed. */
  lemma NegatedDigits(s: string)
    requires s != [] && forall i :: 0 <= i < |s| ==> DigitValue(s[i], 10) >= 0
    ensures Sign(TrimStart("-" + s)) == (true, s)
  {
    var t := "-" + s;
    assert t[0] == '-';
    assert TrimStart(t) == t;
    assert t[1..] == s;
  }

  /** A run of digits is a whole decimal literal, and not `Infinity`. */
  lemma DecimalOfDigits(s: string)
    requires s != [] && forall i :: 0 <= i < |s| ==> DigitValue(s[i], 10) >= 0
    ensures DecimalPart(s) == Some((DigitsValue(s, 10) as real, []))
    ensures !InfinityPrefixed(s)
  {
    assert DigitValue(s[0], 10) >= 0;
    LeadingDigitsOfDigits(s, 10);
    DigitPrefixOfDigits(s, 10);
    assert s[|s|..] == [];
  }
}
