/** An optional value: `None` stands for JavaScript's `undefined`. */
module Maybe {

  datatype Option<+T> = None | Some(value: T)
}

/**
 The handful of JavaScript string primitives the saved-replies picker relies on:
 `String.prototype.toLowerCase` (on ASCII letters), `String.prototype.includes`,
 `Number.prototype.toString` on non-negative integers (and template
 interpolation, which uses it), and `parseInt(s, 10)`.
 */
module JsString {

  /* ---------------------------------------------------------------------- */
  /* toLowerCase                                                             */
  /* ---------------------------------------------------------------------- */

  predicate IsUpper(c: char) {
    'A' <= c <= 'Z'
  }

  /** Case mapping of one character; only the ASCII letters A-Z change. */
  function LowerChar(c: char): (l: char)
    ensures !IsUpper(l)
    ensures !IsUpper(c) ==> l == c
  {
    if IsUpper(c) then (c as int + 32) as char else c
  }

  /** `s.toLowerCase()`, character by character. */
  function Lower(s: string): (l: string)
    ensures |l| == |s|
    ensures forall i :: 0 <= i < |s| ==> l[i] == LowerChar(s[i])
  {
    seq(|s|, i requires 0 <= i < |s| => LowerChar(s[i]))
  }

  /**
   Reference definition of ASCII case-insensitive equality of two characters:
   equal, or the same letter once in upper and once in lower case.
   */
  predicate SameIgnoringCase(c: char, d: char) {
    || c == d
    || (IsUpper(c) && d as int == c as int + 32)
    || (IsUpper(d) && c as int == d as int + 32)
  }

  /** Two strings lower to the same string exactly when they agree position by position, ignoring case. */
  lemma LowerEqualIff(s: string, t: string)
    ensures Lower(s) == Lower(t) <==>
            |s| == |t| && forall i :: 0 <= i < |s| ==> SameIgnoringCase(s[i], t[i])
  {
    if Lower(s) == Lower(t) {
      forall i | 0 <= i < |s|
        ensures SameIgnoringCase(s[i], t[i])
      {
        assert Lower(s)[i] == Lower(t)[i];
      }
    }
    if |s| == |t| && forall i :: 0 <= i < |s| ==> SameIgnoringCase(s[i], t[i]) {
      forall i | 0 <= i < |s|
        ensures Lower(s)[i] == Lower(t)[i]
      {
        assert SameIgnoringCase(s[i], t[i]);
      }
    }
  }

  /* ---------------------------------------------------------------------- */
  /* includes                                                                */
  /* ---------------------------------------------------------------------- */

  predicate StartsWith(s: string, prefix: string) {
    |prefix| <= |s| && s[..|prefix|] == prefix
  }

  /** `s.includes(sub)`: `sub` starts at some position of `s`. The empty string is included everywhere. */
  predicate Includes(s: string, sub: string)
    decreases |s|
  {
    StartsWith(s, sub) || (|s| > 0 && Includes(s[1..], sub))
  }

  /** Reference definition of containment: `sub` occupies positions `i .. i+|sub|` of `s`. */
  predicate OccursAt(s: string, sub: string, i: int) {
    0 <= i && i + |sub| <= |s| && s[i..i + |sub|] == sub
  }

  /** The scanning definition of `Includes` agrees with the positional one, in both directions. */
  lemma {:induction false} IncludesIffOccurs(s: string, sub: string)
    ensures Includes(s, sub) <==> exists i :: OccursAt(s, sub, i)
    decreases |s|
  {
    if StartsWith(s, sub) {
      assert OccursAt(s, sub, 0);
    } else {
      if |sub| <= |s| {
        assert s[0..|sub|] == s[..|sub|];
      }
      if |s| > 0 {
        IncludesIffOccurs(s[1..], sub);
        if Includes(s[1..], sub) {
          var i :| OccursAt(s[1..], sub, i);
          assert s[1..][i..i + |sub|] == s[i + 1..i + 1 + |sub|];
          assert OccursAt(s, sub, i + 1);
        }
        forall i | OccursAt(s, sub, i)
          ensures OccursAt(s[1..], sub, i - 1)
        {
          assert s[1..][i - 1..i - 1 + |sub|] == s[i..i + |sub|];
        }
      }
    }
  }

  /** Every string includes the empty string. */
  lemma IncludesEmpty(s: string)
    ensures Includes(s, "")
  {
    assert StartsWith(s, "");
  }

  /* ---------------------------------------------------------------------- */
  /* Decimal digits                                                          */
  /* ---------------------------------------------------------------------- */

  predicate IsDigit(c: char) {
    '0' <= c <= '9'
  }

  predicate AllDigits(s: string) {
    forall i :: 0 <= i < |s| ==> IsDigit(s[i])
  }

  function DigitChar(d: nat): (c: char)
    requires d < 10
    ensures IsDigit(c)
  {
    ('0' as int + d) as char
  }

  function DigitValue(c: char): (d: nat)
    requires IsDigit(c)
    ensures d < 10 && DigitChar(d) == c
  {
    c as int - '0' as int
  }

  /** The value of a string of decimal digits, most significant first. */
  function DigitsValue(s: string): nat
    requires AllDigits(s)
  {
    if |s| == 0 then 0 else DigitsValue(s[..|s| - 1]) * 10 + DigitValue(s[|s| - 1])
  }

  /** `n.toString()` for a non-negative integer: its shortest decimal numeral. */
  function Decimal(n: nat): (s: string)
    ensures |s| >= 1 && AllDigits(s)
    ensures s[0] == '0' ==> n == 0
    decreases n
  {
    if n < 10 then [DigitChar(n)] else Decimal(n / 10) + [DigitChar(n % 10)]
  }

  /** Reading back the numeral of `n` yields `n`. */
  lemma {:induction false} DecimalRoundTrip(n: nat)
    ensures DigitsValue(Decimal(n)) == n
    decreases n
  {
    if n >= 10 {
      var s := Decimal(n);
      assert s[..|s| - 1] == Decimal(n / 10);
      DecimalRoundTrip(n / 10);
    }
  }

  /** Distinct numbers have distinct numerals. */
  lemma DecimalInjective(m: nat, n: nat)
    ensures Decimal(m) == Decimal(n) <==> m == n
  {
    if Decimal(m) == Decimal(n) {
      DecimalRoundTrip(m);
      DecimalRoundTrip(n);
    }
  }

  /* ---------------------------------------------------------------------- */
  /* parseInt(s, 10)                                                         */
  /* ---------------------------------------------------------------------- */

  /** The characters `parseInt` skips before the number: ECMAScript WhiteSpace and LineTerminator. */
  predicate IsJsWhiteSpace(c: char) {
    || c == '\t' || c == '\n' || c == '\U{B}' || c == '\U{C}' || c == '\r' || c == ' '
    || c == '\U{A0}' || c == '\U{1680}' || ('\U{2000}' <= c <= '\U{200A}')
    || c == '\U{2028}' || c == '\U{2029}' || c == '\U{202F}' || c == '\U{205F}'
    || c == '\U{3000}' || c == '\U{FEFF}'
  }

  /** Every character of `ws` is white space. */
  predicate AllWhiteSpace(ws: string) {
    |ws| == 0 || (IsJsWhiteSpace(ws[0]) && AllWhiteSpace(ws[1..]))
  }

  /** Drops leading white space. */
  function TrimStart(s: string): (t: string)
    ensures |t| <= |s| && t == s[|s| - |t|..]
    ensures |t| > 0 ==> !IsJsWhiteSpace(t[0])
  {
    if |s| > 0 && IsJsWhiteSpace(s[0]) then TrimStart(s[1..]) else s
  }

  /** What `TrimStart` removes is all white space. */
  lemma {:induction false} TrimStartDropsWhiteSpace(s: string)
    ensures AllWhiteSpace(s[..|s| - |TrimStart(s)|])
    decreases |s|
  {
    var k := |s| - |TrimStart(s)|;
    if |s| > 0 && IsJsWhiteSpace(s[0]) {
      var t := s[1..];
      assert TrimStart(s) == TrimStart(t);
      TrimStartDropsWhiteSpace(t);
      var p := s[..k];
      assert p[0] == s[0];
      assert p[1..] == t[..|t| - |TrimStart(t)|];
    } else {
      assert TrimStart(s) == s;
      assert s[..k] == [];
    }
  }

  /** The longest prefix of `s` made of decimal digits. */
  function DigitPrefix(s: string): (p: string)
    ensures StartsWith(s, p) && AllDigits(p)
    ensures |p| < |s| ==> !IsDigit(s[|p|])
  {
    if |s| > 0 && IsDigit(s[0]) then [s[0]] + DigitPrefix(s[1..]) else []
  }

  /** The result of `parseInt`: `NaN`, or a (mathematical) integer. */
  datatype ParsedInt = NaN | Finite(value: int)

  /** `t` without its first character when that is a sign. */
  function StripSign(t: string): string {
    if |t| > 0 && (t[0] == '+' || t[0] == '-') then t[1..] else t
  }

  predicate StartsWithMinus(t: string) {
    |t| > 0 && t[0] == '-'
  }

  /** `s` after leading white space and at most one sign character. */
  function Unsigned(s: string): string {
    StripSign(TrimStart(s))
  }

  predicate IsNegative(s: string) {
    StartsWithMinus(TrimStart(s))
  }

  /** `parseInt(s, 10)` once the leading white space is gone. */
  function ParseTrimmed(t: string): (r: ParsedInt)
    ensures r.NaN? <==> |StripSign(t)| == 0 || !IsDigit(StripSign(t)[0])
    ensures r.Finite? && r.value != 0 ==> (r.value < 0 <==> StartsWithMinus(t))
  {
    var digits := DigitPrefix(StripSign(t));
    if |digits| == 0 then NaN
    else if StartsWithMinus(t) then Finite(-(DigitsValue(digits) as int))
    else Finite(DigitsValue(digits))
  }

  /**
   `parseInt(s, 10)`: skip leading white space, take one optional sign, then the
   longest run of decimal digits; with no digit the result is NaN. Trailing
   characters are ignored.
   */
  function ParseInt10(s: string): (r: ParsedInt)
    ensures r.NaN? <==> |Unsigned(s)| == 0 || !IsDigit(Unsigned(s)[0])
    ensures r.Finite? && r.value != 0 ==> (r.value < 0 <==> IsNegative(s))
  {
    ParseTrimmed(TrimStart(s))
  }

  /** A digit string followed by a non-digit (or nothing) has exactly that digit string as its digit prefix. */
  lemma {:induction false} DigitPrefixOfNumeral(digits: string, rest: string)
    requires AllDigits(digits)
    requires |rest| == 0 || !IsDigit(rest[0])
    ensures DigitPrefix(digits + rest) == digits
    decreases |digits|
  {
    if |digits| > 0 {
      assert (digits + rest)[1..] == digits[1..] + rest;
      DigitPrefixOfNumeral(digits[1..], rest);
      assert [digits[0]] + digits[1..] == digits;
    } else {
      assert digits + rest == rest;
    }
  }

  /** `parseInt` reads back the numeral of `n` at the start of a string, whatever non-digit follows it. */
  lemma ParseIntOfDecimal(n: nat, rest: string)
    requires |rest| == 0 || !IsDigit(rest[0])
    ensures ParseInt10(Decimal(n) + rest) == Finite(n)
  {
    var s := Decimal(n) + rest;
    assert s[0] == Decimal(n)[0];
    assert IsDigit(s[0]) && !IsJsWhiteSpace(s[0]) && s[0] != '+' && s[0] != '-';
    assert TrimStart(s) == s;
    assert Unsigned(s) == s && !IsNegative(s);
    DigitPrefixOfNumeral(Decimal(n), rest);
    DecimalRoundTrip(n);
  }

  /** Leading white space is dropped up to the first character that is not white space. */
  lemma {:induction false} TrimStartOfWhiteSpace(ws: string, t: string)
    requires AllWhiteSpace(ws)
    requires |t| == 0 || !IsJsWhiteSpace(t[0])
    ensures TrimStart(ws + t) == t
    decreases |ws|
  {
    if |ws| > 0 {
      assert (ws + t)[0] == ws[0];
      assert (ws + t)[1..] == ws[1..] + t;
      TrimStartOfWhiteSpace(ws[1..], t);
    } else {
      assert ws + t == t;
    }
  }

  /** The optional sign character `parseInt` accepts before the digits. */
  datatype Sign = NoSign | Plus | Minus

  function SignText(sg: Sign): string {
    match sg
    case NoSign => ""
    case Plus => "+"
    case Minus => "-"
  }

  /** `parseInt` skips leading white space: what follows decides the result. */
  lemma ParseIntSkipsWhiteSpace(ws: string, t: string)
    requires AllWhiteSpace(ws)
    ensures ParseInt10(ws + t) == ParseInt10(t)
  {
    TrimStartSkipsWhiteSpace(ws, t);
  }

  /** Trimming white space followed by `t` gives the same as trimming `t` alone. */
  lemma {:induction false} TrimStartSkipsWhiteSpace(ws: string, t: string)
    requires AllWhiteSpace(ws)
    ensures TrimStart(ws + t) == TrimStart(t)
    decreases |ws|
  {
    if |ws| > 0 {
      assert (ws + t)[0] == ws[0];
      assert (ws + t)[1..] == ws[1..] + t;
      TrimStartSkipsWhiteSpace(ws[1..], t);
    } else {
      assert ws + t == t;
    }
  }

  /** Before a digit, the sign (if any) is stripped, and only `-` makes the run negative. */
  lemma StripSignOfRun(sg: Sign, tail: string)
    requires |tail| > 0 && IsDigit(tail[0])
    ensures StripSign(SignText(sg) + tail) == tail
    ensures StartsWithMinus(SignText(sg) + tail) <==> sg == Minus
  {
    match sg
    case NoSign =>
      assert SignText(sg) + tail == tail;
    case Plus =>
      assert (SignText(sg) + tail)[1..] == tail;
    case Minus =>
      assert (SignText(sg) + tail)[1..] == tail;
  }

  /** An optional sign before a run of digits gives the digits' value, negated for `-`. */
  lemma ParseTrimmedOfSignedRun(sg: Sign, digits: string, rest: string)
    requires |digits| > 0 && AllDigits(digits)
    requires |rest| == 0 || !IsDigit(rest[0])
    ensures ParseTrimmed(SignText(sg) + (digits + rest))
            == Finite(if sg == Minus then -(DigitsValue(digits) as int) else DigitsValue(digits))
  {
    var tail := digits + rest;
    assert tail[0] == digits[0];
    StripSignOfRun(sg, tail);
    DigitPrefixOfNumeral(digits, rest);
  }

  /**
   `parseInt` of white space, an optional sign, a run of digits (leading zeros
   allowed) and a tail that does not start with a digit: the signed value of
   the digits.
   */
  lemma ParseIntOfSignedDigits(ws: string, sg: Sign, digits: string, rest: string)
    requires AllWhiteSpace(ws)
    requires |digits| > 0 && AllDigits(digits)
    requires |rest| == 0 || !IsDigit(rest[0])
    ensures ParseInt10(ws + (SignText(sg) + (digits + rest)))
            == Finite(if sg == Minus then -(DigitsValue(digits) as int) else DigitsValue(digits))
  {
    var t := SignText(sg) + (digits + rest);
    assert t[0] == if sg == NoSign then digits[0] else SignText(sg)[0];
    TrimStartOfWhiteSpace(ws, t);
    ParseTrimmedOfSignedRun(sg, digits, rest);
  }

  /** In particular `parseInt` reads the signed numeral of `n` through white space and a sign. */
  lemma ParseIntOfSignedDecimal(ws: string, sg: Sign, n: nat, rest: string)
    requires AllWhiteSpace(ws)
    requires |rest| == 0 || !IsDigit(rest[0])
    ensures ParseInt10(ws + (SignText(sg) + (Decimal(n) + rest))) == Finite(if sg == Minus then -(n as int) else n)
  {
    ParseIntOfSignedDigits(ws, sg, Decimal(n), rest);
    DecimalRoundTrip(n);
  }

  /** A key that starts with neither white space, a sign nor a digit (like "Enter" or "a") parses to NaN. */
  lemma ParseIntOfWord(s: string)
    requires |s| > 0 && !IsJsWhiteSpace(s[0]) && s[0] != '+' && s[0] != '-' && !IsDigit(s[0])
    ensures ParseInt10(s) == NaN
  {
    assert TrimStart(s) == s;
  }
}
