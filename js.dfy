/**
 * The few JavaScript runtime facts the modelled code relies on: the values a
 * CSV cell can turn into, ASCII case folding and trimming, `String.split` and
 * `Array.join`, and the conversions between integers and their decimal text.
 */
module Js {

  /** A JavaScript value as far as the modelled code produces one.
      Numbers are modelled as integers, plus NaN and the two infinities. */
  datatype Value = Undefined | Str(s: string) | Num(n: int) | NaN | Infinity(negative: bool) | Bool(b: bool)

  // ---------------------------------------------------------------------------
  // Case folding and trimming (ASCII only)

  function LowerChar(c: char): char
  {
    if 'A' <= c <= 'Z' then (c as int + 32) as char else c
  }

  /** `String.prototype.toLowerCase`, restricted to ASCII letters. */
  function ToLower(s: string): (r: string)
    ensures |r| == |s|
    ensures forall i :: 0 <= i < |s| ==> r[i] == LowerChar(s[i])
  {
    seq(|s|, i requires 0 <= i < |s| => LowerChar(s[i]))
  }

  /** The ASCII white-space characters `String.prototype.trim` removes. */
  predicate IsWhitespace(c: char)
  {
    c == ' ' || '\t' <= c <= '\r'
  }

  function TrimStart(s: string): (r: string)
    ensures |r| <= |s| && r == s[|s| - |r|..]
    ensures |r| > 0 ==> !IsWhitespace(r[0])
  {
    if |s| > 0 && IsWhitespace(s[0]) then TrimStart(s[1..]) else s
  }

  function TrimEnd(s: string): (r: string)
    ensures |r| <= |s| && r == s[..|r|]
    ensures |r| > 0 ==> !IsWhitespace(r[|r| - 1])
  {
    if |s| > 0 && IsWhitespace(s[|s| - 1]) then TrimEnd(s[..|s| - 1]) else s
  }

  /** `String.prototype.trim`: strips leading and trailing white space. */
  function Trim(s: string): string
  {
    TrimEnd(TrimStart(s))
  }

  // ---------------------------------------------------------------------------
  // split and join

  /** `s.split(sep)` for a one-character separator: the pieces between the
      separators, one more piece than there are separators. */
  function Split(s: string, sep: char): (parts: seq<string>)
    ensures |parts| >= 1
  {
    if s == [] then [""]
    else
      var init := Split(s[..|s| - 1], sep);
      var c := s[|s| - 1];
      if c == sep then init + [""]
      else init[..|init| - 1] + [init[|init| - 1] + [c]]
  }

  /** `parts.join(sep)`. */
  function Join(parts: seq<string>, sep: string): string
  {
    if |parts| == 0 then ""
    else if |parts| == 1 then parts[0]
    else Join(parts[..|parts| - 1], sep) + sep + parts[|parts| - 1]
  }

  /** `s.split(sep).pop()`: what follows the last separator. */
  function LastSegment(s: string, sep: char): string
  {
    var parts := Split(s, sep);
    parts[|parts| - 1]
  }

  /** Joining the pieces of a split with the separator gives back the string. */
  lemma {:induction false} JoinSplit(s: string, sep: char)
    ensures Join(Split(s, sep), [sep]) == s
  {
    if s != [] {
      var init := Split(s[..|s| - 1], sep);
      var c := s[|s| - 1];
      JoinSplit(s[..|s| - 1], sep);
      assert s == s[..|s| - 1] + [c];
      if c == sep {
        JoinEmptyLast(init, [sep]);
      } else {
        JoinExtendLast(init, [sep], c);
      }
    }
  }

  /** An empty last piece adds one separator. */
  lemma JoinEmptyLast(parts: seq<string>, sep: string)
    requires |parts| >= 1
    ensures Join(parts + [""], sep) == Join(parts, sep) + sep
  {
    var ps := parts + [""];
    assert ps[..|ps| - 1] == parts;
  }

  /** A character added to the last piece ends the joined string. */
  lemma JoinExtendLast(parts: seq<string>, sep: string, c: char)
    requires |parts| >= 1
    ensures Join(parts[..|parts| - 1] + [parts[|parts| - 1] + [c]], sep) == Join(parts, sep) + [c]
  {
    var ps := parts[..|parts| - 1] + [parts[|parts| - 1] + [c]];
    if |parts| > 1 {
      assert ps[..|ps| - 1] == parts[..|parts| - 1];
    }
  }

  /** No piece of a split contains the separator. */
  lemma {:induction false} SplitPiecesFree(s: string, sep: char)
    ensures forall p :: p in Split(s, sep) ==> sep !in p
  {
    if s != [] {
      var init := Split(s[..|s| - 1], sep);
      var c := s[|s| - 1];
      SplitPiecesFree(s[..|s| - 1], sep);
      if c != sep {
        var parts := init[..|init| - 1] + [init[|init| - 1] + [c]];
        assert init[|init| - 1] in init;
        forall p | p in parts ensures sep !in p {
          if p != init[|init| - 1] + [c] {
            assert p in init[..|init| - 1];
          }
        }
      }
    }
  }

  /** Splitting a join of separator-free pieces gives back the pieces. */
  lemma {:induction false} SplitJoin(parts: seq<string>, sep: char)
    requires |parts| >= 1
    requires forall i :: 0 <= i < |parts| ==> sep !in parts[i]
    ensures Split(Join(parts, [sep]), sep) == parts
  {
    if |parts| == 1 {
      SplitFree([], sep, parts[0]);
      assert parts[0] == [] + parts[0];
    } else {
      var init := parts[..|parts| - 1];
      SplitJoin(init, sep);
      SplitAppendFree(Join(init, [sep]), sep, parts[|parts| - 1]);
      assert parts == init + [parts[|parts| - 1]];
    }
  }

  /** Text free of the separator, appended after a separator, is one more piece. */
  lemma {:induction false} SplitAppendFree(a: string, sep: char, b: string)
    requires sep !in b
    ensures Split(a + [sep] + b, sep) == Split(a, sep) + [b]
  {
    var s := a + [sep];
    assert s[..|s| - 1] == a;
    SplitFree(s, sep, b);
  }

  /** Appending separator-free text to a string ending in a separator (or to
      the empty string) extends its last piece from empty to that text. */
  lemma {:induction false} SplitFree(a: string, sep: char, b: string)
    requires a == [] || a[|a| - 1] == sep
    requires sep !in b
    ensures Split(a + b, sep) == Split(a, sep)[..|Split(a, sep)| - 1] + [b]
    ensures Split(a, sep)[|Split(a, sep)| - 1] == []
    decreases |b|
  {
    if b == [] {
      assert a + b == a;
    } else {
      var b' := b[..|b| - 1];
      var c := b[|b| - 1];
      SplitFree(a, sep, b');
      var s := a + b;
      assert s[..|s| - 1] == a + b';
      assert b == b' + [c];
    }
  }

  /** The last segment is the longest suffix free of the separator: it has no
      separator, it ends the string, and it is either the whole string or
      preceded by a separator. */
  lemma {:induction false} LastSegmentIsMaximalSuffix(s: string, sep: char)
    ensures var e := LastSegment(s, sep);
      && sep !in e
      && |e| <= |s| && s[|s| - |e|..] == e
      && (|e| < |s| ==> s[|s| - |e| - 1] == sep)
  {
    if s != [] {
      var t := s[..|s| - 1];
      LastSegmentIsMaximalSuffix(t, sep);
      var e' := LastSegment(t, sep);
      var c := s[|s| - 1];
      if c != sep {
        var e := LastSegment(s, sep);
        assert e == e' + [c];
        assert s[|s| - |e|..] == t[|t| - |e'|..] + [c];
      }
    }
  }

  // ---------------------------------------------------------------------------
  // Integers and their decimal text

  predicate IsDigit(c: char)
  {
    '0' <= c <= '9'
  }

  predicate AllDigits(s: string)
  {
    forall i :: 0 <= i < |s| ==> IsDigit(s[i])
  }

  function DigitChar(d: nat): (c: char)
    requires d < 10
    ensures IsDigit(c)
  {
    ('0' as int + d) as char
  }

  /** The decimal text of a natural number, without leading zeros. */
  function NatToString(n: nat): (r: string)
    ensures |r| > 0 && AllDigits(r)
  {
    if n < 10 then [DigitChar(n)]
    else NatToString(n / 10) + [DigitChar(n % 10)]
  }

  /** The value of a string of decimal digits. */
  function DigitsValue(s: string): nat
    requires AllDigits(s)
  {
    if s == [] then 0
    else DigitsValue(s[..|s| - 1]) * 10 + (s[|s| - 1] as int - '0' as int)
  }

  /** How JavaScript prints an integer-valued number (`${n}`, `String(n)`). */
  function NumberToString(x: int): string
  {
    if x < 0 then "-" + NatToString(-x) else NatToString(x)
  }

  /** An optionally signed decimal integer numeral. */
  predicate IsNumeral(s: string)
  {
    || (s != "" && AllDigits(s))
    || (|s| > 1 && (s[0] == '-' || s[0] == '+') && AllDigits(s[1..]))
  }

  /** The integer a numeral denotes. */
  function NumeralValue(s: string): int
    requires IsNumeral(s)
  {
    if AllDigits(s) then DigitsValue(s)
    else if s[0] == '-' then -(DigitsValue(s[1..]) as int)
    else DigitsValue(s[1..])
  }

  /** The least magnitude that rounds to Infinity as an IEEE 754 double:
      2^1024 - 2^970, halfway between the largest finite double and 2^1024,
      where rounding to even goes up. */
  const DoubleOverflow: nat := 179769313486231580793728971405303415079934132710037826936173778980444968292764750946649017977587207096330286416692887910946555547851940402630657488671505820681908902000708383676273854845817711531764475730270069855571366959622842914819860834936475292719074168444365510704342711559699508093042880177904174497792

  /** `Number.MAX_SAFE_INTEGER`, 2^53 - 1. */
  const MaxSafeInteger: nat := 9007199254740991

  /** `Number.isSafeInteger`: an integer no larger in magnitude than
      `Number.MAX_SAFE_INTEGER`. */
  predicate IsSafeInteger(v: Value)
  {
    v.Num? && -(MaxSafeInteger as int) <= v.n <= MaxSafeInteger
  }

  /** `Number(s)`: the empty string is 0; `Infinity` with an optional sign is
      that infinity; an optionally signed decimal numeral is its value, or an
      infinity when its magnitude is too large for a double; anything else is
      NaN. */
  function Number(s: string): Value
  {
    if s == "" then Num(0)
    else if s == "Infinity" || s == "+Infinity" then Infinity(false)
    else if s == "-Infinity" then Infinity(true)
    else if IsNumeral(s) then
      var x := NumeralValue(s);
      if x >= DoubleOverflow then Infinity(false)
      else if x <= -(DoubleOverflow as int) then Infinity(true)
      else Num(x)
    else NaN
  }

  lemma {:induction false} DigitsValueOfNatToString(n: nat)
    ensures DigitsValue(NatToString(n)) == n
  {
    if n >= 10 {
      DigitsValueOfNatToString(n / 10);
      var s := NatToString(n);
      assert s[..|s| - 1] == NatToString(n / 10);
    }
  }

  /** The decimal text of an integer is a numeral denoting it. */
  lemma NumeralOfNumberToString(x: int)
    ensures IsNumeral(NumberToString(x)) && NumeralValue(NumberToString(x)) == x
  {
    if x < 0 {
      var s := NumberToString(x);
      DigitsValueOfNatToString(-x);
      assert s[1..] == NatToString(-x);
      assert !IsDigit(s[0]);
    } else {
      DigitsValueOfNatToString(x);
    }
  }

  /** `Number` reads back what `NumberToString` prints, for every integer a
      double holds without overflow. */
  lemma NumberOfNumberToString(x: int)
    requires -(DoubleOverflow as int) < x < DoubleOverflow
    ensures Number(NumberToString(x)) == Num(x)
  {
    NumeralOfNumberToString(x);
    var s := NumberToString(x);
    assert s != "Infinity" && s != "+Infinity" && s != "-Infinity" by {
      assert IsDigit(s[0]) || (s[0] == '-' && IsDigit(s[1]));
    }
  }

  /** Distinct integers print differently, and the text never holds `|`. */
  lemma NumberToStringInjective(x: int, y: int)
    ensures NumberToString(x) == NumberToString(y) <==> x == y
    ensures '|' !in NumberToString(x)
  {
    NumeralOfNumberToString(x);
    NumeralOfNumberToString(y);
    var s := NumberToString(x);
    assert forall i :: 0 <= i < |s| ==> IsDigit(s[i]) || s[i] == '-';
  }
}
