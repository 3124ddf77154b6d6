/**
 * The pieces of JavaScript's built-in behaviour that the upload pipeline and
 * the two client components lean on: exceptions, the number type as far as
 * `isNaN` and `> 0` see it, `String.prototype.trim`, the decimal text of an
 * integer, `padStart` and `Array.prototype.join`.
 */
module JsBuiltins {

  /** The outcome of evaluating JavaScript code: a value, or a thrown exception. */
  datatype Completion<+T> = Normal(value: T) | Throws

  datatype Option<+T> = None | Some(value: T)

  /** A JavaScript number: NaN, an infinity, or a finite value. */
  datatype JsNumber = NaN | Infinity(negative: bool) | Finite(x: real)

  /** `isNaN(n)` once the argument has been converted to a number. */
  predicate IsNaN(n: JsNumber) {
    n.NaN?
  }

  /** `n > 0`: false for NaN and for negative infinity. */
  predicate AboveZero(n: JsNumber) {
    match n
    case NaN => false
    case Infinity(negative) => !negative
    case Finite(x) => x > 0.0
  }

  // ---------------------------------------------------------------------------
  // String.prototype.trim
  // ---------------------------------------------------------------------------

  /**
   * ECMAScript WhiteSpace and LineTerminator code points: tab, vertical tab,
   * form feed, space, no-break space, the byte order mark, the other
   * space separators of Unicode (category Zs), line feed, carriage return,
   * line separator and paragraph separator.
   */
  predicate IsWhiteSpace(c: char) {
    || c == '\t' || c == '\U{000B}' || c == '\U{000C}' || c == ' '
    || c == '\U{00A0}' || c == '\U{FEFF}'
    || c == '\U{1680}' || ('\U{2000}' <= c <= '\U{200A}') || c == '\U{202F}'
    || c == '\U{205F}' || c == '\U{3000}'
    || c == '\n' || c == '\r' || c == '\U{2028}' || c == '\U{2029}'
  }

  /** Drops the leading white space. */
  function TrimStart(s: string): string
  {
    if s != [] && IsWhiteSpace(s[0]) then TrimStart(s[1..]) else s
  }

  /** Drops the trailing white space. */
  function TrimEnd(s: string): string
  {
    if s != [] && IsWhiteSpace(s[|s| - 1]) then TrimEnd(s[..|s| - 1]) else s
  }

  /** What `TrimStart` leaves is a suffix of `s` that does not start with white space, and all it drops is white space. */
  lemma {:induction false} TrimStartMeaning(s: string)
    ensures |TrimStart(s)| <= |s| && TrimStart(s) == s[|s| - |TrimStart(s)|..]
    ensures TrimStart(s) == [] || !IsWhiteSpace(TrimStart(s)[0])
    ensures forall k :: 0 <= k < |s| - |TrimStart(s)| ==> IsWhiteSpace(s[k])
  {
    if s != [] && IsWhiteSpace(s[0]) {
      TrimStartMeaning(s[1..]);
      assert forall k :: 1 <= k < |s| ==> s[k] == s[1..][k - 1];
    }
  }

  /** What `TrimEnd` leaves is a prefix of `s` that does not end with white space, and all it drops is white space. */
  lemma {:induction false} TrimEndMeaning(s: string)
    ensures |TrimEnd(s)| <= |s| && TrimEnd(s) == s[..|TrimEnd(s)|]
    ensures TrimEnd(s) == [] || !IsWhiteSpace(TrimEnd(s)[|TrimEnd(s)| - 1])
    ensures forall k :: |TrimEnd(s)| <= k < |s| ==> IsWhiteSpace(s[k])
  {
    if s != [] && IsWhiteSpace(s[|s| - 1]) {
      TrimEndMeaning(s[..|s| - 1]);
      assert forall k :: 0 <= k < |s| - 1 ==> s[k] == s[..|s| - 1][k];
    }
  }

  /**
   * `s` splits into the white space `s[..i]`, the piece `r` and the white
   * space after it.
   */
  predicate IsTrimSplit(s: string, i: int, r: string) {
    && 0 <= i <= |s| - |r|
    && r == s[i..i + |r|]
    && (forall k :: 0 <= k < i ==> IsWhiteSpace(s[k]))
    && (forall k :: i + |r| <= k < |s| ==> IsWhiteSpace(s[k]))
  }

  /** `s.trim()`. */
  function Trim(s: string): string
  {
    TrimEnd(TrimStart(s))
  }

  /** `s.trim()` is a contiguous piece of `s`, every character cut away is white space, and none is left at either end. */
  lemma TrimMeaning(s: string)
    ensures exists i :: IsTrimSplit(s, i, Trim(s))
    ensures Trim(s) == [] || (!IsWhiteSpace(Trim(s)[0]) && !IsWhiteSpace(Trim(s)[|Trim(s)| - 1]))
  {
    var t := TrimStart(s);
    var r := TrimEnd(t);
    TrimStartMeaning(s);
    TrimEndMeaning(t);
    var i := |s| - |t|;
    assert r == Trim(s);
    assert r == s[i..i + |r|];
    assert r != [] ==> r[0] == t[0];
    assert forall k :: i + |r| <= k < |s| ==> s[k] == t[k - i];
    assert IsTrimSplit(s, i, Trim(s));
  }

  /** A string that neither starts nor ends with white space is its own trim. */
  lemma {:induction false} TrimOfTrimmed(s: string)
    requires s == [] || (!IsWhiteSpace(s[0]) && !IsWhiteSpace(s[|s| - 1]))
    ensures Trim(s) == s
  {
    assert TrimStart(s) == s;
    assert TrimEnd(s) == s;
  }

  /** Trimming twice is trimming once. */
  lemma TrimIdempotent(s: string)
    ensures Trim(Trim(s)) == Trim(s)
  {
    TrimMeaning(s);
    TrimOfTrimmed(Trim(s));
  }

  // ---------------------------------------------------------------------------
  // Decimal text of integers (Number.prototype.toString with radix 10)
  // ---------------------------------------------------------------------------

  predicate IsDigit(c: char) {
    '0' <= c <= '9'
  }

  predicate AllDigits(s: string) {
    forall k :: 0 <= k < |s| ==> IsDigit(s[k])
  }

  function DigitChar(d: nat): (c: char)
    requires d < 10
    ensures IsDigit(c) && c as int - '0' as int == d
  {
    (('0' as int) + d) as char
  }

  /** The shortest decimal text of `n`, without leading zeros. */
  function NatToDecimal(n: nat): (s: string)
    ensures |s| >= 1 && AllDigits(s)
    ensures n < 10 <==> |s| == 1
    ensures 10 <= n < 100 <==> |s| == 2
    ensures |s| > 1 ==> s[0] != '0'
  {
    if n < 10 then [DigitChar(n)] else NatToDecimal(n / 10) + [DigitChar(n % 10)]
  }

  /** The number a string of decimal digits denotes. */
  function DecimalValue(s: string): (n: nat)
    requires AllDigits(s)
  {
    if s == [] then 0 else DecimalValue(s[..|s| - 1]) * 10 + (s[|s| - 1] as int - '0' as int)
  }

  /** Reading back the decimal text of `n` gives `n`. */
  lemma {:induction false} DecimalRoundTrip(n: nat)
    ensures DecimalValue(NatToDecimal(n)) == n
  {
    if n >= 10 {
      DecimalRoundTrip(n / 10);
      var s := NatToDecimal(n);
      assert s[..|s| - 1] == NatToDecimal(n / 10);
    }
  }

  /** Leading zeros do not change the number a digit string denotes. */
  lemma {:induction false} DecimalValueLeadingZero(s: string)
    requires AllDigits(s)
    ensures DecimalValue("0" + s) == DecimalValue(s)
  {
    if s != [] {
      var t := "0" + s;
      assert t[..|t| - 1] == "0" + s[..|s| - 1];
      DecimalValueLeadingZero(s[..|s| - 1]);
    }
  }

  /** `String(i)` for an integer: a minus sign in front of the digits of a negative value. */
  function IntToDecimal(i: int): (s: string)
    ensures |s| >= 1
    ensures i >= 0 ==> AllDigits(s)
    ensures i < 0 ==> s[0] == '-' && AllDigits(s[1..])
  {
    if i < 0 then "-" + NatToDecimal(-i) else NatToDecimal(i)
  }

  /** The integer denoted by an optional minus sign followed by digits. */
  function SignedDecimalValue(s: string): int
    requires s != [] && AllDigits(if s[0] == '-' then s[1..] else s)
  {
    if s[0] == '-' then -(DecimalValue(s[1..]) as int) else DecimalValue(s)
  }

  /** Reading back the decimal text of an integer gives the integer. */
  lemma IntDecimalRoundTrip(i: int)
    ensures SignedDecimalValue(IntToDecimal(i)) == i
  {
    if i < 0 {
      DecimalRoundTrip(-i);
      assert IntToDecimal(i)[1..] == NatToDecimal(-i);
    } else {
      DecimalRoundTrip(i);
    }
  }

  // ---------------------------------------------------------------------------
  // padStart and join
  // ---------------------------------------------------------------------------

  function Repeat(c: char, n: nat): (s: string)
    ensures |s| == n && forall k :: 0 <= k < n ==> s[k] == c
  {
    if n == 0 then [] else [c] + Repeat(c, n - 1)
  }

  /** `s.padStart(width, fill)` with a one-character fill. */
  function PadStart(s: string, width: nat, fill: char): (r: string)
    ensures |r| == if |s| >= width then |s| else width
    ensures r[|r| - |s|..] == s
    ensures forall k :: 0 <= k < |r| - |s| ==> r[k] == fill
  {
    if |s| >= width then s else Repeat(fill, width - |s|) + s
  }

  /** Zero padding does not change the number a digit string denotes. */
  lemma {:induction false} ZeroPadValue(s: string, width: nat)
    requires AllDigits(s)
    ensures AllDigits(PadStart(s, width, '0'))
    ensures DecimalValue(PadStart(s, width, '0')) == DecimalValue(s)
    decreases width
  {
    if |s| < width {
      var r := PadStart(s, width, '0');
      assert r == "0" + PadStart(s, width - 1, '0');
      ZeroPadValue(s, width - 1);
      DecimalValueLeadingZero(PadStart(s, width - 1, '0'));
    }
  }

  /** `parts.join(sep)`. */
  function Join(parts: seq<string>, sep: string): (r: string)
    ensures parts == [] ==> r == ""
    ensures |parts| == 1 ==> r == parts[0]
  {
    if parts == [] then ""
    else if |parts| == 1 then parts[0]
    else parts[0] + sep + Join(parts[1..], sep)
  }
}
