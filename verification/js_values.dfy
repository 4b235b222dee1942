/** JavaScript value conversions used by the chart builders.

    - `Completion` stands for a normal return or a thrown exception.
    - `ToNumber` models the unary `+` applied to a string. It accepts signed
      decimal digits and unsigned `0x`/`0o`/`0b` digits, after trimming
      white space; every other string is None (the role of NaN), including
      integer-valued numerals with a fraction or an exponent.
    - `Lower` models `String.prototype.toLowerCase` on ASCII letters.
    - `DecimalString` is the property key JavaScript uses for a non-negative
      integer (`d[1960]` reads the key "1960").
 */
module JsValues {

  datatype Option<+T> = None | Some(value: T)

  /** The two exceptions the modelled code can raise. */
  datatype JsError = TypeError | URIError

  /** Outcome of evaluating a JavaScript expression: a value or a throw. */
  datatype Completion<+T> = Normal(value: T) | Thrown(error: JsError)

  // ---------------------------------------------------------------------
  // Whitespace trimming (StringToNumber trims WhiteSpace and LineTerminator)
  // ---------------------------------------------------------------------

  /** WhiteSpace or LineTerminator code points of ECMAScript: TAB, VT, FF,
      ZWNBSP, every space separator (category Zs), LF, CR, LS and PS. */
  predicate IsJsSpace(c: char)
  {
    c == '\U{9}' || c == '\U{B}' || c == '\U{C}' || c == ' ' || c == '\U{A0}'
    || c == '\U{FEFF}' || c == '\U{1680}' || ('\U{2000}' <= c <= '\U{200A}')
    || c == '\U{202F}' || c == '\U{205F}' || c == '\U{3000}'
    || c == '\U{A}' || c == '\U{D}' || c == '\U{2028}' || c == '\U{2029}'
  }

  function TrimStart(s: string): (r: string)
    ensures |r| <= |s|
  {
    if s == [] || !IsJsSpace(s[0]) then s else TrimStart(s[1..])
  }

  function TrimEnd(s: string): (r: string)
    ensures |r| <= |s|
  {
    if s == [] || !IsJsSpace(s[|s| - 1]) then s else TrimEnd(s[..|s| - 1])
  }

  function Trim(s: string): string
  {
    TrimEnd(TrimStart(s))
  }

  // ---------------------------------------------------------------------
  // Digits
  // ---------------------------------------------------------------------

  /** Value of `c` as a digit in the given radix (letters in either case). */
  function DigitValue(c: char, radix: nat): (r: Option<nat>)
    ensures r.Some? ==> r.value < radix
  {
    var v :=
      if '0' <= c <= '9' then (c as int) - ('0' as int)
      else if 'a' <= c <= 'z' then (c as int) - ('a' as int) + 10
      else if 'A' <= c <= 'Z' then (c as int) - ('A' as int) + 10
      else 36;
    if v < radix then Some(v) else None
  }

  /** Horner evaluation of a non-empty digit string; None if any character
      is not a digit of the radix or the string is empty. */
  function ParseDigits(s: string, radix: nat): Option<nat>
  {
    if s == [] then None
    else
      var d := DigitValue(s[|s| - 1], radix);
      if d.None? then None
      else if |s| == 1 then Some(d.value)
      else
        match ParseDigits(s[..|s| - 1], radix)
        case None => None
        case Some(h) => Some(h * radix + d.value)
  }

  /** The digit parser succeeds exactly on non-empty strings of digits of
      the radix. */
  lemma {:induction false} ParseDigitsSome(s: string, radix: nat)
    ensures ParseDigits(s, radix).Some? <==> s != [] && forall i :: 0 <= i < |s| ==> DigitValue(s[i], radix).Some?
  {
    if |s| > 1 {
      var h := s[..|s| - 1];
      ParseDigitsSome(h, radix);
      assert forall i :: 0 <= i < |h| ==> h[i] == s[i];
      if forall i :: 0 <= i < |s| ==> DigitValue(s[i], radix).Some? {
        assert forall i :: 0 <= i < |h| ==> DigitValue(h[i], radix).Some?;
      }
    }
  }

  /** Unary `+` on a string, as far as its result is an integer:
      surrounding whitespace is ignored, the empty string is 0, a decimal
      numeral may carry one sign, and `0x`, `0o`, `0b` numerals are
      unsigned. Everything else is NaN (None). */
  function ToNumber(s: string): (r: Option<int>)
    ensures Trim(s) == [] ==> r == Some(0)
  {
    var t := Trim(s);
    if t == [] then Some(0)
    else if |t| >= 2 && t[0] == '0' && (t[1] == 'x' || t[1] == 'X') then Widen(ParseDigits(t[2..], 16))
    else if |t| >= 2 && t[0] == '0' && (t[1] == 'o' || t[1] == 'O') then Widen(ParseDigits(t[2..], 8))
    else if |t| >= 2 && t[0] == '0' && (t[1] == 'b' || t[1] == 'B') then Widen(ParseDigits(t[2..], 2))
    else if t[0] == '+' then Widen(ParseDigits(t[1..], 10))
    else if t[0] == '-' then
      match ParseDigits(t[1..], 10)
      case None => None
      case Some(v) => Some(0 - v as int)
    else Widen(ParseDigits(t, 10))
  }

  function Widen(o: Option<nat>): Option<int>
  {
    match o
    case None => None
    case Some(v) => Some(v)
  }

  /** JavaScript truthiness of a number: 0 and NaN are falsy. */
  predicate Truthy(n: Option<int>)
  {
    n.Some? && n.value != 0
  }

  // ---------------------------------------------------------------------
  // Decimal rendering of property keys
  // ---------------------------------------------------------------------

  function DigitChar(d: nat): (c: char)
    requires d < 10
    ensures '0' <= c <= '9' && DigitValue(c, 10) == Some(d)
  {
    (('0' as int) + d) as char
  }

  /** Shortest decimal numeral of `n`, as `String(n)` renders it. */
  function DecimalString(n: nat): (r: string)
    ensures r != []
    ensures forall i :: 0 <= i < |r| ==> '0' <= r[i] <= '9'
    ensures r[0] == '0' ==> n == 0 && r == "0"
  {
    if n < 10 then [DigitChar(n)] else DecimalString(n / 10) + [DigitChar(n % 10)]
  }

  /** Reading the key a number renders to gives the number back. */
  lemma {:induction false} ParseDecimalString(n: nat)
    ensures ParseDigits(DecimalString(n), 10) == Some(n)
  {
    if n >= 10 {
      var s := DecimalString(n);
      ParseDecimalString(n / 10);
      assert s[..|s| - 1] == DecimalString(n / 10);
    }
  }

  lemma TrimDigits(s: string)
    requires forall i :: 0 <= i < |s| ==> '0' <= s[i] <= '9'
    ensures Trim(s) == s
  {
  }

  /** `+String(n) === n` for every non-negative integer `n`. */
  lemma ToNumberOfDecimalString(n: nat)
    ensures ToNumber(DecimalString(n)) == Some(n)
  {
    var s := DecimalString(n);
    TrimDigits(s);
    ParseDecimalString(n);
    assert s[0] != '+' && s[0] != '-';
    assert |s| >= 2 ==> s[0] != '0';
    assert ToNumber(s) == Widen(ParseDigits(s, 10));
  }

  /** A sign in front of a decimal numeral gives its signed value. */
  lemma ToNumberSigned(n: nat)
    ensures ToNumber("+" + DecimalString(n)) == Some(n)
    ensures ToNumber("-" + DecimalString(n)) == Some(0 - n)
  {
    var d := DecimalString(n);
    ParseDecimalString(n);
    var plus := "+" + d;
    var minus := "-" + d;
    assert plus[1..] == d && minus[1..] == d;
    assert forall i :: 1 <= i < |plus| ==> '0' <= plus[i] <= '9' && '0' <= minus[i] <= '9';
    TrimSigned(plus);
    TrimSigned(minus);
  }

  /** Whitespace never starts or ends a sign followed by digits. */
  lemma TrimSigned(s: string)
    requires |s| >= 2 && (s[0] == '+' || s[0] == '-')
    requires forall i :: 1 <= i < |s| ==> '0' <= s[i] <= '9'
    ensures Trim(s) == s
  {
  }

  /** A trimmed text that starts with neither a decimal digit nor a sign
      reads as NaN: words such as "Country Name" are not numbers. */
  lemma ToNumberOfNonNumeral(s: string)
    requires Trim(s) != [] && !('0' <= Trim(s)[0] <= '9') && Trim(s)[0] != '+' && Trim(s)[0] != '-'
    ensures ToNumber(s) == None
  {
    var t := Trim(s);
    ParseDigitsSome(t, 10);
    assert DigitValue(t[0], 10).None?;
  }

  // ---------------------------------------------------------------------
  // Case folding
  // ---------------------------------------------------------------------

  function LowerChar(c: char): (r: char)
    ensures !('A' <= r <= 'Z')
    ensures !('A' <= c <= 'Z') ==> r == c
  {
    if 'A' <= c <= 'Z' then ((c as int) - ('A' as int) + ('a' as int)) as char else c
  }

  /** `toLowerCase` on ASCII letters; other characters are unchanged. */
  function Lower(s: string): (r: string)
    ensures |r| == |s|
    ensures forall i :: 0 <= i < |s| ==> r[i] == LowerChar(s[i])
  {
    if s == [] then [] else [LowerChar(s[0])] + Lower(s[1..])
  }

  /** Lower-casing twice is lower-casing once. */
  lemma LowerIdempotent(s: string)
    ensures Lower(Lower(s)) == Lower(s)
  {
    assert forall i :: 0 <= i < |s| ==> Lower(Lower(s))[i] == Lower(s)[i];
  }
}
