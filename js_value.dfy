/** JavaScript values as a request body delivers them for one form field
    (`express.json()` gives any JSON value; `express.urlencoded({ extended:
    true })` gives a string or an array of strings), and the two
    conversions the server applies to them: truthiness and `String(x)`. */
module JsValues {

  /** A value that is not an array. Numbers are integers (JSON fractions
      and exponents are not modelled); every object that is not an array
      is `Obj`. */
  datatype JsScalar =
    | Undefined
    | Null
    | Bool(b: bool)
    | Num(n: int)
    | Str(s: string)
    | Obj

  /** A field's value: a single value, or an array of them. */
  datatype JsValue = One(x: JsScalar) | Arr(items: seq<JsScalar>)

  /** JavaScript truthiness: `undefined`, `null`, `false`, `0` and `""` are
      falsy; every object is truthy. */
  predicate Truthy(x: JsScalar) {
    match x
    case Undefined => false
    case Null => false
    case Bool(b) => b
    case Num(n) => n != 0
    case Str(s) => s != ""
    case Obj => true
  }

  predicate IsDigit(c: char) {
    '0' <= c <= '9'
  }

  /** `String(n)` for a non-negative integer. */
  function Decimal(n: nat): (r: string)
    ensures |r| > 0 && forall k :: 0 <= k < |r| ==> IsDigit(r[k])
    ensures (r[0] == '0') <==> n == 0
  {
    var d := ('0' as int + n % 10) as char;
    if n < 10 then [d] else Decimal(n / 10) + [d]
  }

  /** The number a string of decimal digits denotes. */
  function DigitsValue(s: string): nat
  {
    if s == [] then 0
    else
      var c := s[|s| - 1];
      DigitsValue(s[..|s| - 1]) * 10 + (if IsDigit(c) then c as int - '0' as int else 0)
  }

  lemma {:induction false} DecimalRoundTrip(n: nat)
    ensures DigitsValue(Decimal(n)) == n
  {
    if n >= 10 {
      DecimalRoundTrip(n / 10);
      var r := Decimal(n);
      assert r[..|r| - 1] == Decimal(n / 10);
    }
  }

  /** `String(n)` for any integer: a minus sign before the digits of a
      negative number; the digits denote the magnitude. */
  function IntText(n: int): (r: string)
    ensures |r| > 0 && (r[0] == '-' <==> n < 0)
    ensures n < 0 ==> DigitsValue(r[1..]) == -n
    ensures n >= 0 ==> DigitsValue(r) == n
  {
    if n < 0 then
      DecimalRoundTrip(-n);
      var r := "-" + Decimal(-n);
      assert r[1..] == Decimal(-n);
      r
    else
      DecimalRoundTrip(n);
      Decimal(n)
  }

  /** `String(x)`. */
  function JsString(x: JsScalar): string
  {
    match x
    case Undefined => "undefined"
    case Null => "null"
    case Bool(b) => if b then "true" else "false"
    case Num(n) => IntText(n)
    case Str(s) => s
    case Obj => "[object Object]"
  }
}
