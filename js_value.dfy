/**
 * The JSON values that reach the handlers (request bodies, decoded token payloads),
 * and the two JavaScript coercions the code applies to them: truthiness and `toString()`.
 * Numbers are integers here; fractional numbers are not part of this model.
 */
module JsValue {
  import opened Common

  datatype Json = Missing | Null | Bool(b: bool) | Number(n: int) | Str(s: string) | Object

  /** JavaScript truthiness; `Missing` is `undefined`. */
  predicate Truthy(v: Json) {
    match v
    case Missing => false
    case Null => false
    case Bool(b) => b
    case Number(n) => n != 0
    case Str(s) => s != ""
    case Object => true
  }

  function DigitChar(d: nat): (c: char)
    requires d < 10
    ensures '0' <= c <= '9' && c as int - '0' as int == d
  {
    "0123456789"[d]
  }

  /**
   * The decimal numeral JavaScript prints for a non-negative integer: digits only, with no
   * leading zero.
   */
  function Decimal(n: nat): (r: string)
    ensures |r| >= 1
    ensures forall i :: 0 <= i < |r| ==> '0' <= r[i] <= '9'
    ensures n > 0 ==> r[0] != '0'
  {
    if n < 10 then [DigitChar(n)] else Decimal(n / 10) + [DigitChar(n % 10)]
  }

  /** The number a string of decimal digits denotes, read from its last digit. */
  function NumeralValue(s: string): nat
    requires forall i :: 0 <= i < |s| ==> '0' <= s[i] <= '9'
  {
    if s == [] then 0
    else NumeralValue(s[..|s| - 1]) * 10 + (s[|s| - 1] as int - '0' as int)
  }

  /** Reading the printed numeral back gives the number: `Decimal` loses nothing. */
  lemma {:induction false} DecimalValue(n: nat)
    ensures NumeralValue(Decimal(n)) == n
  {
    if n >= 10 {
      DecimalValue(n / 10);
      var r := Decimal(n);
      assert r[..|r| - 1] == Decimal(n / 10);
    }
  }

  /** `v.toString()`; `None` where JavaScript throws a TypeError (on `undefined` and `null`). */
  function ToStr(v: Json): (r: Option<string>)
    ensures r.None? <==> v.Missing? || v.Null?
    ensures v.Str? ==> r == Some(v.s)
  {
    match v
    case Missing => None
    case Null => None
    case Bool(b) => Some(if b then "true" else "false")
    case Number(n) => Some(if n < 0 then "-" + Decimal(-n) else Decimal(n))
    case Str(s) => Some(s)
    case Object => Some("[object Object]")
  }
}
