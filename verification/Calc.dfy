/** The values exchanged with the external formula engine: the primitive
    values a cell may be stored as, the engine's tagged evaluation results,
    the text a stored value is turned into (toString), and the normalisation
    of an evaluation result into one primitive value (parseResult). */
module Calc {

  /** An unboxed engine value: a string, a number or a boolean. Numbers are
      modelled as integers. */
  datatype Primitive = Str(s: string) | Num(n: int) | Bool(b: bool)

  /** A value an evaluation may produce: a primitive, or a structured value
      (such as a reference) that only the engine knows how to serialise;
      `id` stands for that opaque value. */
  datatype ReadOper = Prim(p: Primitive) | Structured(id: nat)

  /** The reason a failed evaluation carries: a plain failure reason or one
      of the three specific kinds. `text` is the reason's toString(). */
  datatype FailureReason =
    | Failed(text: string)
    | NotImplemented(text: string)
    | NotFormulaString(text: string)
    | IllFormedFormula(text: string)

  /** The engine's evaluation result: a success holding a value, a failure
      holding its reason, or an evaluation paused on a cell whose value is
      not yet known; `pausedText` is the toString() of the paused result's
      reason. */
  datatype EvaluationResult =
    | Success(value: ReadOper)
    | Failure(reason: FailureReason)
    | EvalFormulaPaused(pausedText: string)

  predicate IsDigit(c: char) {
    '0' <= c <= '9'
  }

  function DigitChar(d: int): (c: char)
    requires 0 <= d < 10
    ensures IsDigit(c) && c as int - '0' as int == d
  {
    "0123456789"[d]
  }

  /** The numeric value of a string of decimal digits (the partner of Digits). */
  function DigitsValue(s: string): int
    requires forall i :: 0 <= i < |s| ==> IsDigit(s[i])
  {
    if s == [] then 0
    else DigitsValue(s[..|s| - 1]) * 10 + (s[|s| - 1] as int - '0' as int)
  }

  /** The decimal digits of a natural number, most significant first. */
  function Digits(n: nat): (r: string)
    ensures |r| > 0
    ensures forall i :: 0 <= i < |r| ==> IsDigit(r[i])
    ensures |r| > 1 ==> r[0] != '0'
    ensures n < 10 <==> |r| == 1
  {
    if n < 10 then [DigitChar(n)] else Digits(n / 10) + [DigitChar(n % 10)]
  }

  /** Reading back the digits of n gives n. */
  lemma {:induction false} DigitsRoundTrip(n: nat)
    ensures DigitsValue(Digits(n)) == n
  {
    if n >= 10 {
      var d := Digits(n);
      assert d[..|d| - 1] == Digits(n / 10);
      DigitsRoundTrip(n / 10);
    }
  }

  /** The text of an integer as toString() writes it: an optional minus sign
      followed by the decimal digits without leading zeros. */
  function Decimal(n: int): (r: string)
    ensures |r| > 0
    ensures r[0] == '-' <==> n < 0
  {
    if n < 0 then "-" + Digits(-n) else Digits(n)
  }

  /** Different integers are written as different texts. */
  lemma DecimalInjective(a: int, b: int)
    requires Decimal(a) == Decimal(b)
    ensures a == b
  {
    assert (a < 0) == (b < 0);
    var da, db := Digits(if a < 0 then -a else a), Digits(if b < 0 then -b else b);
    if a < 0 {
      assert Decimal(a) == "-" + da && Decimal(b) == "-" + db;
      assert da == Decimal(a)[1..] == Decimal(b)[1..] == db;
    } else {
      assert da == Decimal(a) && db == Decimal(b);
    }
    DigitsRoundTrip(if a < 0 then -a else a);
    DigitsRoundTrip(if b < 0 then -b else b);
  }

  /** value.toString(): the text stored in a cell marker for a primitive. */
  function ToText(v: Primitive): (r: string)
    ensures v.Str? ==> r == v.s
    ensures v.Bool? ==> (r == "true" <==> v.b) && (r == "false" <==> !v.b)
    ensures v.Num? ==> r == Decimal(v.n)
  {
    match v
    case Str(s) => s
    case Num(n) => Decimal(n)
    case Bool(b) => if b then "true" else "false"
  }

  /** parseResult: a success holding a string, number or boolean gives that
      value unchanged; any other success value gives its serialisation (the
      engine's serialiseValue, here the parameter `serialise`); every other
      result kind gives the text of its reason. */
  function ParseResult(result: EvaluationResult, serialise: ReadOper -> string): (r: Primitive)
    ensures result.Success? && result.value.Prim? ==> r == result.value.p
    ensures result.Success? && result.value.Structured? ==> r == Str(serialise(result.value))
    ensures result.Failure? ==> r == Str(result.reason.text)
    ensures result.EvalFormulaPaused? ==> r == Str(result.pausedText)
    ensures !r.Str? ==> result.Success? && result.value.Prim?
  {
    match result
    case Success(value) =>
      (match value
       case Prim(p) => p
       case Structured(_) => Str(serialise(value)))
    case Failure(reason) => Str(reason.text)
    case EvalFormulaPaused(text) => Str(text)
  }
}
