/** `NumberProvider`: the shared parsing and range checking of the numeric
    providers. Numbers are reals; `Double.parseDouble` is a parameter. */
module Numbers {
  import opened JavaValues
  import opened Throwables
  import opened ParseExceptions

  /** A modifier annotation on a parameter: a `@Range(min, max)`, or any
      other annotation. */
  datatype Modifier = Range(min: real, max: real) | Other

  /** `isProvided`: a number is always read from the input. */
  function IsProvided(): (r: bool)
    ensures !r
  {
    false
  }

  /** `getSuggestions`: numbers are never suggested. */
  function Suggestions(prefix: string): (r: seq<string>)
    ensures |r| == 0
  {
    []
  }

  /** `parseNumericInput`: null passes through as null; text the parser
      rejects becomes a `NonnumericalInputException` carrying it. */
  function ParseNumericInput(input: Option<string>, parse: string -> Option<real>): (r: Result<Option<real>, Thrown>)
    ensures input.None? ==> r == Success(None)
    ensures input.Some? && parse(input.value).Some? ==> r == Success(Some(parse(input.value).value))
    ensures input.Some? && parse(input.value).None? ==>
              r.Failure? && r.error.cls == Taxonomy.NonnumericalInputException && r.error.payload == Input(input.value)
  {
    match input
    case None => Success(None)
    case Some(s) =>
      match parse(s)
      case Some(x) => Success(Some(x))
      case None => Failure(NonnumericalInput(s))
  }

  /** `n` lies in the inclusive interval of modifier `m`, or `m` is not a
      range. */
  predicate Admits(m: Modifier, n: real) {
    m.Range? ==> m.min <= n <= m.max
  }

  /** The failure a range reports for a number it does not admit: under the
      minimum takes precedence over above the maximum. */
  function Violation(text: NumberText, m: Modifier, n: real): (r: Thrown)
    requires !Admits(m, n)
  {
    if n < m.min then UnderRange(text, n, m.min) else OverRange(text, n, m.max)
  }

  /** `validate`: the modifiers in list order; the first range that does not
      admit the number decides the failure. */
  function Validate(n: real, modifiers: seq<Modifier>, text: NumberText): (r: Option<Thrown>)
    ensures r.None? <==> forall i | 0 <= i < |modifiers| :: Admits(modifiers[i], n)
    ensures r.Some? ==>
              && r.value.cls in {Taxonomy.UnderRangeException, Taxonomy.OverRangeException}
              && r.value.payload.Bound? && r.value.payload.number == n
  {
    if |modifiers| == 0 then None
    else
      match modifiers[0]
      case Other => Validate(n, modifiers[1..], text)
      case Range(min, max) =>
        if n < min then Some(UnderRange(text, n, min))
        else if n > max then Some(OverRange(text, n, max))
        else
          var r := Validate(n, modifiers[1..], text);
          assert forall i | 1 <= i < |modifiers| :: modifiers[i] == modifiers[1..][i - 1];
          r
  }

  /** The failure is that of the first modifier that does not admit the
      number; every modifier before it does. */
  lemma {:induction false} ValidateReportsFirstViolation(n: real, modifiers: seq<Modifier>, text: NumberText)
    requires Validate(n, modifiers, text).Some?
    ensures exists i | 0 <= i < |modifiers| ::
              && !Admits(modifiers[i], n)
              && (forall j | 0 <= j < i :: Admits(modifiers[j], n))
              && Validate(n, modifiers, text).value == Violation(text, modifiers[i], n)
  {
    if Admits(modifiers[0], n) {
      var rest := modifiers[1..];
      ValidateReportsFirstViolation(n, rest, text);
      var i :| 0 <= i < |rest| && !Admits(rest[i], n) && (forall j | 0 <= j < i :: Admits(rest[j], n))
               && Validate(n, rest, text).value == Violation(text, rest[i], n);
      assert forall j | 1 <= j < i + 1 :: modifiers[j] == rest[j - 1];
      assert modifiers[i + 1] == rest[i];
    } else {
      assert Validate(n, modifiers, text).value == Violation(text, modifiers[0], n);
    }
  }

  /** Modifiers that are not ranges change nothing, wherever they stand. */
  lemma {:induction false} OtherModifiersIgnored(n: real, before: seq<Modifier>, after: seq<Modifier>, text: NumberText)
    ensures Validate(n, before + [Other] + after, text) == Validate(n, before + after, text)
  {
    if |before| == 0 {
      assert (before + [Other] + after)[1..] == before + after;
    } else {
      OtherModifiersIgnored(n, before[1..], after, text);
      assert (before + [Other] + after)[1..] == before[1..] + [Other] + after;
      assert (before + after)[1..] == before[1..] + after;
    }
  }
}
