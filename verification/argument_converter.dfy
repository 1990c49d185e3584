/** The example's converter for the failures a provider raises while parsing
    one argument. It is not registered on its own: the localising converter
    hands it the cause of an `ArgumentException`. */
module ArgumentConverter {
  import opened JavaValues
  import opened Taxonomy
  import opened Throwables
  import opened ExceptionContexts
  import opened ConverterHelper

  /** An argument of a message format: text, or a number. */
  datatype Arg = Text(text: string) | Num(number: real)

  /** The example's message bundle: `plain(key)` is `getString(key)`, and
      `formatted(key, args)` is `getString(key, args...)`, which fills the
      pattern's placeholders. Bundle loading, locales and the fallback for a
      missing key are behind these two functions. */
  datatype Messages = Messages(plain: string -> string, formatted: (string, seq<Arg>) -> string)

  datatype Case =
    | OnStringFormat
    | OnNonnumericalInput
    | OnOverRange
    | OnUnderRange
    | OnNoMatchInEnum

  function Accepts(c: Case): ExnClass {
    match c
    case OnStringFormat => StringFormatException
    case OnNonnumericalInput => NonnumericalInputException
    case OnOverRange => OverRangeException
    case OnUnderRange => UnderRangeException
    case OnNoMatchInEnum => NoMatchInEnumException
  }

  function MethodFor(c: Case): Method<Case> {
    Method(true, [ThrowableParam(Accepts(c)), ContextParam], c)
  }

  /** The overloads in declaration order. */
  function Overloads(): seq<Case> {
    [OnStringFormat, OnNonnumericalInput, OnOverRange, OnUnderRange, OnNoMatchInEnum]
  }

  function Methods(): seq<Method<Case>> {
    seq(|Overloads()|, i requires 0 <= i < |Overloads()| => MethodFor(Overloads()[i]))
  }

  /** The bundle key and arguments that describe a parse failure, or `None`
      when the payload does not have the shape the overload reads. */
  function Describe(c: Case, e: Thrown): Option<(string, seq<Arg>)> {
    match c
    case OnStringFormat =>
      if e.payload.Format? then Some(("primitives.invalid.format", [Text(e.payload.format)])) else None
    case OnNonnumericalInput =>
      if e.payload.Input? then Some(("primitives.invalid.non-number", [Text(e.payload.input)])) else None
    case OnOverRange =>
      if e.payload.Bound? then Some(("primitives.invalid.greater-or-equal", [Num(e.payload.limit), Num(e.payload.number)]))
      else None
    case OnUnderRange =>
      if e.payload.Bound? then Some(("primitives.invalid.less-or-equal", [Num(e.payload.limit), Num(e.payload.number)]))
      else None
    case OnNoMatchInEnum =>
      if e.payload.EnumName? then Some(("enum.no-matching-value", [Text(e.payload.name)])) else None
  }

  /** The private `ex` helper: the failure's description, prefixed with the
      parameter when it is known. */
  function ParameterError(m: Messages, errorMsg: string, cause: Thrown): string {
    match cause.parameter
    case Some(name) => m.formatted("parameter.error", [Text(name), Text(errorMsg)])
    case None => m.formatted("parameter.error.unknown", [Text(errorMsg)])
  }

  /** What each overload does: a usage error without the full-help hint,
      caused by the parse failure. An object whose fields do not fit its
      class, which Java cannot build, stands for an argument `Method.invoke`
      refuses. */
  function Run(m: Messages, c: Case, e: Thrown, ctx: Option<ExceptionContext>): (r: Effect)
    ensures !r.Normal?
    ensures r.Refused? <==> Describe(c, e).None?
    ensures Coherent(e) && e.cls == Accepts(c) ==> r.Raise?
    ensures ctx.None? && r.Raise? ==> r.thrown == NullDereference()
    ensures ctx.Some? && r.Raise? ==>
              && r.thrown.cls == InvalidUsageException && r.thrown.cause == Some(e)
              && r.thrown.payload == Usage(ctx.value.command, ctx.value.aliasStack, false)
              && r.thrown.message == Some(ParameterError(m, m.formatted(Describe(c, e).value.0, Describe(c, e).value.1), e))
  {
    match Describe(c, e)
    case None => Refused
    case Some(d) => UsageIn(ctx, Some(ParameterError(m, m.formatted(d.0, d.1), e)), false, e)
  }

  function Runner(m: Messages): (Case, Thrown, Option<ExceptionContext>) -> Effect {
    (c, e, ctx) => Run(m, c, e, ctx)
  }

  /** Every overload reads the payload its own class carries. */
  lemma DescribesEveryFailure(c: Case, e: Thrown)
    requires e.cls == Accepts(c) && Coherent(e)
    ensures Describe(c, e).Some?
  {
  }

  /** Different failures are told apart by the bundle key alone. */
  lemma KeysDistinguishFailures(c1: Case, c2: Case, e1: Thrown, e2: Thrown)
    requires Describe(c1, e1).Some? && Describe(c2, e2).Some?
    ensures Describe(c1, e1).value.0 == Describe(c2, e2).value.0 <==> c1 == c2
  {
  }

  function Handlers(): seq<Handler<Case>> {
    seq(|Overloads()|, i requires 0 <= i < |Overloads()| => Handler(Accepts(Overloads()[i]), false, Overloads()[i]))
  }

  /** The scan registers every overload, with its context. */
  lemma RegistersEveryOverload()
    ensures Discover(Methods()) == Handlers()
  {
    DiscoverOverloads(Overloads(), Accepts, Methods(), Handlers());
  }

  lemma HandlersAreUniform()
    ensures forall hd: Handler<Case> :: hd in Handlers() <==> !hd.legacy && hd.accepts == Accepts(hd.body)
    ensures Uniform(Handlers(), Accepts)
  {
    forall hd: Handler<Case> | !hd.legacy && hd.accepts == Accepts(hd.body)
      ensures hd in Handlers()
    {
      var i := match hd.body
        case OnStringFormat => 0
        case OnNonnumericalInput => 1
        case OnOverRange => 2
        case OnUnderRange => 3
        case OnNoMatchInEnum => 4;
      assert Handlers()[i] == hd;
    }
  }

  /** The tables of this converter that meet the documented
      more-specific-first guarantee. */
  ghost predicate Table(h: Hierarchy, hs: seq<Handler<Case>>) {
    WellFormed(h) && SortedTable(h, Handlers(), hs)
  }

  lemma TableIsValidHandlerList(h: Hierarchy, hs: seq<Handler<Case>>)
    ensures Table(h, hs) <==> WellFormed(h) && ValidHandlerList(h, Methods(), hs)
  {
    RegistersEveryOverload();
  }

  /** A parse failure is converted by the overload for its own class, in any
      table order: the bundle's text for the failure, wrapped in
      "parameter.error" with the parameter's name when it is known and in
      "parameter.error.unknown" otherwise. */
  lemma ConvertsParseFailure(h: Hierarchy, hs: seq<Handler<Case>>, m: Messages, e: Thrown, x: ExceptionContext, c: Case)
    requires Table(h, hs) && e.cls == Accepts(c) && Coherent(e)
    ensures var d := Describe(c, e).value;
            var errorMsg := m.formatted(d.0, d.1);
            Convert(h, hs, Runner(m), e, Some(x)).outcome == Escalate(h, UsageError(
              Some(if e.parameter.Some? then m.formatted("parameter.error", [Text(e.parameter.value), Text(errorMsg)])
                   else m.formatted("parameter.error.unknown", [Text(errorMsg)])),
              x.command, x.aliasStack, false, Some(e)))
  {
    HandlersAreUniform();
    UniformTableDecides(h, Handlers(), hs, Accepts, Runner(m), e, Some(x), c);
  }

  /** `convert` invokes no handler exactly when no overload accepts the
      class, and then it returns normally: anything but the five parse
      failures passes through untouched. */
  lemma LeavesOtherFailures(h: Hierarchy, hs: seq<Handler<Case>>, m: Messages, e: Thrown, ctx: Option<ExceptionContext>)
    requires Table(h, hs)
    ensures Convert(h, hs, Runner(m), e, ctx).invoked == [] <==> forall c :: !IsSubclass(h, e.cls, Accepts(c))
    ensures (forall c :: !IsSubclass(h, e.cls, Accepts(c))) ==> Convert(h, hs, Runner(m), e, ctx) == Conversion([], Returned)
  {
    HandlersAreUniform();
    assert forall c :: Handler(Accepts(c), false, c) in Handlers();
    TableInvokesNothingIffUnmatched(h, Handlers(), hs, Runner(m), e, ctx);
    if forall c :: !IsSubclass(h, e.cls, Accepts(c)) {
      UnmatchedTableReturns(h, Handlers(), hs, Runner(m), e, ctx);
    }
  }

  /** With the documented class links, the classes that wrap a parse failure,
      and failures of the platform, are accepted by no overload: registering
      this converter on its own converts nothing they cover. */
  lemma WrappersMatchNoOverload(h: Hierarchy, cls: ExnClass)
    requires DocumentedLinks(h)
    requires cls in {ArgumentParseException, ArgumentException, NullPointerException, Exception, Throwable}
    ensures forall c :: !IsSubclass(h, cls, Accepts(c))
  {
    forall c | IsSubclass(h, cls, Accepts(c))
      ensures false
    {
      match cls {
        case ArgumentParseException => ArgumentParseAncestors(h, Accepts(c));
        case ArgumentException => ArgumentAncestors(h, Accepts(c));
        case NullPointerException =>
          assert IsSubclass(h, RuntimeException, Accepts(c));
          assert IsSubclass(h, Exception, Accepts(c));
          ExceptionAncestors(h, Accepts(c));
        case Exception => ExceptionAncestors(h, Accepts(c));
        case Throwable =>
      }
    }
  }
}
