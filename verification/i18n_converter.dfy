/** The example's localising converter: the argument and flag errors become
    usage errors worded by the message bundle, and an `ArgumentException` is
    handed, by its cause, to the parse-failure converter. Provisioning
    failures and interruptions are deliberately left to the host. */
module I18nConverter {
  import opened JavaValues
  import opened Taxonomy
  import opened Throwables
  import opened ExceptionContexts
  import opened ConverterHelper
  import ArgumentConverter

  datatype Case =
    | OnMissingArgument
    | OnUnusedArgument
    | OnMissingFlagValue
    | OnAlreadyPresentFlag
    | OnArgument

  function Accepts(c: Case): ExnClass {
    match c
    case OnMissingArgument => MissingArgumentException
    case OnUnusedArgument => UnusedArgumentException
    case OnMissingFlagValue => MissingFlagValueException
    case OnAlreadyPresentFlag => AlreadyPresentFlagException
    case OnArgument => ArgumentException
  }

  function MethodFor(c: Case): Method<Case> {
    Method(true, [ThrowableParam(Accepts(c)), ContextParam], c)
  }

  /** The overloads in declaration order. */
  function Overloads(): seq<Case> {
    [OnMissingArgument, OnUnusedArgument, OnMissingFlagValue, OnAlreadyPresentFlag, OnArgument]
  }

  function Methods(): seq<Method<Case>> {
    seq(|Overloads()|, i requires 0 <= i < |Overloads()| => MethodFor(Overloads()[i]))
  }

  /** The nested converter: its sorted table `inner` and its bundle. */
  datatype Nested = Nested(inner: seq<Handler<ArgumentConverter.Case>>, m: ArgumentConverter.Messages)

  /** What each overload does. The `ArgumentException` overload calls the
      nested converter's `convert` on the exception's cause: a null cause
      fails at once, a conversion that returns lets this overload return, and
      whatever the nested `convert` throws is thrown on. An object whose
      fields do not fit its class, which Java cannot build, stands for an
      argument `Method.invoke` refuses. */
  function Run(h: Hierarchy, n: Nested, c: Case, e: Thrown, ctx: Option<ExceptionContext>): (r: Effect)
    ensures c != OnArgument ==> !r.Normal?
    ensures c != OnArgument && Coherent(e) && e.cls == Accepts(c) ==> r.Raise?
    ensures c != OnArgument && ctx.Some? && r.Raise? ==>
              && r.thrown.cls == InvalidUsageException && r.thrown.cause == Some(e)
              && r.thrown.payload == Usage(ctx.value.command, ctx.value.aliasStack, c in {OnMissingFlagValue, OnAlreadyPresentFlag})
    ensures c == OnArgument && e.cause.None? ==> r == Raise(NullDereference())
    ensures c == OnArgument && e.cause.Some? ==>
              r == AsEffect(Convert(h, n.inner, ArgumentConverter.Runner(n.m), e.cause.value, ctx).outcome)
  {
    var m := n.m;
    match c
    case OnMissingArgument =>
      var message := match e.parameter
        case Some(name) => m.formatted("parameter.argument.missing", [ArgumentConverter.Text(name)])
        case None => m.plain("parameter.argument.missing.unknown");
      UsageIn(ctx, Some(message), false, e)
    case OnUnusedArgument =>
      if e.payload.Unconsumed? then
        UsageIn(ctx, Some(m.formatted("parameter.argument.unused", [ArgumentConverter.Text(e.payload.text)])), false, e)
      else Refused
    case OnMissingFlagValue => UsageIn(ctx, Some(m.plain("parameter.flag.value.missing")), true, e)
    case OnAlreadyPresentFlag => UsageIn(ctx, Some(m.plain("parameter.flag.value.already-given")), true, e)
    case OnArgument =>
      match e.cause
      case None => Raise(NullDereference())
      case Some(cause) => AsEffect(Convert(h, n.inner, ArgumentConverter.Runner(m), cause, ctx).outcome)
  }

  function Runner(h: Hierarchy, n: Nested): (Case, Thrown, Option<ExceptionContext>) -> Effect {
    (c, e, ctx) => Run(h, n, c, e, ctx)
  }

  function Handlers(): seq<Handler<Case>> {
    seq(|Overloads()|, i requires 0 <= i < |Overloads()| => Handler(Accepts(Overloads()[i]), false, Overloads()[i]))
  }

  /** The scan registers every overload, with its context. */
  lemma RegistersEveryOverload()
    ensures Discover(Methods()) == Handlers()
  {
    DiscoverOverloads(Overloads(), Accepts, Methods(), Handlers());
  }

  lemma HandlersAreUniform()
    ensures forall hd: Handler<Case> :: hd in Handlers() <==> !hd.legacy && hd.accepts == Accepts(hd.body)
    ensures Uniform(Handlers(), Accepts)
  {
    forall hd: Handler<Case> | !hd.legacy && hd.accepts == Accepts(hd.body)
      ensures hd in Handlers()
    {
      var i := match hd.body
        case OnMissingArgument => 0
        case OnUnusedArgument => 1
        case OnMissingFlagValue => 2
        case OnAlreadyPresentFlag => 3
        case OnArgument => 4;
      assert Handlers()[i] == hd;
    }
  }

  /** The tables of this converter and of the nested one that meet the
      documented more-specific-first guarantee. */
  ghost predicate Tables(h: Hierarchy, hs: seq<Handler<Case>>, n: Nested) {
    WellFormed(h) && SortedTable(h, Handlers(), hs) && ArgumentConverter.Table(h, n.inner)
  }

  lemma TableIsValidHandlerList(h: Hierarchy, hs: seq<Handler<Case>>)
    ensures WellFormed(h) && SortedTable(h, Handlers(), hs) <==> WellFormed(h) && ValidHandlerList(h, Methods(), hs)
  {
    RegistersEveryOverload();
  }

  /** A missing argument: "parameter.argument.missing" with the parameter's
      name when it is known, the plain "parameter.argument.missing.unknown"
      text otherwise; no full-help hint. */
  lemma ConvertsMissingArgument(h: Hierarchy, hs: seq<Handler<Case>>, n: Nested, e: Thrown, x: ExceptionContext)
    requires Tables(h, hs, n) && e.cls == MissingArgumentException
    ensures Convert(h, hs, Runner(h, n), e, Some(x)).outcome == Escalate(h, UsageError(
              Some(if e.parameter.Some? then n.m.formatted("parameter.argument.missing", [ArgumentConverter.Text(e.parameter.value)])
                   else n.m.plain("parameter.argument.missing.unknown")),
              x.command, x.aliasStack, false, Some(e)))
  {
    HandlersAreUniform();
    UniformTableDecides(h, Handlers(), hs, Accepts, Runner(h, n), e, Some(x), OnMissingArgument);
  }

  /** Unused input: "parameter.argument.unused" with the unconsumed text; no
      full-help hint. */
  lemma ConvertsUnusedArgument(h: Hierarchy, hs: seq<Handler<Case>>, n: Nested, e: Thrown, x: ExceptionContext)
    requires Tables(h, hs, n) && e.cls == UnusedArgumentException && Coherent(e)
    ensures Convert(h, hs, Runner(h, n), e, Some(x)).outcome == Escalate(h, UsageError(
              Some(n.m.formatted("parameter.argument.unused", [ArgumentConverter.Text(e.payload.text)])),
              x.command, x.aliasStack, false, Some(e)))
  {
    HandlersAreUniform();
    UniformTableDecides(h, Handlers(), hs, Accepts, Runner(h, n), e, Some(x), OnUnusedArgument);
  }

  /** The two flag-value errors: a fixed bundle text each, with the
      full-help hint. */
  lemma ConvertsFlagValueErrors(h: Hierarchy, hs: seq<Handler<Case>>, n: Nested, e: Thrown, x: ExceptionContext)
    requires Tables(h, hs, n) && e.cls in {MissingFlagValueException, AlreadyPresentFlagException}
    ensures Convert(h, hs, Runner(h, n), e, Some(x)).outcome == Escalate(h, UsageError(
              Some(n.m.plain(if e.cls == MissingFlagValueException then "parameter.flag.value.missing"
                             else "parameter.flag.value.already-given")),
              x.command, x.aliasStack, true, Some(e)))
  {
    HandlersAreUniform();
    var c := if e.cls == MissingFlagValueException then OnMissingFlagValue else OnAlreadyPresentFlag;
    var key := if e.cls == MissingFlagValueException then "parameter.flag.value.missing"
               else "parameter.flag.value.already-given";
    assert Runner(h, n)(c, e, Some(x)) == Raise(UsageError(Some(n.m.plain(key)), x.command, x.aliasStack, true, Some(e)));
    UniformTableDecides(h, Handlers(), hs, Accepts, Runner(h, n), e, Some(x), c);
  }

  /** Of this converter's overloads, only the delegating one accepts `cls`. */
  ghost predicate OnlyDelegationApplies(h: Hierarchy, cls: ExnClass) {
    forall c :: IsSubclass(h, cls, Accepts(c)) <==> c == OnArgument
  }

  /** With the documented class links, an `ArgumentException`, an
      `ArgumentParseException` and every parse failure of the providers is
      accepted by the `ArgumentException` overload alone. */
  lemma OnlyArgumentOverloadApplies(h: Hierarchy, cls: ExnClass)
    requires WellFormed(h) && DocumentedLinks(h)
    requires cls in {ArgumentException, ArgumentParseException, NonnumericalInputException, UnderRangeException,
                     OverRangeException, StringFormatException, NoMatchInEnumException}
    ensures OnlyDelegationApplies(h, cls)
  {
    assert IsSubclass(h, cls, ArgumentException) by {
      if cls != ArgumentException {
        assert Parent(h, ArgumentParseException) == Some(ArgumentException);
        if cls != ArgumentParseException {
          assert Parent(h, cls) == Some(ArgumentParseException);
        }
      }
    }
    forall c | IsSubclass(h, cls, Accepts(c))
      ensures c == OnArgument
    {
      if cls == ArgumentException {
        ArgumentAncestors(h, Accepts(c));
      } else if cls == ArgumentParseException {
        ArgumentParseAncestors(h, Accepts(c));
      } else {
        ParseLeafAncestors(h, cls, Accepts(c));
      }
    }
  }

  /** An exception only the `ArgumentException` overload accepts, with a parse
      failure as its cause, is worded by the nested converter from that
      cause, with the same context; a usage error being a `CommandException`,
      that usage error is what `convert` throws, in every order of both
      tables. */
  lemma DelegatesParseFailures(h: Hierarchy, hs: seq<Handler<Case>>, n: Nested, e: Thrown, x: ExceptionContext,
                               t: Thrown, c: ArgumentConverter.Case)
    requires Tables(h, hs, n) && OnlyDelegationApplies(h, e.cls)
    requires e.cause == Some(t)
    requires t.cls == ArgumentConverter.Accepts(c) && Coherent(t)
    ensures var d := ArgumentConverter.Describe(c, t).value;
            IsSubclass(h, InvalidUsageException, CommandException) ==>
            Convert(h, hs, Runner(h, n), e, Some(x)).outcome == Rethrown(UsageError(
              Some(ArgumentConverter.ParameterError(n.m, n.m.formatted(d.0, d.1), t)),
              x.command, x.aliasStack, false, Some(t)))
  {
    if IsSubclass(h, InvalidUsageException, CommandException) {
      DelegationRethrows(h, n, e, x, t, c);
      HandlersAreUniform();
      assert IsSubclass(h, e.cls, Accepts(OnArgument));
      UniformTableDecides(h, Handlers(), hs, Accepts, Runner(h, n), e, Some(x), OnArgument);
    }
  }

  /** The delegating overload, given a parse failure as the cause, throws the
      usage error the nested converter rethrows. */
  lemma DelegationRethrows(h: Hierarchy, n: Nested, e: Thrown, x: ExceptionContext, t: Thrown, c: ArgumentConverter.Case)
    requires ArgumentConverter.Table(h, n.inner) && IsSubclass(h, InvalidUsageException, CommandException)
    requires e.cause == Some(t)
    requires t.cls == ArgumentConverter.Accepts(c) && Coherent(t)
    ensures var d := ArgumentConverter.Describe(c, t).value;
            Runner(h, n)(OnArgument, e, Some(x)) == Raise(UsageError(
              Some(ArgumentConverter.ParameterError(n.m, n.m.formatted(d.0, d.1), t)),
              x.command, x.aliasStack, false, Some(t)))
  {
    ArgumentConverter.ConvertsParseFailure(h, n.inner, n.m, t, x, c);
  }

  /** An exception only the `ArgumentException` overload accepts, without a
      cause (a range failure raised directly by a provider, say), makes the
      delegation dereference null; the walk wraps that as an internal
      failure. */
  lemma MissingCauseIsInternalFailure(h: Hierarchy, hs: seq<Handler<Case>>, n: Nested, e: Thrown,
                                      ctx: Option<ExceptionContext>)
    requires Tables(h, hs, n) && OnlyDelegationApplies(h, e.cls)
    requires e.cause.None?
    ensures Convert(h, hs, Runner(h, n), e, ctx).outcome == Wrapped(TargetInvocation(NullDereference()))
  {
    assert !IsSubclass(h, NullPointerException, CommandException) by {
      if IsSubclass(h, NullPointerException, CommandException) {
        assert IsSubclass(h, RuntimeException, CommandException);
        assert IsSubclass(h, Exception, CommandException);
        ExceptionAncestors(h, CommandException);
      }
    }
    assert Escalate(h, NullDereference()) == Wrapped(TargetInvocation(NullDereference()));
    HandlersAreUniform();
    assert IsSubclass(h, e.cls, Accepts(OnArgument));
    assert Runner(h, n)(OnArgument, e, ctx) == Raise(NullDereference());
    UniformTableDecides(h, Handlers(), hs, Accepts, Runner(h, n), e, ctx, OnArgument);
  }

  /** An exception only the `ArgumentException` overload accepts, whose cause
      no overload of the nested converter accepts: the nested `convert`
      returns, so the delegating overload returns, and `convert` ends
      normally after invoking that overload alone. */
  lemma LeavesUnknownCauses(h: Hierarchy, hs: seq<Handler<Case>>, n: Nested, e: Thrown, t: Thrown,
                            ctx: Option<ExceptionContext>)
    requires Tables(h, hs, n) && OnlyDelegationApplies(h, e.cls)
    requires e.cause == Some(t)
    requires forall c: ArgumentConverter.Case :: !IsSubclass(h, t.cls, ArgumentConverter.Accepts(c))
    ensures var r := Convert(h, hs, Runner(h, n), e, ctx);
            && r.outcome == Returned && |r.invoked| > 0
            && forall k | k in r.invoked :: k < |hs| && hs[k].body == OnArgument
  {
    ArgumentConverter.LeavesOtherFailures(h, n.inner, n.m, t, ctx);
    HandlersAreUniform();
    QuietTableReturns(h, Handlers(), hs, Runner(h, n), e, ctx);
    assert Handler(Accepts(OnArgument), false, OnArgument) in Handlers();
    TableInvokesNothingIffUnmatched(h, Handlers(), hs, Runner(h, n), e, ctx);
    forall k | 0 <= k < |hs| && Applies(h, hs[k], e)
      ensures hs[k].body == OnArgument
    {
      assert hs[k] in multiset(hs);
    }
  }

  /** Failures this converter leaves to the host: provisioning failures,
      interruptions and a flag error of no more specific kind match no
      overload, so `convert` returns normally. */
  lemma LeavesHostFailures(h: Hierarchy, hs: seq<Handler<Case>>, n: Nested, e: Thrown, ctx: Option<ExceptionContext>)
    requires Tables(h, hs, n) && DocumentedLinks(h)
    requires e.cls in {ProvisionException, InterruptedException, FlagException}
    ensures Convert(h, hs, Runner(h, n), e, ctx) == Conversion([], Returned)
  {
    HandlersAreUniform();
    forall hd | hd in Handlers()
      ensures !IsSubclass(h, e.cls, hd.accepts)
    {
      if IsSubclass(h, e.cls, hd.accepts) {
        match e.cls {
          case ProvisionException => ProvisionAncestors(h, hd.accepts);
          case InterruptedException =>
            assert IsSubclass(h, Exception, hd.accepts);
            ExceptionAncestors(h, hd.accepts);
          case FlagException =>
            assert IsSubclass(h, Exception, hd.accepts);
            ExceptionAncestors(h, hd.accepts);
        }
        assert false;
      }
    }
    UnmatchedTableReturns(h, Handlers(), hs, Runner(h, n), e, ctx);
  }
}
