/** The library's default converter: eight handlers that turn argument, flag,
    command, provisioning and interruption failures into a usage error or an
    invocation failure. */
module DefaultConverter {
  import opened JavaValues
  import opened Taxonomy
  import opened Throwables
  import opened ExceptionContexts
  import opened ConverterHelper

  /** The eight `convert` overloads, named after the class each one takes. */
  datatype Case =
    | OnMissingArgument
    | OnUnusedArgument
    | OnFlag
    | OnArgumentParse
    | OnArgument
    | OnCommand
    | OnProvision
    | OnInterrupted

  function Accepts(c: Case): ExnClass {
    match c
    case OnMissingArgument => MissingArgumentException
    case OnUnusedArgument => UnusedArgumentException
    case OnFlag => FlagException
    case OnArgumentParse => ArgumentParseException
    case OnArgument => ArgumentException
    case OnCommand => CommandException
    case OnProvision => ProvisionException
    case OnInterrupted => InterruptedException
  }

  /** Every overload is marked and takes (exception, context). */
  function MethodFor(c: Case): Method<Case> {
    Method(true, [ThrowableParam(Accepts(c)), ContextParam], c)
  }

  /** The overloads in declaration order. */
  function Overloads(): seq<Case> {
    [OnMissingArgument, OnUnusedArgument, OnFlag, OnArgumentParse, OnArgument, OnCommand, OnProvision, OnInterrupted]
  }

  function Methods(): seq<Method<Case>> {
    seq(|Overloads()|, i requires 0 <= i < |Overloads()| => MethodFor(Overloads()[i]))
  }

  function ParseErrorMessage(e: Thrown): string {
    match e.parameter
    case Some(name) => "For parameter '" + name + "': " + Concatenated(e.message)
    case None => "Error parsing arguments: " + Concatenated(e.message)
  }

  function MissingArgumentMessage(e: Thrown): string {
    match e.parameter
    case Some(name) => "Too few arguments! No value found for parameter '" + name + "'"
    case None => "Too few arguments!"
  }

  /** What each overload does with the exception it is given. An object
      whose fields do not fit its class, which Java cannot build, stands for
      an argument `Method.invoke` refuses. */
  function Run(c: Case, e: Thrown, ctx: Option<ExceptionContext>): (r: Effect)
    ensures !r.Normal?
    ensures Coherent(e) && e.cls == Accepts(c) ==> r.Raise?
    ensures ctx.Some? && c in {OnMissingArgument, OnUnusedArgument, OnFlag, OnArgumentParse, OnArgument} && r.Raise? ==>
              && r.thrown.cls == InvalidUsageException && r.thrown.cause == Some(e)
              && r.thrown.payload == Usage(ctx.value.command, ctx.value.aliasStack, c == OnFlag)
    ensures c == OnCommand ==> r == Raise(e)
    ensures c in {OnProvision, OnInterrupted} ==> r.Raise? && r.thrown.cls == InvocationCommandException
  {
    match c
    case OnMissingArgument => UsageIn(ctx, Some(MissingArgumentMessage(e)), false, e)
    case OnUnusedArgument =>
      if e.payload.Unconsumed? then
        UsageIn(ctx, Some("Too many arguments! Unused arguments: " + e.payload.text), false, e)
      else Refused
    case OnFlag => UsageIn(ctx, e.message, true, e)
    case OnArgumentParse => UsageIn(ctx, Some(ParseErrorMessage(e)), false, e)
    case OnArgument => UsageIn(ctx, Some("Error parsing arguments: " + Concatenated(e.message)), false, e)
    case OnCommand => Raise(e)
    case OnProvision => Raise(InvocationFailure(Some("Internal error occurred: " + Concatenated(e.message)), Some(e)))
    case OnInterrupted => Raise(InvocationFailure(Some("Execution of the command was interrupted"), e.cause))
  }

  /** The handlers the constructor registers, one per overload. */
  function Handlers(): seq<Handler<Case>> {
    seq(|Overloads()|, i requires 0 <= i < |Overloads()| => Handler(Accepts(Overloads()[i]), false, Overloads()[i]))
  }

  /** The scan registers every overload, with its context. */
  lemma RegistersEveryOverload()
    ensures Discover(Methods()) == Handlers()
  {
    DiscoverOverloads(Overloads(), Accepts, Methods(), Handlers());
  }

  /** The handlers are those that take the context and accept the class of
      their own overload. */
  lemma HandlersAreUniform()
    ensures forall hd: Handler<Case> :: hd in Handlers() <==> !hd.legacy && hd.accepts == Accepts(hd.body)
    ensures Uniform(Handlers(), Accepts)
  {
    forall hd: Handler<Case> | !hd.legacy && hd.accepts == Accepts(hd.body)
      ensures hd in Handlers()
    {
      var i := match hd.body
        case OnMissingArgument => 0
        case OnUnusedArgument => 1
        case OnFlag => 2
        case OnArgumentParse => 3
        case OnArgument => 4
        case OnCommand => 5
        case OnProvision => 6
        case OnInterrupted => 7;
      assert Handlers()[i] == hd;
    }
  }

  /** The tables of this converter that meet the documented
      more-specific-first guarantee. */
  ghost predicate Table(h: Hierarchy, hs: seq<Handler<Case>>) {
    WellFormed(h) && SortedTable(h, Handlers(), hs)
  }

  lemma TableIsValidHandlerList(h: Hierarchy, hs: seq<Handler<Case>>)
    ensures Table(h, hs) <==> WellFormed(h) && ValidHandlerList(h, Methods(), hs)
  {
    RegistersEveryOverload();
  }

  /** An exception is converted by the overload for its nearest handled
      superclass, whatever order the table is in. */
  lemma DecidedByNearestOverload(h: Hierarchy, hs: seq<Handler<Case>>, e: Thrown, ctx: Option<ExceptionContext>, c: Case)
    requires Table(h, hs)
    requires IsSubclass(h, e.cls, Accepts(c))
    requires forall c' | IsSubclass(h, e.cls, Accepts(c')) :: IsSubclass(h, Accepts(c), Accepts(c'))
    ensures Convert(h, hs, Run, e, ctx).outcome == OutcomeOf(h, Run(c, e, ctx))
  {
    HandlersAreUniform();
    UniformTableDecides(h, Handlers(), hs, Accepts, Run, e, ctx, c);
  }

  /** A missing argument reports the parameter when it is known:
      "Too few arguments! No value found for parameter '<name>'", otherwise
      "Too few arguments!"; full help is not suggested. */
  lemma ConvertsMissingArgument(h: Hierarchy, hs: seq<Handler<Case>>, e: Thrown, x: ExceptionContext)
    requires Table(h, hs) && e.cls == MissingArgumentException
    ensures Convert(h, hs, Run, e, Some(x)).outcome == Escalate(h, UsageError(
              Some(if e.parameter.Some? then "Too few arguments! No value found for parameter '" + e.parameter.value + "'"
                   else "Too few arguments!"),
              x.command, x.aliasStack, false, Some(e)))
  {
    DecidedByNearestOverload(h, hs, e, Some(x), OnMissingArgument);
  }

  /** Unused input is echoed after "Too many arguments! Unused arguments: ";
      full help is not suggested. */
  lemma ConvertsUnusedArgument(h: Hierarchy, hs: seq<Handler<Case>>, e: Thrown, x: ExceptionContext)
    requires Table(h, hs) && e.cls == UnusedArgumentException && Coherent(e)
    ensures Convert(h, hs, Run, e, Some(x)).outcome == Escalate(h, UsageError(
              Some("Too many arguments! Unused arguments: " + e.payload.text), x.command, x.aliasStack, false, Some(e)))
  {
    DecidedByNearestOverload(h, hs, e, Some(x), OnUnusedArgument);
  }

  /** A flag error keeps its own message, null included, and suggests the
      full help. None of its superclasses is handled by another overload, so
      this holds whatever the unshown links are. */
  lemma ConvertsFlagErrors(h: Hierarchy, hs: seq<Handler<Case>>, e: Thrown, x: ExceptionContext)
    requires Table(h, hs)
    requires e.cls in {FlagException, MissingFlagValueException, AlreadyPresentFlagException}
    ensures Convert(h, hs, Run, e, Some(x)).outcome == Escalate(h, UsageError(e.message, x.command, x.aliasStack, true, Some(e)))
  {
    FlagExceptionsOutsideArgumentErrors(h, e.cls);
    DecidedByNearestOverload(h, hs, e, Some(x), OnFlag);
  }

  /** A provider's parse failure is always converted by the
      `ArgumentParseException` overload, never by the more general
      `ArgumentException` one, in whatever order the two were registered:
      "For parameter '<name>': <message>" when the parameter is known,
      "Error parsing arguments: <message>" otherwise. */
  lemma ConvertsParseErrors(h: Hierarchy, hs: seq<Handler<Case>>, e: Thrown, x: ExceptionContext)
    requires Table(h, hs)
    requires e.cls in {ArgumentParseException, NonnumericalInputException, UnderRangeException,
                       StringFormatException, NoMatchInEnumException}
    ensures Convert(h, hs, Run, e, Some(x)).outcome == Escalate(h, UsageError(
              Some(if e.parameter.Some? then "For parameter '" + e.parameter.value + "': " + Concatenated(e.message)
                   else "Error parsing arguments: " + Concatenated(e.message)),
              x.command, x.aliasStack, false, Some(e)))
  {
    if e.cls != ArgumentParseException {
      ParseFailuresAreArgumentParseErrors(h, e.cls);
    }
    forall c' | IsSubclass(h, e.cls, Accepts(c'))
      ensures IsSubclass(h, Accepts(OnArgumentParse), Accepts(c'))
    {
    }
    assert Run(OnArgumentParse, e, Some(x)) ==
           Raise(UsageError(Some(ParseErrorMessage(e)), x.command, x.aliasStack, false, Some(e)));
    DecidedByNearestOverload(h, hs, e, Some(x), OnArgumentParse);
  }

  /** A plain argument error: "Error parsing arguments: <message>". */
  lemma ConvertsArgumentError(h: Hierarchy, hs: seq<Handler<Case>>, e: Thrown, x: ExceptionContext)
    requires Table(h, hs) && e.cls == ArgumentException
    ensures Convert(h, hs, Run, e, Some(x)).outcome == Escalate(h, UsageError(
              Some("Error parsing arguments: " + Concatenated(e.message)), x.command, x.aliasStack, false, Some(e)))
  {
    DecidedByNearestOverload(h, hs, e, Some(x), OnArgument);
  }

  /** A `CommandException` comes back out as the very same object. */
  lemma RethrowsCommandException(h: Hierarchy, hs: seq<Handler<Case>>, e: Thrown, ctx: Option<ExceptionContext>)
    requires Table(h, hs) && e.cls == CommandException
    ensures Convert(h, hs, Run, e, ctx).outcome == Rethrown(e)
  {
    DecidedByNearestOverload(h, hs, e, ctx, OnCommand);
  }

  /** A provisioning failure becomes an invocation failure
      "Internal error occurred: <message>" caused by it. */
  lemma ConvertsProvisionFailure(h: Hierarchy, hs: seq<Handler<Case>>, e: Thrown, ctx: Option<ExceptionContext>)
    requires Table(h, hs) && e.cls == ProvisionException
    ensures Convert(h, hs, Run, e, ctx).outcome == Escalate(h,
              InvocationFailure(Some("Internal error occurred: " + Concatenated(e.message)), Some(e)))
  {
    DecidedByNearestOverload(h, hs, e, ctx, OnProvision);
  }

  /** An interruption becomes "Execution of the command was interrupted",
      carrying the interruption's own cause rather than the interruption. */
  lemma ConvertsInterruption(h: Hierarchy, hs: seq<Handler<Case>>, e: Thrown, ctx: Option<ExceptionContext>)
    requires Table(h, hs) && e.cls == InterruptedException
    ensures Convert(h, hs, Run, e, ctx).outcome == Escalate(h,
              InvocationFailure(Some("Execution of the command was interrupted"), e.cause))
  {
    forall c' | IsSubclass(h, e.cls, Accepts(c'))
      ensures IsSubclass(h, Accepts(OnInterrupted), Accepts(c'))
    {
      if Accepts(c') != InterruptedException {
        ExceptionAncestors(h, Accepts(c'));
      }
    }
    DecidedByNearestOverload(h, hs, e, ctx, OnInterrupted);
  }

  /** Failures of the Java platform itself match no overload: `convert`
      returns normally and the caller sees the original exception. */
  lemma LeavesPlatformFailures(h: Hierarchy, hs: seq<Handler<Case>>, e: Thrown, ctx: Option<ExceptionContext>)
    requires Table(h, hs)
    requires e.cls in {NullPointerException, IllegalArgumentException, RuntimeException, Exception, Throwable}
    ensures Convert(h, hs, Run, e, ctx) == Conversion([], Returned)
  {
    HandlersAreUniform();
    forall hd | hd in Handlers()
      ensures !IsSubclass(h, e.cls, hd.accepts)
    {
      if IsSubclass(h, e.cls, hd.accepts) {
        if e.cls in {NullPointerException, IllegalArgumentException} {
          assert IsSubclass(h, RuntimeException, hd.accepts);
        }
        if e.cls != Throwable && e.cls != Exception {
          assert IsSubclass(h, Exception, hd.accepts);
        }
        if e.cls != Throwable {
          ExceptionAncestors(h, hd.accepts);
        }
        assert false;
      }
    }
    UnmatchedTableReturns(h, Handlers(), hs, Run, e, ctx);
  }
}
