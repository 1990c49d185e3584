/** Exception objects as values: the runtime class, the message and cause every
    `Throwable` carries, the parameter an argument error may be attached to,
    and the fields particular classes add. */
module Throwables {
  import opened JavaValues
  import opened Taxonomy

  /** Identity of a `CommandCallable`; its behaviour is not part of this model. */
  datatype CommandRef = CommandRef(id: nat)

  /** The fields a class adds to `Throwable`. */
  datatype Payload =
    | NoPayload
    | FlagName(flag: char)
    | Unconsumed(text: string)
    | Input(input: string)
    | Bound(number: real, limit: real)
    | Format(format: string)
    | EnumName(name: string)
    | Usage(command: CommandRef, aliasStack: seq<string>, fullHelp: bool)

  /** A thrown object. `parameter` is the name of the command parameter an
      argument error is attached to (`getParameter()`), when there is one. */
  datatype Thrown = Thrown(
    cls: ExnClass,
    message: Option<string>,
    cause: Option<Thrown>,
    parameter: Option<string>,
    payload: Payload)

  /** The payload matches the runtime class: an object of a class that declares
      fields carries exactly those fields. */
  predicate Coherent(t: Thrown) {
    match t.cls
    case FlagException => t.payload.FlagName?
    case MissingFlagValueException => t.payload.FlagName?
    case AlreadyPresentFlagException => t.payload.FlagName?
    case UnusedArgumentException => t.payload.Unconsumed?
    case NonnumericalInputException => t.payload.Input?
    case UnderRangeException => t.payload.Bound?
    case OverRangeException => t.payload.Bound?
    case StringFormatException => t.payload.Format?
    case NoMatchInEnumException => t.payload.EnumName?
    case InvalidUsageException => t.payload.Usage?
    case SubcommandRequiredException => t.payload.Usage?
    case _ => t.payload.NoPayload?
  }

  /** `new InvalidUsageException(message, command, aliasStack, fullHelp, cause)`. */
  function UsageError(message: Option<string>, command: CommandRef, aliasStack: seq<string>,
                      fullHelp: bool, cause: Option<Thrown>): (r: Thrown)
    ensures Coherent(r) && r.cls == InvalidUsageException
  {
    Thrown(InvalidUsageException, message, cause, None, Usage(command, aliasStack, fullHelp))
  }

  /** `new InvocationCommandException(message, cause)`. */
  function InvocationFailure(message: Option<string>, cause: Option<Thrown>): (r: Thrown)
    ensures Coherent(r) && r.cls == InvocationCommandException
  {
    Thrown(InvocationCommandException, message, cause, None, NoPayload)
  }

  /** What reflective invocation throws when the invoked method itself
      throws `target`: `new InvocationTargetException(target)`, whose cause
      is `target`. */
  function TargetInvocation(target: Thrown): (r: Thrown)
    ensures Coherent(r) && r.cls == InvocationTargetException && r.cause == Some(target)
  {
    Thrown(InvocationTargetException, None, Some(target), None, NoPayload)
  }

  /** What the JVM throws when code dereferences a null reference. */
  function NullDereference(): (r: Thrown)
    ensures Coherent(r) && r.cls == NullPointerException
  {
    Thrown(NullPointerException, None, None, None, NoPayload)
  }

  /** What reflective invocation throws when an argument has the wrong type. */
  function ArgumentTypeMismatch(): (r: Thrown)
    ensures Coherent(r) && r.cls == IllegalArgumentException
  {
    Thrown(IllegalArgumentException, Some("argument type mismatch"), None, None, NoPayload)
  }
}
