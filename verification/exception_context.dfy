/** The context a converted error is reported in: the command that failed and
    the aliases that led to it. Built through a builder; both parts are
    mandatory. */
module ExceptionContexts {
  import opened JavaValues
  import opened Throwables

  /** Only `Build` creates one, and it never holds a null part. */
  datatype ExceptionContext = ExceptionContext(command: CommandRef, aliasStack: seq<string>)

  /** `checkNotNull(reference, name)` failing: a `NullPointerException` whose
      message is the parameter's name. */
  function NullArgument(name: string): (r: Thrown)
    ensures Coherent(r) && r.cls == Taxonomy.NullPointerException && r.message == Some(name)
  {
    Thrown(Taxonomy.NullPointerException, Some(name), None, None, NoPayload)
  }

  /** The private constructor: the command is checked before the alias stack. */
  function NewContext(command: Option<CommandRef>, aliasStack: Option<seq<string>>): (r: Result<ExceptionContext, Thrown>)
    ensures command.None? ==> r == Failure(NullArgument("command"))
    ensures command.Some? && aliasStack.None? ==> r == Failure(NullArgument("aliasStack"))
    ensures r.Success? <==> command.Some? && aliasStack.Some?
    ensures r.Success? ==> r.value.command == command.value && r.value.aliasStack == aliasStack.value
  {
    if command.None? then Failure(NullArgument("command"))
    else if aliasStack.None? then Failure(NullArgument("aliasStack"))
    else Success(ExceptionContext(command.value, aliasStack.value))
  }

  /** `ExceptionContext.Builder`: both fields start unset (null). */
  datatype Builder = Builder(command: Option<CommandRef>, aliasStack: Option<seq<string>>)

  function NewBuilder(): Builder {
    Builder(None, None)
  }

  function SetCommand(b: Builder, command: Option<CommandRef>): (r: Builder)
    ensures r.command == command && r.aliasStack == b.aliasStack
  {
    b.(command := command)
  }

  function SetAliasStack(b: Builder, aliasStack: Option<seq<string>>): (r: Builder)
    ensures r.aliasStack == aliasStack && r.command == b.command
  {
    b.(aliasStack := aliasStack)
  }

  /** `build`: the context of the parts set last, or the constructor's null
      check failing. */
  function Build(b: Builder): (r: Result<ExceptionContext, Thrown>)
    ensures r.Success? <==> b.command.Some? && b.aliasStack.Some?
    ensures r.Success? ==> r.value == ExceptionContext(b.command.value, b.aliasStack.value)
    ensures r.Failure? ==> r.error.cls == Taxonomy.NullPointerException
  {
    NewContext(b.command, b.aliasStack)
  }

  /** One call of a builder setter, as in a fluent chain. */
  datatype Setter = Command(command: Option<CommandRef>) | AliasStack(aliasStack: Option<seq<string>>)

  /** The builder after a chain of setter calls, applied left to right. */
  function Chain(b: Builder, calls: seq<Setter>): Builder
    decreases |calls|
  {
    if |calls| == 0 then b
    else
      var init := Chain(b, calls[..|calls| - 1]);
      match calls[|calls| - 1]
      case Command(c) => SetCommand(init, c)
      case AliasStack(s) => SetAliasStack(init, s)
  }

  /** After any chain, the builder holds the command of the last `command`
      call in it (when there is one). */
  lemma {:induction false} LastCommandWins(b: Builder, calls: seq<Setter>, i: nat)
    requires i < |calls| && calls[i].Command?
    requires forall k | i < k < |calls| :: !calls[k].Command?
    ensures Chain(b, calls).command == calls[i].command
    decreases |calls|
  {
    if i < |calls| - 1 {
      LastCommandWins(b, calls[..|calls| - 1], i);
    }
  }

  /** After any chain, the builder holds the alias stack of the last
      `aliasStack` call in it (when there is one). */
  lemma {:induction false} LastAliasStackWins(b: Builder, calls: seq<Setter>, j: nat)
    requires j < |calls| && calls[j].AliasStack?
    requires forall k | j < k < |calls| :: !calls[k].AliasStack?
    ensures Chain(b, calls).aliasStack == calls[j].aliasStack
    decreases |calls|
  {
    if j < |calls| - 1 {
      LastAliasStackWins(b, calls[..|calls| - 1], j);
    }
  }

  /** Whatever was set before and in whatever order, a build after a chain
      that sets both parts yields a context whose getters return exactly the
      last values set, and fails exactly when one of those was null. */
  lemma BuildUsesLastValues(b: Builder, calls: seq<Setter>, i: nat, j: nat)
    requires i < |calls| && calls[i].Command? && forall k | i < k < |calls| :: !calls[k].Command?
    requires j < |calls| && calls[j].AliasStack? && forall k | j < k < |calls| :: !calls[k].AliasStack?
    ensures var r := Build(Chain(b, calls));
      && (r.Success? <==> calls[i].command.Some? && calls[j].aliasStack.Some?)
      && (r.Success? ==> r.value.command == calls[i].command.value && r.value.aliasStack == calls[j].aliasStack.value)
  {
    LastCommandWins(b, calls, i);
    LastAliasStackWins(b, calls, j);
  }

  /** A builder with a part left unset (or set to null) fails to build, and
      the failure names the first missing part. */
  lemma BuildRejectsMissingParts(b: Builder)
    ensures Build(b).Failure? <==> b.command.None? || b.aliasStack.None?
    ensures Build(NewBuilder()) == Failure(NullArgument("command"))
    ensures b.command.Some? && b.aliasStack.None? ==> Build(b) == Failure(NullArgument("aliasStack"))
  {
  }
}
