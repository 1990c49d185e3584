/** The usage error the dispatcher raises when a command group is invoked
    without naming one of its sub-commands. */
module Subcommands {
  import opened JavaValues
  import opened Taxonomy
  import opened Throwables

  const ChooseSubcommand: string := "Please choose a sub-command."

  /** `new SubcommandRequiredException(command, aliasStack)`: a usage error with
      a fixed message that always suggests the full help text. */
  function SubcommandRequired(command: CommandRef, aliasStack: seq<string>): (r: Thrown)
    ensures Coherent(r) && r.cls == SubcommandRequiredException
    ensures r.message == Some("Please choose a sub-command.")
    ensures r.payload == Usage(command, aliasStack, true)
    ensures r.cause == None
  {
    Thrown(SubcommandRequiredException, Some(ChooseSubcommand), None, None, Usage(command, aliasStack, true))
  }

  /** It is an `InvalidUsageException` in every well-formed hierarchy, so every
      handler for usage errors also sees it. */
  lemma SubcommandRequiredIsUsageError(h: Hierarchy, command: CommandRef, aliasStack: seq<string>)
    requires WellFormed(h)
    ensures IsSubclass(h, SubcommandRequired(command, aliasStack).cls, InvalidUsageException)
    ensures IsSubclass(h, InvalidUsageException, CommandException) ==>
              IsSubclass(h, SubcommandRequired(command, aliasStack).cls, CommandException)
  {
    if IsSubclass(h, InvalidUsageException, CommandException) {
      SubclassTransitive(h, SubcommandRequiredException, InvalidUsageException, CommandException);
    }
  }
}
