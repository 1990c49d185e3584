# Intake exception conversion, binding registry and number validation in Dafny

This project models four parts of Intake, a Java library that turns command lines into calls of annotated handler methods:

- **The exception conversion chain.**
  - `ExceptionConverterHelper` scans a converter's methods for exception handlers and sorts them by specificity. When a command fails, it walks the sorted list.
  - `DefaultExceptionConverter` is the library's own handler table.
  - `ExceptionContext` is the (command, alias stack) record each converted usage error carries.
  - `I18nExceptionConverter` and `ArgumentExceptionConverter` are the two example converters. They show localised messages and delegation to a second converter.
- **The exception taxonomy.** This covers the class hierarchy the handlers match against, and the leaf exceptions with their exact message texts.
- **The binding registry.**
  - `Key` is a (type, classifier) value.
  - `BindingList` is a multimap from a key's type to (key, provider) entries.
- **`NumberProvider`.** It parses numeric input and checks it against `@Range` modifiers.

Everything is written as immutable datatypes and pure functions. The exception chain is spread over several modules:

- `JavaValues` holds the Java conventions that matter:
  - `Result` for "returns or throws";
  - string concatenation of `null`;
  - 32-bit `int` wrap-around.
- `Taxonomy` holds the exception classes as a closed enumeration.
  - Parent links shown in the sources are fixed.
  - The links of classes not shown (`ArgumentException`, `CommandException`, `OverRangeException`, …) are a parameter `Hierarchy`, constrained only to be acyclic.
  - `DocumentedLinks` names the links the library documents. Lemmas that need them require it explicitly.
- `Throwables` models a thrown object as its class, message, cause and a class-specific payload.
- `ConverterHelper` models handler discovery, the comparator, the sort guarantee and the walk, generically over any handler table.
  - `Convert` returns the list of handlers it invoked and how the walk ended:
    - returned normally;
    - rethrew a `CommandException`;
    - wrapped another failure in `InvocationCommandException`.
- `DefaultConverter`, `ArgumentConverter` and `I18nConverter` are the three concrete tables.
  - Each has a handler case per `@ExceptionMatch` overload.
  - Each has a run function giving what that overload throws.
  - Each has lemmas stating what `convert` does with every kind of failure, for any handler order that meets the documented guarantee.
- `Keys` and `Bindings` model `Key` and `BindingList`.
  - Which entry `getBinding` returns among several is an unspecified choice. It depends on `HashMultimap` iteration order.
  - The model expresses that as the predicate `Answers` and the method `GetBinding`, whose choice is nondeterministic.
- `Numbers` models `NumberProvider`, with numbers as reals.

At three places the code does less, or other, than its own comments and messages suggest. The model follows the code:

- The class comment of `ExceptionConverterHelper` (`intake/src/main/java/com/sk89q/intake/parametric/handler/ExceptionConverterHelper.java:39-40`) says handlers are called in order of decreasing inheritance level. It does not say that the first one ends the conversion, and it does not. The loop (`intake/src/main/java/com/sk89q/intake/parametric/handler/ExceptionConverterHelper.java:81-96`) invokes every handler whose type matches, in list order, until one throws. `ConverterHelper.Convert` models the loop.
- The refusal message of `addBinding` (`intake/src/main/java/com/sk89q/intake/internal/parametric/BindingList.java:43-44`) says "a provider is already registered for" the key. The test behind it is `HashMultimap.put` answering false, which happens only for an entry equal in key *and* provider (Finding 2).
- The same class comment leaves the order between unrelated inheritance branches undefined. The comparator (`intake/src/main/java/com/sk89q/intake/parametric/handler/ExceptionConverterHelper.java:127-136`) is in fact not a valid comparator, so even the order within one branch is not guaranteed (Finding 1).

## Model

| member | source | states |
|---|---|---|
| ConverterHelper.Discover | intake/src/main/java/com/sk89q/intake/parametric/handler/ExceptionConverterHelper.java:50-71 | a handler is kept only if it is marked, has one or two parameters, takes a throwable first and, when it has two, takes a context second; one-parameter handlers are legacy and are called without the context; never more handlers than methods |
| ConverterHelper.DiscoverKeepsRegistered | intake/src/main/java/com/sk89q/intake/parametric/handler/ExceptionConverterHelper.java:50-71 | when every method has a registrable shape, every one becomes a handler, in scan order, with nothing dropped |
| ConverterHelper.CompareOrdersSubclassFirst | intake/src/main/java/com/sk89q/intake/parametric/handler/ExceptionConverterHelper.java:127-136 | the comparator gives 0 for the same type, -1 for a strict subclass against its superclass, and 1 the other way round |
| ConverterHelper.CompareNotAntisymmetric | intake/src/main/java/com/sk89q/intake/parametric/handler/ExceptionConverterHelper.java:127-136 | for two unrelated types (`FlagException`, `InterruptedException`) the comparator answers -1 in both directions, so it is not a valid comparator |
| ConverterHelper.DescendingRunMisordered | intake/src/main/java/com/sk89q/intake/parametric/handler/ExceptionConverterHelper.java:127-136 | the scan order ArgumentParse, Flag, Argument already meets the documented guarantee and is strictly descending under the comparator; its reversal, which a sort that flips descending runs produces, breaks the guarantee |
| ConverterHelper.CompareByDepthIsComparator | intake/src/main/java/com/sk89q/intake/parametric/handler/ExceptionConverterHelper.java:39-40 | comparing by inheritance depth is antisymmetric and transitive, and it still orders every strict subclass before its superclasses |
| ConverterHelper.DepthOrderedIsSpecificityOrdered | intake/src/main/java/com/sk89q/intake/parametric/handler/ExceptionConverterHelper.java:39-40 | a list in decreasing depth order meets the guarantee that no handler comes after a handler for one of its subclasses |
| ConverterHelper.SortByDepth | intake/src/main/java/com/sk89q/intake/parametric/handler/ExceptionConverterHelper.java:73 | the sorted handler list is a permutation of its input in decreasing depth order |
| ConverterHelper.Setup | intake/src/main/java/com/sk89q/intake/parametric/handler/ExceptionConverterHelper.java:47-76 | the constructor's table holds exactly the discovered handlers, as a multiset, and meets the documented more-specific-first guarantee |
| ConverterHelper.WalkInvokes | intake/src/main/java/com/sk89q/intake/parametric/handler/ExceptionConverterHelper.java:81-84 | the walk invokes exactly the handlers whose type is assignable from the thrown class, in list order, up to the first one that throws |
| ConverterHelper.WalkEnds | intake/src/main/java/com/sk89q/intake/parametric/handler/ExceptionConverterHelper.java:81-96 | the walk returns normally iff no applicable handler throws; otherwise it ends with the first throwing handler's escalation |
| ConverterHelper.Escalate | intake/src/main/java/com/sk89q/intake/parametric/handler/ExceptionConverterHelper.java:85-89 | a handler failure is rethrown unchanged iff its class is a `CommandException`; otherwise the walk wraps the `InvocationTargetException` whose cause is that failure |
| ConverterHelper.OutcomeOf | intake/src/main/java/com/sk89q/intake/parametric/handler/ExceptionConverterHelper.java:81-93 | the walk continues exactly after a handler that returned normally; a handler that threw is escalated; a call `Method.invoke` refuses wraps the `IllegalArgumentException` it threw |
| ConverterHelper.Convert | intake/src/main/java/com/sk89q/intake/parametric/handler/ExceptionConverterHelper.java:79-97 | only applicable handlers are invoked, in increasing list positions; the walk ends at the first one that does not return normally, and that handler's outcome is the result: its `CommandException` rethrown unchanged, any other failure wrapped via its `InvocationTargetException`, a refused call wrapped via the `IllegalArgumentException`; no match means a normal return |
| ConverterHelper.AsEffect | intake/src/main/java/com/sk89q/intake/parametric/handler/ExceptionConverterHelper.java:85-93 | the outcome of a delegated `convert` as seen by the handler that called it: a normal return, the rethrown `CommandException` itself, or an `InvocationCommandException` whose cause is the failure the walk wrapped (the `InvocationTargetException` or the reflective `IllegalArgumentException`) |
| ConverterHelper.UsageIn | intake/src/main/java/com/sk89q/intake/parametric/handler/DefaultExceptionConverter.java:52-54 | a usage error built from a context carries that context's command and alias stack and the given cause; a null context is a `NullPointerException` |
| ConverterHelper.UnmatchedReturns | intake/src/main/java/com/sk89q/intake/parametric/handler/ExceptionConverterHelper.java:79-97 | when no handler type is assignable from the thrown class, nothing is invoked and `convert` returns normally |
| ConverterHelper.DecidedByMostSpecific | intake/src/main/java/com/sk89q/intake/parametric/handler/ExceptionConverterHelper.java:81-95 | in a list meeting the guarantee, when the first applicable handler throws, that handler decides the outcome and no other is invoked |
| ConverterHelper.MostSpecificDecides | intake/src/main/java/com/sk89q/intake/parametric/handler/ExceptionConverterHelper.java:81-95 | the handler for the thrown class's nearest registered ancestor is the first applicable one in a list meeting the guarantee |
| ConverterHelper.UniformTableDecides | intake/src/main/java/com/sk89q/intake/parametric/handler/ExceptionConverterHelper.java:73-96 | in every sorted table of a converter whose overloads all throw, the overload for the nearest registered ancestor alone decides the outcome |
| ConverterHelper.UnmatchedTableReturns | intake/src/main/java/com/sk89q/intake/parametric/handler/ExceptionConverterHelper.java:79-97 | in every sorted table, an exception no overload accepts invokes nothing and returns normally |
| ConverterHelper.TableInvokesNothingIffUnmatched | intake/src/main/java/com/sk89q/intake/parametric/handler/ExceptionConverterHelper.java:79-97 | in every sorted table, `convert` invokes no handler iff no registered handler type is assignable from the thrown class |
| ConverterHelper.QuietTableReturns | intake/src/main/java/com/sk89q/intake/parametric/handler/ExceptionConverterHelper.java:81-96 | when every applicable handler returns normally, all of them are invoked and `convert` returns normally |
| DefaultConverter.Run | intake/src/main/java/com/sk89q/intake/parametric/handler/DefaultExceptionConverter.java:49-101 | no overload returns normally; a well-formed exception of the overload's own class always makes it throw; given a context, the five usage-error overloads throw an `InvalidUsageException` carrying the context's command and alias stack and the exception as cause, with full help only for flag errors; the `CommandException` overload rethrows its argument; the provision and interruption overloads throw an `InvocationCommandException` |
| DefaultConverter.RegistersEveryOverload | intake/src/main/java/com/sk89q/intake/parametric/handler/DefaultExceptionConverter.java:49-101 | handler discovery keeps all eight overloads, each with its context parameter |
| DefaultConverter.HandlersAreUniform | intake/src/main/java/com/sk89q/intake/parametric/handler/DefaultExceptionConverter.java:47-101 | there is exactly one handler per overload, accepting its declared class |
| DefaultConverter.TableIsValidHandlerList | intake/src/main/java/com/sk89q/intake/parametric/handler/DefaultExceptionConverter.java:47 | every order of the default handlers that meets the documented more-specific-first guarantee satisfies `ValidHandlerList` for the converter's methods |
| DefaultConverter.DecidedByNearestOverload | intake/src/main/java/com/sk89q/intake/parametric/handler/DefaultExceptionConverter.java:47-101 | an exception of any class is converted by the overload for its nearest ancestor among the eight, in every valid table |
| DefaultConverter.ConvertsMissingArgument | intake/src/main/java/com/sk89q/intake/parametric/handler/DefaultExceptionConverter.java:50-57 | a missing argument becomes the usage error "Too few arguments! No value found for parameter '<name>'" or "Too few arguments!", with no full help, and the exception as cause |
| DefaultConverter.ConvertsUnusedArgument | intake/src/main/java/com/sk89q/intake/parametric/handler/DefaultExceptionConverter.java:61-63 | unused arguments become "Too many arguments! Unused arguments: <text>", with no full help |
| DefaultConverter.ConvertsFlagErrors | intake/src/main/java/com/sk89q/intake/parametric/handler/DefaultExceptionConverter.java:67-68 | any flag exception becomes a usage error with the flag exception's own message and full help |
| DefaultConverter.ConvertsParseErrors | intake/src/main/java/com/sk89q/intake/parametric/handler/DefaultExceptionConverter.java:72-79 | a parse failure becomes "For parameter '<name>': <msg>", or "Error parsing arguments: <msg>" when no parameter is known |
| DefaultConverter.ConvertsArgumentError | intake/src/main/java/com/sk89q/intake/parametric/handler/DefaultExceptionConverter.java:83-85 | any other argument error becomes "Error parsing arguments: <msg>" |
| DefaultConverter.RethrowsCommandException | intake/src/main/java/com/sk89q/intake/parametric/handler/DefaultExceptionConverter.java:89-90 | a `CommandException` is rethrown as the same object, whatever the context |
| DefaultConverter.ConvertsProvisionFailure | intake/src/main/java/com/sk89q/intake/parametric/handler/DefaultExceptionConverter.java:94-95 | a provision failure becomes an `InvocationCommandException` "Internal error occurred: <msg>" with the failure as cause |
| DefaultConverter.ConvertsInterruption | intake/src/main/java/com/sk89q/intake/parametric/handler/DefaultExceptionConverter.java:99-100 | an interruption becomes an `InvocationCommandException` "Execution of the command was interrupted" that carries the interruption's own cause, not the interruption |
| DefaultConverter.LeavesPlatformFailures | intake/src/main/java/com/sk89q/intake/parametric/handler/ExceptionConverterHelper.java:79-97 | `NullPointerException`, `IllegalArgumentException`, `RuntimeException`, `Exception` and `Throwable` themselves match no overload: nothing is invoked and the exception is left unconverted |
| ArgumentConverter.Run | intake-example/src/main/java/com/sk89q/intake/example/i18n/ArgumentExceptionConverter.java:49-83 | no overload returns normally; `Method.invoke` refuses the call exactly when the exception's fields do not fit the overload; a well-formed exception of the overload's class makes it throw; without a context the throw is a `NullPointerException`; with one it is an `InvalidUsageException` without full help, carrying the context's command and alias stack, the parse failure as cause, and "parameter.error" built from the leaf's own message key and arguments |
| ArgumentConverter.DescribesEveryFailure | intake-example/src/main/java/com/sk89q/intake/example/i18n/ArgumentExceptionConverter.java:49-73 | each parse-failure leaf selects its message key with its own arguments: the format, the input, (maximum, input), (minimum, input), or the enum name |
| ArgumentConverter.KeysDistinguishFailures | intake-example/src/main/java/com/sk89q/intake/example/i18n/ArgumentExceptionConverter.java:50-72 | different leaf classes select different message keys |
| ArgumentConverter.RegistersEveryOverload | intake-example/src/main/java/com/sk89q/intake/example/i18n/ArgumentExceptionConverter.java:49-73 | handler discovery keeps all five overloads |
| ArgumentConverter.HandlersAreUniform | intake-example/src/main/java/com/sk89q/intake/example/i18n/ArgumentExceptionConverter.java:45-73 | there is exactly one handler per overload, accepting its declared class |
| ArgumentConverter.TableIsValidHandlerList | intake-example/src/main/java/com/sk89q/intake/example/i18n/ArgumentExceptionConverter.java:45 | every order of its handlers that meets the documented more-specific-first guarantee satisfies `ValidHandlerList` for the converter's methods |
| ArgumentConverter.ConvertsParseFailure | intake-example/src/main/java/com/sk89q/intake/example/i18n/ArgumentExceptionConverter.java:75-83 | a parse-failure leaf is rethrown as a usage error whose message is "parameter.error" applied to the name and the leaf's message, or "parameter.error.unknown" applied to the leaf's message, with the leaf as cause |
| ArgumentConverter.LeavesOtherFailures | intake-example/src/main/java/com/sk89q/intake/example/i18n/ArgumentExceptionConverter.java:38-40 | registered directly, the converter invokes nothing iff no overload's class is assignable from the thrown class, and then `convert` returns normally |
| ArgumentConverter.WrappersMatchNoOverload | intake-example/src/main/java/com/sk89q/intake/example/i18n/ArgumentExceptionConverter.java:38-40 | with the documented parent links, the wrappers `ArgumentParseException` and `ArgumentException`, and `NullPointerException`, `Exception` and `Throwable`, match no overload, so registering the converter directly converts none of them |
| I18nConverter.Run | intake-example/src/main/java/com/sk89q/intake/example/i18n/I18nExceptionConverter.java:40-73 | the four message-key overloads never return normally and throw for a well-formed exception of their own class; with a context, that throw is an `InvalidUsageException` carrying the context's command and alias stack and the exception as cause, with full help for the two flag-value errors only; the `ArgumentException` overload dereferences a null cause as a `NullPointerException` and otherwise does exactly what the argument converter's `convert` does with the cause and the same context |
| I18nConverter.RegistersEveryOverload | intake-example/src/main/java/com/sk89q/intake/example/i18n/I18nExceptionConverter.java:40-73 | handler discovery keeps all five overloads |
| I18nConverter.HandlersAreUniform | intake-example/src/main/java/com/sk89q/intake/example/i18n/I18nExceptionConverter.java:35-73 | there is exactly one handler per overload, accepting its declared class |
| I18nConverter.TableIsValidHandlerList | intake-example/src/main/java/com/sk89q/intake/example/i18n/I18nExceptionConverter.java:35 | every order of its handlers that meets the documented more-specific-first guarantee satisfies `ValidHandlerList` for the converter's methods |
| I18nConverter.ConvertsMissingArgument | intake-example/src/main/java/com/sk89q/intake/example/i18n/I18nExceptionConverter.java:41-48 | a missing argument becomes "parameter.argument.missing" applied to the name, or "parameter.argument.missing.unknown", with no full help |
| I18nConverter.ConvertsUnusedArgument | intake-example/src/main/java/com/sk89q/intake/example/i18n/I18nExceptionConverter.java:52-54 | unused arguments become "parameter.argument.unused" applied to the unconsumed text, with no full help |
| I18nConverter.ConvertsFlagValueErrors | intake-example/src/main/java/com/sk89q/intake/example/i18n/I18nExceptionConverter.java:58-66 | missing and repeated flag values become "parameter.flag.value.missing" and "parameter.flag.value.already-given", with full help |
| I18nConverter.OnlyArgumentOverloadApplies | intake-example/src/main/java/com/sk89q/intake/example/i18n/I18nExceptionConverter.java:69-73 | with the documented parent links, for `ArgumentException`, `ArgumentParseException` and every parse-failure leaf, the delegating overload is the only applicable one |
| I18nConverter.DelegatesParseFailures | intake-example/src/main/java/com/sk89q/intake/example/i18n/I18nExceptionConverter.java:69-73 | for any exception whose only applicable overload is the delegating one, a parse-failure cause ends as the argument converter's usage error for that cause, "parameter.error" with the leaf's message, built from the same context, whenever `InvalidUsageException` is a `CommandException` |
| I18nConverter.MissingCauseIsInternalFailure | intake-example/src/main/java/com/sk89q/intake/example/i18n/I18nExceptionConverter.java:72 | for any exception whose only applicable overload is the delegating one, a missing cause makes the delegation dereference null: `convert` throws an `InvocationCommandException` wrapping the `InvocationTargetException` of that `NullPointerException` |
| I18nConverter.LeavesUnknownCauses | intake-example/src/main/java/com/sk89q/intake/example/i18n/I18nExceptionConverter.java:72 | for any exception whose only applicable overload is the delegating one, a cause that no argument-converter overload accepts is passed on, only the delegating handler runs, and `convert` returns normally |
| I18nConverter.LeavesHostFailures | intake-example/src/main/java/com/sk89q/intake/example/i18n/I18nExceptionConverter.java:75-76 | provision failures, interruptions and flag exceptions of other kinds invoke nothing and return normally |
| ExceptionContexts.NewContext | intake/src/main/java/com/sk89q/intake/parametric/handler/ExceptionContext.java:38-41 | a context is built iff command and alias stack are both non-null; otherwise the failure is a `NullPointerException` naming the null field, command first; the getters return the values given |
| ExceptionContexts.SetCommand | intake/src/main/java/com/sk89q/intake/parametric/handler/ExceptionContext.java:56-59 | the builder records the command and keeps the alias stack |
| ExceptionContexts.SetAliasStack | intake/src/main/java/com/sk89q/intake/parametric/handler/ExceptionContext.java:61-64 | the builder records the alias stack and keeps the command |
| ExceptionContexts.Build | intake/src/main/java/com/sk89q/intake/parametric/handler/ExceptionContext.java:66-68 | building succeeds iff both parts are set, giving a context of exactly those parts; otherwise it is a `NullPointerException` |
| ExceptionContexts.BuildUsesLastValues | intake/src/main/java/com/sk89q/intake/parametric/handler/ExceptionContext.java:56-68 | after any chain of setter calls that sets both parts, in any order and with any earlier values, building succeeds iff the last values set are non-null, and the context holds exactly those values |
| ExceptionContexts.LastCommandWins | intake/src/main/java/com/sk89q/intake/parametric/handler/ExceptionContext.java:56-59 | after any chain of setter calls, the builder holds the command of the last `setCommand` call |
| ExceptionContexts.LastAliasStackWins | intake/src/main/java/com/sk89q/intake/parametric/handler/ExceptionContext.java:61-64 | after any chain of setter calls, the builder holds the alias stack of the last `setAliasStack` call |
| ExceptionContexts.BuildRejectsMissingParts | intake/src/main/java/com/sk89q/intake/parametric/handler/ExceptionContext.java:39-40 | a builder with either field never set fails to build |
| Taxonomy.FlagExceptionsOutsideArgumentErrors | intake/src/main/java/com/sk89q/intake/argument/FlagException.java:28 | no flag exception is an `ArgumentException`, so an `ArgumentException` handler never accepts one |
| Taxonomy.ParseFailuresAreArgumentParseErrors | intake/src/main/java/com/sk89q/intake/parametric/provider/exception/NonnumericalInputException.java:27 | every parse-failure leaf is an `ArgumentParseException` and an `ArgumentException` |
| FlagExceptions.FlagError | intake/src/main/java/com/sk89q/intake/argument/FlagException.java:32-34 | the flag-only constructor records the flag, and no message and no cause |
| FlagExceptions.FlagErrorWithMessage | intake/src/main/java/com/sk89q/intake/argument/FlagException.java:36-39 | this constructor records the message and the flag |
| FlagExceptions.FlagErrorWithCause | intake/src/main/java/com/sk89q/intake/argument/FlagException.java:41-44 | this constructor records the message, the cause and the flag |
| FlagExceptions.MissingFlagValue | intake/src/main/java/com/sk89q/intake/argument/MissingFlagValueException.java:27-33 | both constructors give the same flag exception subtype, flag and message; the second keeps the cause |
| FlagExceptions.AlreadyPresentFlag | intake/src/main/java/com/sk89q/intake/argument/AlreadyPresentFlagException.java:27-33 | both constructors give the same flag exception subtype, flag and message; the second keeps the cause |
| FlagExceptions.MissingFlagValueMessageNamesFlag | intake/src/main/java/com/sk89q/intake/argument/MissingFlagValueException.java:35-37 | the message is "No value specified for the '-<c>' flag.", with the flag right after the dash, and it determines the flag |
| FlagExceptions.AlreadyPresentFlagMessageNamesFlag | intake/src/main/java/com/sk89q/intake/argument/AlreadyPresentFlagException.java:35-37 | the message is "Value flag '<c>' already given", with the flag quoted and no dash, and it determines the flag |
| FlagExceptions.FlagMessagesDistinct | intake/src/main/java/com/sk89q/intake/argument/AlreadyPresentFlagException.java:36 | a missing-value message never equals an already-given message, whatever the two flags |
| ParseExceptions.NonnumericalInput | intake/src/main/java/com/sk89q/intake/parametric/provider/exception/NonnumericalInputException.java:31-38 | the exception carries the input and quotes it in its message |
| ParseExceptions.UnderRange | intake/src/main/java/com/sk89q/intake/parametric/provider/exception/UnderRangeException.java:32-44 | the exception carries the input and the minimum and shows both in its message |
| ParseExceptions.OverRange | intake/src/main/java/com/sk89q/intake/parametric/provider/NumberProvider.java:82 | the exception carries the input and the maximum |
| ParseExceptions.StringFormat | intake/src/main/java/com/sk89q/intake/parametric/provider/exception/StringFormatException.java:31-39 | the exception carries the format and shows it in its message |
| ParseExceptions.NoMatchInEnum | intake/src/main/java/com/sk89q/intake/parametric/provider/exception/NoMatchInEnumException.java:31-38 | the exception carries the enum name and quotes it in its message |
| ParseExceptions.MessagesQuoteTheirArgument | intake/src/main/java/com/sk89q/intake/parametric/provider/exception/NonnumericalInputException.java:32 | the non-number, format and enum messages hold their argument verbatim between a fixed prefix and suffix, so it can be read back |
| ParseExceptions.MessagesInjective | intake/src/main/java/com/sk89q/intake/parametric/provider/exception/StringFormatException.java:32-33 | different arguments give different messages, for each leaf |
| Subcommands.SubcommandRequired | intake/src/main/java/com/sk89q/intake/dispatcher/SubcommandRequiredException.java:32-34 | the usage error always reads "Please choose a sub-command.", suggests full help, and carries the command and alias stack given |
| Subcommands.SubcommandRequiredIsUsageError | intake/src/main/java/com/sk89q/intake/dispatcher/SubcommandRequiredException.java:30 | in every well-formed hierarchy it is an `InvalidUsageException`, and a `CommandException` whenever `InvalidUsageException` is one, so handlers for those classes accept it |
| Keys.Get | intake/src/main/java/com/sk89q/intake/parametric/Key.java:87-89 | the key has the given type and no classifier |
| Keys.GetClassified | intake/src/main/java/com/sk89q/intake/parametric/Key.java:91-93 | the key has the given type and classifier |
| Keys.SetClassifier | intake/src/main/java/com/sk89q/intake/parametric/Key.java:50-52 | the new key keeps the type and takes the new classifier |
| Keys.Equals | intake/src/main/java/com/sk89q/intake/parametric/Key.java:54-70 | `equals` holds iff the argument is non-null and equal in type and classifier, where two nulls are equal |
| Keys.HashCode | intake/src/main/java/com/sk89q/intake/parametric/Key.java:72-77 | the hash is a 32-bit `int`, and is 0 for a key with no type and no classifier |
| Keys.EqualsIsConsistent | intake/src/main/java/com/sk89q/intake/parametric/Key.java:54-77 | `equals` is reflexive, symmetric and transitive, and equal keys have equal hash codes |
| Keys.ClassifierDistinguishesKeys | intake/src/main/java/com/sk89q/intake/parametric/Key.java:65-68 | keys of the same type with different classifiers are unequal |
| Keys.ClassifierRoundTrip | intake/src/main/java/com/sk89q/intake/parametric/Key.java:50-52 | only the last classifier set survives; setting a key's own classifier gives the key back; `get(type)` and `get(type, null)` agree |
| Keys.KeyString | intake/src/main/java/com/sk89q/intake/parametric/Key.java:79-85 | `toString` starts with "Key{type=" and ends with "}" |
| Bindings.AlreadyRegistered | intake/src/main/java/com/sk89q/intake/internal/parametric/BindingList.java:43-44 | the refusal is an `IllegalArgumentException` without cause whose message starts with "Failed to register " followed by the provider's rendering and ends with the key's rendering and "!" |
| Bindings.AddBinding | intake/src/main/java/com/sk89q/intake/internal/parametric/BindingList.java:38-46 | a null key or provider is a `NullPointerException` naming it; it fails iff the same key and provider are already registered; a failure leaves the registry unchanged; a success adds the entry to its type's bucket and changes no other bucket |
| Bindings.AddBindingKeepsValid | intake/src/main/java/com/sk89q/intake/internal/parametric/BindingList.java:42 | every entry stays in the bucket of its key's type |
| Bindings.GetBinding | intake/src/main/java/com/sk89q/intake/internal/parametric/BindingList.java:50-59 | a null key is a `NullPointerException`; the result is null iff no entry has an equal key; otherwise it is a registered entry with an equal key |
| Bindings.AddThenGet | intake/src/main/java/com/sk89q/intake/internal/parametric/BindingList.java:38-59 | after a successful registration of a key, looking it up returns an entry for that key |
| Bindings.AddLeavesOtherTypes | intake/src/main/java/com/sk89q/intake/internal/parametric/BindingList.java:52 | registering under one type leaves every answer for keys of another type as it was |
| Bindings.SecondProviderAccepted | intake/src/main/java/com/sk89q/intake/internal/parametric/BindingList.java:42-45 | a second, different provider for an equal key is accepted, and lookup may then return either |
| Bindings.DuplicateEntryRejected | intake/src/main/java/com/sk89q/intake/internal/parametric/BindingList.java:42-45 | in any registry, registering the same key and provider twice in a row makes the second call fail with the refusal and leave the registry as the first call left it; in a fresh registry the first call succeeds |
| Bindings.AddBindingStrict | intake/src/main/java/com/sk89q/intake/internal/parametric/BindingList.java:43-44 | the corrected registration refuses any key already registered, with any provider |
| Bindings.StrictAddKeepsKeysUnique | intake/src/main/java/com/sk89q/intake/internal/parametric/BindingList.java:43-44 | the corrected registration keeps at most one entry per key |
| Bindings.UniqueKeysDetermineLookup | intake/src/main/java/com/sk89q/intake/internal/parametric/BindingList.java:52-55 | with at most one entry per key, lookup has a single possible answer |
| Numbers.IsProvided | intake/src/main/java/com/sk89q/intake/parametric/provider/NumberProvider.java:38-41 | a number is never provided without input |
| Numbers.Suggestions | intake/src/main/java/com/sk89q/intake/parametric/provider/NumberProvider.java:43-46 | no suggestions are offered |
| Numbers.ParseNumericInput | intake/src/main/java/com/sk89q/intake/parametric/provider/NumberProvider.java:55-66 | null input gives null; parsable text gives its value; other text raises a `NonnumericalInputException` carrying that exact text |
| Numbers.Validate | intake/src/main/java/com/sk89q/intake/parametric/provider/NumberProvider.java:75-86 | validation passes iff every range includes the number, bounds inclusive; a failure is an under-range or over-range exception carrying the number |
| Numbers.ValidateReportsFirstViolation | intake/src/main/java/com/sk89q/intake/parametric/provider/NumberProvider.java:76-85 | the failure comes from the first range in list order that excludes the number, with under-range checked before over-range |
| Numbers.OtherModifiersIgnored | intake/src/main/java/com/sk89q/intake/parametric/provider/NumberProvider.java:77 | a modifier that is not a range changes nothing, wherever it stands |

## Left out

- Reflection is replaced by explicit tables. Each converter lists its overloads as data. `Method.invoke` becomes a run function over a closed case type. The `IllegalAccessException` path cannot arise with public methods and is not modelled.
- The sort itself: `Collections.sort` (TimSort in the JDK) is not modelled. The constructor's table is specified by the class's documented guarantee, and all conversion lemmas hold for every table that meets it. The depth sort `ConverterHelper.SortByDepth` shows that such a table exists.
- The message of an `InvocationCommandException` that `convert` throws is not modelled. Its class and its cause are: the `InvocationTargetException` around the handler's failure, or the `IllegalArgumentException` of a refused call.
- Objects whose fields do not fit their class cannot be built in Java, but the datatype `Thrown` admits them. When such a value reaches an overload, the model treats it as `Method.invoke` refusing an argument of the wrong type: the reflective `IllegalArgumentException` path of `ExceptionConverterHelper.java:90-91`.
- Message lookup (`Messages`, `ResourceBundle`, `MessageFormat`) is a parameter of the example converters. Its output is a function of the key and the arguments, which are modelled exactly.
- `String.format` and `toString` of numbers, types, providers and annotation classes are parameters (`NumberText`, `Renderings`).
- Floating point is left out:
  - numbers are reals;
  - `Double.parseDouble` is a parameter;
  - NaN and the infinities are not modelled.
- The values of `@Range`'s bounds are modelled as given. Range.java is not part of this model.
- `Type.equals`, annotation-class identity and their `hashCode`s are parameters. Types and classifiers compare as values.
- `BindingEntry.hashCode` and `toString` are left out. The multimap is modelled as a map to sets, which uses value equality directly.
- Which of several matching entries `HashMultimap` iterates to first is a nondeterministic choice in `Bindings.GetBinding`.
- `CommandCallable` is an opaque reference. The dispatch tree that raises `SubcommandRequiredException` is not part of this model.
- Visibility, `final` fields and generics have no counterpart. Immutable datatypes make "never changes afterwards" hold by construction. That includes the converter's handler list and the fields of `Key`, `ExceptionContext` and the exceptions.
- I18nConverter.LeavesHostFailures, I18nConverter.OnlyArgumentOverloadApplies and ArgumentConverter.WrappersMatchNoOverload: these require `DocumentedLinks`. The parent links of classes not shown are otherwise unconstrained, and an arbitrary hierarchy could, for example, make `ProvisionException` an `ArgumentException`.
- I18nConverter.DelegatesParseFailures: its conclusion is conditional on `InvalidUsageException` being a `CommandException`, a link of classes not shown. Without it, the usage error would be wrapped instead of rethrown.
- Keys.HashCode: it states only the range and the all-null case. Its agreement with `equals` is in `Keys.EqualsIsConsistent`.

## Findings

| source | as written | input that shows it | evidently intended | confidence | as-written member | corrected member |
|---|---|---|---|---|---|---|
| intake/src/main/java/com/sk89q/intake/parametric/handler/ExceptionConverterHelper.java:127-136 | `compareTo` returns -1 for two handlers on unrelated branches, in both directions, so `Collections.sort` gets an inconsistent comparator | a scan that finds the handlers for `ArgumentParseException`, `FlagException` and `ArgumentException` in that order: each compares below the one before, so the list is one strictly descending run, which TimSort reverses on short inputs, putting `ArgumentException` before its subclass | an order that always meets the class's guarantee, more specific handlers first, e.g. by decreasing inheritance depth | medium (the reversal of descending runs is JDK behaviour, not modelled here); not executed | ConverterHelper.DescendingRunMisordered | ConverterHelper.Setup |
| intake/src/main/java/com/sk89q/intake/internal/parametric/BindingList.java:42-45 | the duplicate check is the multimap's `put`, which compares whole entries (key and provider), so a second, different provider for an equal key is accepted | `addBinding(k, p1)` then `addBinding(k, p2)` with `p1` different from `p2`: no exception, and `getBinding(k)` may return either entry | refuse any second registration for an equal key, as the exception message says | high; not executed | Bindings.SecondProviderAccepted | Bindings.StrictAddKeepsKeysUnique |
