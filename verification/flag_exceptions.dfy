/** `FlagException` and its two subclasses: problems with the flags of a
    command line, each remembering the flag character it is about. */
module FlagExceptions {
  import opened JavaValues
  import opened Taxonomy
  import opened Throwables

  /** `getFlagName()`. */
  function FlagNameOf(t: Thrown): char
    requires t.payload.FlagName?
  {
    t.payload.flag
  }

  /** `new FlagException(flagName)`: no message, no cause. */
  function FlagError(flagName: char): (r: Thrown)
    ensures Coherent(r) && r.cls == FlagException
    ensures FlagNameOf(r) == flagName && r.message == None && r.cause == None
  {
    Thrown(FlagException, None, None, None, FlagName(flagName))
  }

  /** `new FlagException(message, flagName)`. */
  function FlagErrorWithMessage(message: string, flagName: char): (r: Thrown)
    ensures Coherent(r) && r.cls == FlagException
    ensures FlagNameOf(r) == flagName && r.message == Some(message) && r.cause == None
  {
    Thrown(FlagException, Some(message), None, None, FlagName(flagName))
  }

  /** `new FlagException(message, cause, flagName)`. */
  function FlagErrorWithCause(message: string, cause: Thrown, flagName: char): (r: Thrown)
    ensures Coherent(r) && r.cls == FlagException
    ensures FlagNameOf(r) == flagName && r.message == Some(message) && r.cause == Some(cause)
  {
    Thrown(FlagException, Some(message), Some(cause), None, FlagName(flagName))
  }

  const MissingValuePrefix: string := "No value specified for the '-"
  const MissingValueSuffix: string := "' flag."

  function MissingFlagValueMessage(flagName: char): string {
    MissingValuePrefix + [flagName] + MissingValueSuffix
  }

  const AlreadyGivenPrefix: string := "Value flag '"
  const AlreadyGivenSuffix: string := "' already given"

  function AlreadyPresentFlagMessage(flagName: char): string {
    AlreadyGivenPrefix + [flagName] + AlreadyGivenSuffix
  }

  /** `new MissingFlagValueException(flagName)` and, when `cause` is given,
      `new MissingFlagValueException(cause, flagName)`. */
  function MissingFlagValue(cause: Option<Thrown>, flagName: char): (r: Thrown)
    ensures Coherent(r) && r.cls == MissingFlagValueException
    ensures FlagNameOf(r) == flagName && r.cause == cause
    ensures r.message == Some(MissingFlagValueMessage(flagName))
  {
    Thrown(MissingFlagValueException, Some(MissingFlagValueMessage(flagName)), cause, None, FlagName(flagName))
  }

  /** `new AlreadyPresentFlagException(flagName)` and, when `cause` is given,
      `new AlreadyPresentFlagException(cause, flagName)`. */
  function AlreadyPresentFlag(cause: Option<Thrown>, flagName: char): (r: Thrown)
    ensures Coherent(r) && r.cls == AlreadyPresentFlagException
    ensures FlagNameOf(r) == flagName && r.cause == cause
    ensures r.message == Some(AlreadyPresentFlagMessage(flagName))
  {
    Thrown(AlreadyPresentFlagException, Some(AlreadyPresentFlagMessage(flagName)), cause, None, FlagName(flagName))
  }

  /** The missing-value message reads "No value specified for the '-c' flag.":
      the flag follows a dash, and the message names exactly one flag. */
  lemma MissingFlagValueMessageNamesFlag(c: char, d: char)
    ensures MissingFlagValueMessage(c) == "No value specified for the '-" + [c] + "' flag."
    ensures |MissingFlagValueMessage(c)| == 37
    ensures MissingFlagValueMessage(c)[28] == '-' && MissingFlagValueMessage(c)[29] == c
    ensures MissingFlagValueMessage(c) == MissingFlagValueMessage(d) ==> c == d
  {
    assert MissingFlagValueMessage(c)[29] == c;
    assert MissingFlagValueMessage(d)[29] == d;
  }

  /** The already-given message reads "Value flag 'c' already given": the flag
      is quoted without a dash, and the message names exactly one flag. */
  lemma AlreadyPresentFlagMessageNamesFlag(c: char, d: char)
    ensures AlreadyPresentFlagMessage(c) == "Value flag '" + [c] + "' already given"
    ensures |AlreadyPresentFlagMessage(c)| == 28
    ensures AlreadyPresentFlagMessage(c)[11] == '\'' && AlreadyPresentFlagMessage(c)[12] == c
    ensures AlreadyPresentFlagMessage(c) == AlreadyPresentFlagMessage(d) ==> c == d
  {
    assert AlreadyPresentFlagMessage(c)[12] == c;
    assert AlreadyPresentFlagMessage(d)[12] == d;
  }

  /** The two messages can never be confused, whatever the flags. */
  lemma FlagMessagesDistinct(c: char, d: char)
    ensures MissingFlagValueMessage(c) != AlreadyPresentFlagMessage(d)
  {
    assert MissingFlagValueMessage(c)[0] == 'N';
    assert AlreadyPresentFlagMessage(d)[0] == 'V';
  }
}
