/** The argument-parse failures the value providers raise. Each records the
    offending input or the expectation it missed, and builds its message from
    a fixed template. */
module ParseExceptions {
  import opened JavaValues
  import opened Taxonomy
  import opened Throwables

  /** How the library renders numbers into messages. `show` stands for the
      `%s` rendering of a `Number`; `overRange` for the message of
      `OverRangeException`, a class whose declaration is not part of this model. */
  datatype NumberText = NumberText(show: real -> string, overRange: (real, real) -> string)

  const NonnumericalPrefix: string := "Expected '"
  const NonnumericalSuffix: string := "' to be a number"

  function NonnumericalMessage(input: string): string {
    NonnumericalPrefix + input + NonnumericalSuffix
  }

  /** `new NonnumericalInputException(input)`. */
  function NonnumericalInput(input: string): (r: Thrown)
    ensures Coherent(r) && r.cls == NonnumericalInputException
    ensures r.payload.input == input && r.message == Some(NonnumericalMessage(input))
    ensures r.cause == None && r.parameter == None
  {
    Thrown(NonnumericalInputException, Some(NonnumericalMessage(input)), None, None, Input(input))
  }

  const UnderRangePrefix: string := "A valid value is greater than or equal to "
  const UnderRangeMiddle: string := " (you entered "
  const UnderRangeSuffix: string := ")"

  function UnderRangeMessage(text: NumberText, input: real, minimum: real): string {
    UnderRangePrefix + text.show(minimum) + UnderRangeMiddle + text.show(input) + UnderRangeSuffix
  }

  /** `new UnderRangeException(input, minimum)`: `getInput()` is `number`,
      `getMinimum()` is `limit`. */
  function UnderRange(text: NumberText, input: real, minimum: real): (r: Thrown)
    ensures Coherent(r) && r.cls == UnderRangeException
    ensures r.payload == Bound(input, minimum) && r.message == Some(UnderRangeMessage(text, input, minimum))
    ensures r.cause == None && r.parameter == None
  {
    Thrown(UnderRangeException, Some(UnderRangeMessage(text, input, minimum)), None, None, Bound(input, minimum))
  }

  /** `new OverRangeException(input, maximum)`: `getInput()` is `number`,
      `getMaximum()` is `limit`. */
  function OverRange(text: NumberText, input: real, maximum: real): (r: Thrown)
    ensures Coherent(r) && r.cls == OverRangeException
    ensures r.payload == Bound(input, maximum) && r.message == Some(text.overRange(input, maximum))
    ensures r.cause == None && r.parameter == None
  {
    Thrown(OverRangeException, Some(text.overRange(input, maximum)), None, None, Bound(input, maximum))
  }

  const FormatPrefix: string := "The given text doesn't match the right format (technically speaking, the 'format' is "
  const FormatSuffix: string := ")"

  function StringFormatMessage(format: string): string {
    FormatPrefix + format + FormatSuffix
  }

  /** `new StringFormatException(format)`. */
  function StringFormat(format: string): (r: Thrown)
    ensures Coherent(r) && r.cls == StringFormatException
    ensures r.payload.format == format && r.message == Some(StringFormatMessage(format))
    ensures r.cause == None && r.parameter == None
  {
    Thrown(StringFormatException, Some(StringFormatMessage(format)), None, None, Format(format))
  }

  const EnumPrefix: string := "No matching value found in the '"
  const EnumSuffix: string := "' list."

  function NoMatchInEnumMessage(enumName: string): string {
    EnumPrefix + enumName + EnumSuffix
  }

  /** `new NoMatchInEnumException(enumName)`. */
  function NoMatchInEnum(enumName: string): (r: Thrown)
    ensures Coherent(r) && r.cls == NoMatchInEnumException
    ensures r.payload.name == enumName && r.message == Some(NoMatchInEnumMessage(enumName))
    ensures r.cause == None && r.parameter == None
  {
    Thrown(NoMatchInEnumException, Some(NoMatchInEnumMessage(enumName)), None, None, EnumName(enumName))
  }

  /** The part of a message between a fixed prefix and a fixed suffix. */
  function Between(message: string, prefix: string, suffix: string): string
    requires |prefix| + |suffix| <= |message|
  {
    message[|prefix|..|message| - |suffix|]
  }

  /** Each template quotes its argument verbatim between a fixed prefix and
      suffix, so the argument can be read back from the message. */
  lemma MessagesQuoteTheirArgument(s: string)
    ensures var m := NonnumericalMessage(s);
      |m| == |NonnumericalPrefix| + |s| + |NonnumericalSuffix| && Between(m, NonnumericalPrefix, NonnumericalSuffix) == s
    ensures var m := StringFormatMessage(s);
      |m| == |FormatPrefix| + |s| + |FormatSuffix| && Between(m, FormatPrefix, FormatSuffix) == s
    ensures var m := NoMatchInEnumMessage(s);
      |m| == |EnumPrefix| + |s| + |EnumSuffix| && Between(m, EnumPrefix, EnumSuffix) == s
  {
    QuotedBetween(NonnumericalPrefix, s, NonnumericalSuffix);
    QuotedBetween(FormatPrefix, s, FormatSuffix);
    QuotedBetween(EnumPrefix, s, EnumSuffix);
  }

  lemma QuotedBetween(prefix: string, s: string, suffix: string)
    ensures |prefix + s + suffix| == |prefix| + |s| + |suffix|
    ensures Between(prefix + s + suffix, prefix, suffix) == s
  {
    assert (prefix + s + suffix)[|prefix|..|prefix| + |s|] == s;
  }

  /** Hence a message determines its argument: distinct inputs give distinct
      messages. */
  lemma MessagesInjective(s: string, t: string)
    ensures NonnumericalMessage(s) == NonnumericalMessage(t) ==> s == t
    ensures StringFormatMessage(s) == StringFormatMessage(t) ==> s == t
    ensures NoMatchInEnumMessage(s) == NoMatchInEnumMessage(t) ==> s == t
  {
    MessagesQuoteTheirArgument(s);
    MessagesQuoteTheirArgument(t);
  }
}
