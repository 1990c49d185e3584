/** The closed set of exception classes the converters, providers and the
    dispatcher raise or match, and the single-inheritance relation between them.

    Links fixed by the Java platform or by the classes this model covers are
    hard-wired in `Parent`. Links of classes whose declarations are not part of
    this model are a parameter: a `Hierarchy` supplies them, together with a
    rank that witnesses that the parent relation is acyclic. */
module Taxonomy {
  import opened JavaValues

  datatype ExnClass =
    | Throwable
    | Exception
    | RuntimeException
    | NullPointerException
    | IllegalArgumentException
    | InterruptedException
    | ReflectiveOperationException
    | InvocationTargetException
    | CommandException
    | InvalidUsageException
    | InvocationCommandException
    | SubcommandRequiredException
    | ProvisionException
    | ArgumentException
    | ArgumentParseException
    | MissingArgumentException
    | UnusedArgumentException
    | FlagException
    | MissingFlagValueException
    | AlreadyPresentFlagException
    | NonnumericalInputException
    | UnderRangeException
    | OverRangeException
    | StringFormatException
    | NoMatchInEnumException

  /** The classes whose superclass is not fixed by this model. */
  predicate Unshown(c: ExnClass) {
    c in {CommandException, InvalidUsageException, InvocationCommandException, ProvisionException,
          ArgumentException, ArgumentParseException, MissingArgumentException, UnusedArgumentException,
          OverRangeException}
  }

  /** `up(c)` is the superclass of an unshown class `c`; `rank` must grow
      strictly from a superclass to its subclass (see `WellFormed`). */
  datatype Hierarchy = Hierarchy(up: ExnClass -> ExnClass, rank: ExnClass -> nat)

  /** The direct superclass; only `Throwable` has none. */
  function Parent(h: Hierarchy, c: ExnClass): Option<ExnClass> {
    match c
    case Throwable => None
    case Exception => Some(Throwable)
    case RuntimeException => Some(Exception)
    case NullPointerException => Some(RuntimeException)
    case IllegalArgumentException => Some(RuntimeException)
    case InterruptedException => Some(Exception)
    case ReflectiveOperationException => Some(Exception)
    case InvocationTargetException => Some(ReflectiveOperationException)
    case FlagException => Some(Exception)
    case MissingFlagValueException => Some(FlagException)
    case AlreadyPresentFlagException => Some(FlagException)
    case NonnumericalInputException => Some(ArgumentParseException)
    case UnderRangeException => Some(ArgumentParseException)
    case StringFormatException => Some(ArgumentParseException)
    case NoMatchInEnumException => Some(ArgumentParseException)
    case SubcommandRequiredException => Some(InvalidUsageException)
    case _ => Some(h.up(c))
  }

  /** The parent relation is acyclic: every class ranks above its superclass. */
  ghost predicate WellFormed(h: Hierarchy) {
    forall c :: Parent(h, c).Some? ==> h.rank(Parent(h, c).value) < h.rank(c)
  }

  /** `IsSubclass(h, a, b)`: `b.isAssignableFrom(a)`, i.e. `a` is `b` or inherits
      from it. The rank test always holds in a well-formed hierarchy; it only
      keeps the definition total. */
  predicate IsSubclass(h: Hierarchy, a: ExnClass, b: ExnClass)
    decreases h.rank(a)
  {
    a == b ||
    (Parent(h, a).Some? && h.rank(Parent(h, a).value) < h.rank(a) && IsSubclass(h, Parent(h, a).value, b))
  }

  predicate StrictSubclass(h: Hierarchy, a: ExnClass, b: ExnClass) {
    a != b && IsSubclass(h, a, b)
  }

  /** Number of superclasses above `c` (0 for `Throwable`). */
  function Depth(h: Hierarchy, c: ExnClass): nat
    decreases h.rank(c)
  {
    if Parent(h, c).Some? && h.rank(Parent(h, c).value) < h.rank(c) then 1 + Depth(h, Parent(h, c).value) else 0
  }

  /** A class inherits from every class its superclass inherits from. */
  lemma {:induction false} SubclassTransitive(h: Hierarchy, a: ExnClass, b: ExnClass, c: ExnClass)
    requires IsSubclass(h, a, b) && IsSubclass(h, b, c)
    ensures IsSubclass(h, a, c)
    decreases h.rank(a)
  {
    if a != b {
      SubclassTransitive(h, Parent(h, a).value, b, c);
    }
  }

  /** Walking up from a subclass to a superclass never goes down in depth,
      and stays level only when the two classes are the same. */
  lemma {:induction false} SubclassDepth(h: Hierarchy, a: ExnClass, b: ExnClass)
    requires WellFormed(h)
    requires IsSubclass(h, a, b)
    ensures Depth(h, a) >= Depth(h, b)
    ensures Depth(h, a) == Depth(h, b) ==> a == b
    decreases h.rank(a)
  {
    if a != b {
      SubclassDepth(h, Parent(h, a).value, b);
    }
  }

  /** A strict subclass is strictly deeper than its superclass. */
  lemma StrictSubclassDeeper(h: Hierarchy, a: ExnClass, b: ExnClass)
    requires WellFormed(h)
    requires StrictSubclass(h, a, b)
    ensures Depth(h, a) > Depth(h, b)
  {
    SubclassDepth(h, a, b);
  }

  /** In a well-formed hierarchy inheritance is antisymmetric. */
  lemma SubclassAntisymmetric(h: Hierarchy, a: ExnClass, b: ExnClass)
    requires WellFormed(h)
    requires IsSubclass(h, a, b) && IsSubclass(h, b, a)
    ensures a == b
  {
    SubclassDepth(h, a, b);
    SubclassDepth(h, b, a);
  }

  /** Single inheritance: the superclasses of one class form a chain, so any
      two of them are related. */
  lemma {:induction false} AncestorsComparable(h: Hierarchy, a: ExnClass, x: ExnClass, y: ExnClass)
    requires IsSubclass(h, a, x) && IsSubclass(h, a, y)
    ensures IsSubclass(h, x, y) || IsSubclass(h, y, x)
    decreases h.rank(a)
  {
    if a != x && a != y {
      AncestorsComparable(h, Parent(h, a).value, x, y);
    }
  }

  /** A proper superclass of `a` is a superclass of `a`'s parent. */
  lemma StrictSubclassThroughParent(h: Hierarchy, a: ExnClass, b: ExnClass)
    requires StrictSubclass(h, a, b)
    ensures Parent(h, a).Some? && IsSubclass(h, Parent(h, a).value, b)
  {
  }

  /** Every class of a well-formed hierarchy is a `Throwable`. */
  lemma {:induction false} EveryClassIsThrowable(h: Hierarchy, c: ExnClass)
    requires WellFormed(h)
    ensures IsSubclass(h, c, Throwable)
    decreases h.rank(c)
  {
    if c != Throwable {
      EveryClassIsThrowable(h, Parent(h, c).value);
    }
  }

  /** The superclasses the library's error taxonomy documents for the classes
      whose declarations are not part of this model. */
  function DocumentedUp(c: ExnClass): ExnClass {
    match c
    case InvalidUsageException => CommandException
    case ArgumentParseException => ArgumentException
    case MissingArgumentException => ArgumentException
    case UnusedArgumentException => ArgumentException
    case OverRangeException => ArgumentParseException
    case _ => Exception
  }

  function DocumentedRank(c: ExnClass): nat {
    match c
    case Throwable => 0
    case Exception => 1
    case RuntimeException => 2
    case NullPointerException => 3
    case IllegalArgumentException => 3
    case InterruptedException => 2
    case ReflectiveOperationException => 2
    case InvocationTargetException => 3
    case CommandException => 2
    case InvalidUsageException => 3
    case InvocationCommandException => 2
    case SubcommandRequiredException => 4
    case ProvisionException => 2
    case ArgumentException => 2
    case ArgumentParseException => 3
    case MissingArgumentException => 3
    case UnusedArgumentException => 3
    case FlagException => 2
    case MissingFlagValueException => 3
    case AlreadyPresentFlagException => 3
    case NonnumericalInputException => 4
    case UnderRangeException => 4
    case OverRangeException => 4
    case StringFormatException => 4
    case NoMatchInEnumException => 4
  }

  function Documented(): (h: Hierarchy)
    ensures WellFormed(h)
    ensures IsSubclass(h, InvalidUsageException, CommandException)
    ensures !IsSubclass(h, InvocationCommandException, CommandException)
  {
    var h := Hierarchy(DocumentedUp, DocumentedRank);
    assert forall d :: IsSubclass(h, Exception, d) ==> d in {Exception, Throwable} by {
      forall d | IsSubclass(h, Exception, d) { ExceptionAncestors(h, d); }
    }
    h
  }

  /** `Exception` only inherits from `Throwable`. */
  lemma ExceptionAncestors(h: Hierarchy, d: ExnClass)
    requires IsSubclass(h, Exception, d)
    ensures d in {Exception, Throwable}
  {
    if d != Exception {
      assert IsSubclass(h, Throwable, d);
    }
  }

  /** The flag exceptions sit below `FlagException` in every well-formed
      hierarchy, and never below `ArgumentException` or `CommandException`:
      their whole superclass chain is fixed. */
  lemma FlagExceptionsOutsideArgumentErrors(h: Hierarchy, c: ExnClass)
    requires WellFormed(h)
    requires c in {FlagException, MissingFlagValueException, AlreadyPresentFlagException}
    ensures IsSubclass(h, c, FlagException)
    ensures forall d :: IsSubclass(h, c, d) ==> d in {c, FlagException, Exception, Throwable}
  {
    forall d | IsSubclass(h, c, d)
      ensures d in {c, FlagException, Exception, Throwable}
    {
      if d != c && c != FlagException {
        assert IsSubclass(h, FlagException, d);
      }
      if d !in {c, FlagException} {
        ExceptionAncestors(h, d);
      }
    }
  }

  /** The four parse failures of the providers are argument-parse errors in
      every well-formed hierarchy, and every other superclass they have is
      one of `ArgumentParseException`. */
  lemma ParseFailuresAreArgumentParseErrors(h: Hierarchy, c: ExnClass)
    requires WellFormed(h)
    requires c in {NonnumericalInputException, UnderRangeException, StringFormatException, NoMatchInEnumException}
    ensures IsSubclass(h, c, ArgumentParseException)
    ensures forall d :: IsSubclass(h, c, d) ==> d == c || IsSubclass(h, ArgumentParseException, d)
  {
  }

  /** `h` gives every unshown class the superclass the taxonomy documents. */
  ghost predicate DocumentedLinks(h: Hierarchy) {
    forall c | Unshown(c) :: h.up(c) == DocumentedUp(c)
  }

  lemma DocumentedHasDocumentedLinks()
    ensures DocumentedLinks(Documented())
  {
  }

  /** With the documented links, an argument error inherits from nothing but
      `Exception` and `Throwable`: in particular it is not a
      `CommandException`. */
  lemma ArgumentAncestors(h: Hierarchy, d: ExnClass)
    requires DocumentedLinks(h)
    requires IsSubclass(h, ArgumentException, d)
    ensures d in {ArgumentException, Exception, Throwable}
  {
    if d != ArgumentException {
      assert Parent(h, ArgumentException) == Some(Exception);
      ExceptionAncestors(h, d);
    }
  }

  /** With the documented links, the superclasses of a parse failure are
      `ArgumentParseException` and those of `ArgumentException`. */
  lemma ArgumentParseAncestors(h: Hierarchy, d: ExnClass)
    requires DocumentedLinks(h)
    requires IsSubclass(h, ArgumentParseException, d)
    ensures d in {ArgumentParseException, ArgumentException, Exception, Throwable}
  {
    if d != ArgumentParseException {
      assert Parent(h, ArgumentParseException) == Some(ArgumentException);
      ArgumentAncestors(h, d);
    }
  }

  /** With the documented links, the ancestors of a parse failure are the
      failure's own class and those of `ArgumentParseException`. */
  lemma ParseLeafAncestors(h: Hierarchy, cls: ExnClass, d: ExnClass)
    requires DocumentedLinks(h)
    requires cls in {NonnumericalInputException, UnderRangeException, OverRangeException, StringFormatException,
                     NoMatchInEnumException}
    requires IsSubclass(h, cls, d)
    ensures d in {cls, ArgumentParseException, ArgumentException, Exception, Throwable}
  {
    if d != cls {
      assert Parent(h, cls) == Some(ArgumentParseException);
      ArgumentParseAncestors(h, d);
    }
  }

  /** With the documented links, a provisioning failure is a plain checked
      exception. */
  lemma ProvisionAncestors(h: Hierarchy, d: ExnClass)
    requires DocumentedLinks(h)
    requires IsSubclass(h, ProvisionException, d)
    ensures d in {ProvisionException, Exception, Throwable}
  {
    if d != ProvisionException {
      assert Parent(h, ProvisionException) == Some(Exception);
      ExceptionAncestors(h, d);
    }
  }

  /** With the documented links, a usage error is a `CommandException`. */
  lemma UsageErrorIsCommandException(h: Hierarchy)
    requires WellFormed(h) && DocumentedLinks(h)
    ensures IsSubclass(h, InvalidUsageException, CommandException)
  {
    assert Parent(h, InvalidUsageException) == Some(CommandException);
  }
}
