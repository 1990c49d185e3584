/** The generic exception converter: the handler table a converter derives
    from its methods, the order it keeps them in, and the walk that runs them
    against a thrown object.

    Reflection is replaced by an explicit table: a converter is a sequence of
    `Method`s whose bodies are values of some type `B`, and a `run` function
    that says what a body does when it is invoked. */
module ConverterHelper {
  import opened JavaValues
  import opened Taxonomy
  import opened Throwables
  import opened ExceptionContexts

  /** The declared type of one method parameter. */
  datatype ParamType = ThrowableParam(cls: ExnClass) | ContextParam | OtherParam

  /** A public method of a converter: whether it is marked as an exception
      handler, its parameter types, and its body. */
  datatype Method<B> = Method(annotated: bool, params: seq<ParamType>, body: B)

  /** A registered handler: the class it accepts, whether it is a one-parameter
      method (invoked without the context), and its body. */
  datatype Handler<B> = Handler(accepts: ExnClass, legacy: bool, body: B)

  /** The signature shapes the constructor registers: marked, one or two
      parameters, a throwable first, and the context second if there is one. */
  predicate Registers<B>(m: Method<B>) {
    && m.annotated
    && 1 <= |m.params| <= 2
    && m.params[0].ThrowableParam?
    && (|m.params| == 1 || m.params[1].ContextParam?)
  }

  function HandlerFor<B>(m: Method<B>): Handler<B>
    requires Registers(m)
  {
    Handler(m.params[0].cls, |m.params| == 1, m.body)
  }

  /** The constructor's scan: keeps the methods of a registered shape, in
      order, and silently skips all others. */
  function Discover<B(==)>(ms: seq<Method<B>>): (hs: seq<Handler<B>>)
    ensures |hs| <= |ms|
    ensures forall m :: m in ms && Registers(m) ==> HandlerFor(m) in hs
    ensures forall hd :: hd in hs ==> exists m :: m in ms && Registers(m) && HandlerFor(m) == hd
  {
    if |ms| == 0 then []
    else
      var rest := Discover(ms[1..]);
      assert forall m :: m in ms[1..] ==> m in ms;
      if Registers(ms[0]) then [HandlerFor(ms[0])] + rest else rest
  }

  /** When every method has a registered shape, the scan keeps all of them, in
      order. */
  lemma {:induction false} DiscoverKeepsRegistered<B>(ms: seq<Method<B>>)
    requires forall i | 0 <= i < |ms| :: Registers(ms[i])
    ensures |Discover(ms)| == |ms|
    ensures forall i | 0 <= i < |ms| :: Discover(ms)[i] == HandlerFor(ms[i])
  {
    if |ms| > 0 {
      DiscoverKeepsRegistered(ms[1..]);
    }
  }

  /** A converter whose every method is a marked two-parameter overload for
      the class its body accepts registers one context-taking handler per
      method, in declaration order. */
  lemma DiscoverOverloads<B>(cs: seq<B>, accepts: B -> ExnClass, ms: seq<Method<B>>, hs: seq<Handler<B>>)
    requires |ms| == |cs| == |hs|
    requires forall i | 0 <= i < |cs| :: ms[i] == Method(true, [ThrowableParam(accepts(cs[i])), ContextParam], cs[i])
    requires forall i | 0 <= i < |cs| :: hs[i] == Handler(accepts(cs[i]), false, cs[i])
    ensures Discover(ms) == hs
  {
    DiscoverKeepsRegistered(ms);
  }

  // ---------------------------------------------------------------------------
  // Ordering

  /** `ExceptionHandler.compareTo`: 0 for the same class, 1 when `x` accepts a
      superclass of what `y` accepts, and -1 otherwise. */
  function Compare<B>(h: Hierarchy, x: Handler<B>, y: Handler<B>): int {
    if x.accepts == y.accepts then 0
    else if IsSubclass(h, y.accepts, x.accepts) then 1
    else -1
  }

  /** The comparator does order a subclass before its superclass, in both
      directions, and ties equal classes. */
  lemma CompareOrdersSubclassFirst<B>(h: Hierarchy, x: Handler<B>, y: Handler<B>)
    requires WellFormed(h)
    ensures x.accepts == y.accepts ==> Compare(h, x, y) == 0 && Compare(h, y, x) == 0
    ensures StrictSubclass(h, x.accepts, y.accepts) ==> Compare(h, x, y) == -1 && Compare(h, y, x) == 1
  {
    if StrictSubclass(h, x.accepts, y.accepts) && IsSubclass(h, y.accepts, x.accepts) {
      SubclassAntisymmetric(h, x.accepts, y.accepts);
    }
  }

  /** ...but for classes on unrelated branches it answers -1 both ways, so it
      breaks the `Comparator` contract sgn(compare(x, y)) == -sgn(compare(y, x))
      that `Collections.sort` relies on. `FlagException` and
      `InterruptedException`, both handled by the default converter, are such a
      pair in every hierarchy. */
  lemma CompareNotAntisymmetric<B>(h: Hierarchy, body: B)
    ensures var x := Handler(FlagException, false, body);
            var y := Handler(InterruptedException, false, body);
            Compare(h, x, y) == -1 && Compare(h, y, x) == -1
  {
    if IsSubclass(h, InterruptedException, FlagException) {
      ExceptionAncestors(h, FlagException);
    }
    if IsSubclass(h, FlagException, InterruptedException) {
      ExceptionAncestors(h, InterruptedException);
    }
  }

  /** A comparator that keeps the intended order and is a valid comparator:
      deeper classes (more specific) first, equal depth ties. */
  function CompareByDepth<B>(h: Hierarchy, x: Handler<B>, y: Handler<B>): int {
    var dx := Depth(h, x.accepts);
    var dy := Depth(h, y.accepts);
    if dx > dy then -1 else if dx < dy then 1 else 0
  }

  lemma CompareByDepthIsComparator<B>(h: Hierarchy, x: Handler<B>, y: Handler<B>, z: Handler<B>)
    requires WellFormed(h)
    ensures CompareByDepth(h, x, y) == -CompareByDepth(h, y, x)
    ensures CompareByDepth(h, x, y) <= 0 && CompareByDepth(h, y, z) <= 0 ==> CompareByDepth(h, x, z) <= 0
    ensures CompareByDepth(h, x, y) == 0 ==> CompareByDepth(h, x, z) == CompareByDepth(h, y, z)
    ensures x.accepts == y.accepts ==> CompareByDepth(h, x, y) == 0
    ensures StrictSubclass(h, x.accepts, y.accepts) ==> CompareByDepth(h, x, y) == -1 && CompareByDepth(h, y, x) == 1
  {
    if StrictSubclass(h, x.accepts, y.accepts) {
      StrictSubclassDeeper(h, x.accepts, y.accepts);
    }
  }

  /** How the inconsistency shows. `Collections.sort` first takes the longest
      leading run that is strictly descending under the comparator (each
      element compares below its predecessor) and reverses it in place. For
      the default converter's handlers for `ArgumentParseException`,
      `FlagException` and `ArgumentException`, scanned in that order, the
      whole list is such a run, although it already meets the documented
      guarantee; reversed, it puts the `ArgumentException` handler before the
      `ArgumentParseException` one. */
  lemma DescendingRunMisordered<B>(h: Hierarchy, b: B)
    requires WellFormed(h) && DocumentedLinks(h)
    ensures var s := [Handler(ArgumentParseException, false, b), Handler(FlagException, false, b),
                      Handler(ArgumentException, false, b)];
            && Compare(h, s[1], s[0]) < 0 && Compare(h, s[2], s[1]) < 0
            && SpecificityOrdered(h, s)
            && !SpecificityOrdered(h, [s[2], s[1], s[0]])
  {
    assert !IsSubclass(h, ArgumentParseException, FlagException) by {
      if IsSubclass(h, ArgumentParseException, FlagException) {
        ArgumentParseAncestors(h, FlagException);
      }
    }
    assert !IsSubclass(h, ArgumentException, FlagException) by {
      if IsSubclass(h, ArgumentException, FlagException) {
        ArgumentAncestors(h, FlagException);
      }
    }
    assert !IsSubclass(h, ArgumentException, ArgumentParseException) by {
      if IsSubclass(h, ArgumentException, ArgumentParseException) {
        ArgumentAncestors(h, ArgumentParseException);
      }
    }
    FlagExceptionsOutsideArgumentErrors(h, FlagException);
    assert Parent(h, ArgumentParseException) == Some(ArgumentException);
    var t := [Handler(ArgumentException, false, b), Handler(FlagException, false, b),
              Handler(ArgumentParseException, false, b)];
    assert StrictSubclass(h, t[2].accepts, t[0].accepts);
  }

  /** The documented guarantee on the sorted table: a handler never comes after
      a handler for one of its class's superclasses. Nothing is promised about
      handlers on unrelated branches. */
  ghost predicate SpecificityOrdered<B>(h: Hierarchy, hs: seq<Handler<B>>) {
    forall i, j | 0 <= i < j < |hs| :: !StrictSubclass(h, hs[j].accepts, hs[i].accepts)
  }

  predicate DepthOrdered<B>(h: Hierarchy, hs: seq<Handler<B>>) {
    forall i, j | 0 <= i < j < |hs| :: Depth(h, hs[i].accepts) >= Depth(h, hs[j].accepts)
  }

  lemma DepthOrderedIsSpecificityOrdered<B>(h: Hierarchy, hs: seq<Handler<B>>)
    requires WellFormed(h) && DepthOrdered(h, hs)
    ensures SpecificityOrdered(h, hs)
  {
    forall i, j | 0 <= i < j < |hs|
      ensures !StrictSubclass(h, hs[j].accepts, hs[i].accepts)
    {
      if StrictSubclass(h, hs[j].accepts, hs[i].accepts) {
        StrictSubclassDeeper(h, hs[j].accepts, hs[i].accepts);
      }
    }
  }

  predicate DepthAtMost<B>(h: Hierarchy, s: seq<Handler<B>>, d: nat) {
    forall k | 0 <= k < |s| :: Depth(h, s[k].accepts) <= d
  }

  /** Inserts `x` before the first handler no deeper than it. */
  function InsertByDepth<B>(h: Hierarchy, x: Handler<B>, s: seq<Handler<B>>): seq<Handler<B>> {
    if |s| == 0 || Depth(h, x.accepts) >= Depth(h, s[0].accepts) then [x] + s
    else [s[0]] + InsertByDepth(h, x, s[1..])
  }

  lemma {:induction false} InsertPermutes<B>(h: Hierarchy, x: Handler<B>, s: seq<Handler<B>>)
    ensures multiset(InsertByDepth(h, x, s)) == multiset(s) + multiset{x}
  {
    if |s| > 0 && Depth(h, x.accepts) < Depth(h, s[0].accepts) {
      InsertPermutes(h, x, s[1..]);
      assert s == [s[0]] + s[1..];
    }
  }

  lemma {:induction false} InsertBounded<B>(h: Hierarchy, x: Handler<B>, s: seq<Handler<B>>, d: nat)
    requires DepthAtMost(h, s, d) && Depth(h, x.accepts) <= d
    ensures DepthAtMost(h, InsertByDepth(h, x, s), d)
  {
    if |s| > 0 && Depth(h, x.accepts) < Depth(h, s[0].accepts) {
      InsertBounded(h, x, s[1..], d);
    }
  }

  lemma {:induction false} InsertOrdered<B>(h: Hierarchy, x: Handler<B>, s: seq<Handler<B>>)
    requires DepthOrdered(h, s)
    ensures DepthOrdered(h, InsertByDepth(h, x, s))
  {
    if |s| > 0 && Depth(h, x.accepts) < Depth(h, s[0].accepts) {
      var rest := InsertByDepth(h, x, s[1..]);
      InsertOrdered(h, x, s[1..]);
      InsertBounded(h, x, s[1..], Depth(h, s[0].accepts));
      assert DepthAtMost(h, rest, Depth(h, s[0].accepts));
      var r := [s[0]] + rest;
      forall i, j | 0 <= i < j < |r|
        ensures Depth(h, r[i].accepts) >= Depth(h, r[j].accepts)
      {
        assert r[j] == rest[j - 1];
        if i > 0 {
          assert r[i] == rest[i - 1];
        }
      }
    }
  }

  /** A reference sort: orders the discovered handlers by decreasing depth. */
  function SortByDepth<B>(h: Hierarchy, s: seq<Handler<B>>): (r: seq<Handler<B>>)
    ensures DepthOrdered(h, r)
    ensures multiset(r) == multiset(s)
  {
    if |s| == 0 then []
    else
      var sorted := SortByDepth(h, s[1..]);
      InsertOrdered(h, s[0], sorted);
      InsertPermutes(h, s[0], sorted);
      assert s == [s[0]] + s[1..];
      InsertByDepth(h, s[0], sorted)
  }

  /** The handler tables meeting the documented more-specific-first
      guarantee: exactly the registered handlers, ordered so that no handler
      precedes one for a subclass of its parameter type. */
  ghost predicate ValidHandlerList<B>(h: Hierarchy, ms: seq<Method<B>>, hs: seq<Handler<B>>) {
    SortedTable(h, Discover(ms), hs)
  }

  /** `hs` holds the handlers `rs` exactly, in an order meeting the documented
      guarantee. */
  ghost predicate SortedTable<B>(h: Hierarchy, rs: seq<Handler<B>>, hs: seq<Handler<B>>) {
    multiset(hs) == multiset(rs) && SpecificityOrdered(h, hs)
  }

  /** A constructor that meets the documented guarantee: scan, then sort by
      depth. The conversion lemmas hold for every table meeting
      `ValidHandlerList`, not only for this sort's result. */
  function Setup<B(==)>(h: Hierarchy, ms: seq<Method<B>>): (hs: seq<Handler<B>>)
    requires WellFormed(h)
    ensures ValidHandlerList(h, ms, hs)
  {
    var hs := SortByDepth(h, Discover(ms));
    DepthOrderedIsSpecificityOrdered(h, hs);
    hs
  }

  // ---------------------------------------------------------------------------
  // Conversion

  /** What invoking a handler did: its body returned, or threw `thrown`; or
      `Method.invoke` refused the call with an `IllegalArgumentException`
      before the body ran, as it does for an argument of the wrong type. */
  datatype Effect = Normal | Raise(thrown: Thrown) | Refused

  /** How `convert` ends: it returns normally, rethrows a `CommandException`
      a handler threw, or throws an `InvocationCommandException` whose cause
      is `failure`, the exception the reflective call ended with. */
  datatype Outcome = Returned | Rethrown(error: Thrown) | Wrapped(failure: Thrown)

  /** The handlers `convert` invoked (indices into the table, in order) and how
      it ended. */
  datatype Conversion = Conversion(invoked: seq<nat>, outcome: Outcome)

  /** Invokes a handler body: a one-parameter handler does not see the context. */
  function Invoke<B>(hd: Handler<B>, run: (B, Thrown, Option<ExceptionContext>) -> Effect,
                     t: Thrown, ctx: Option<ExceptionContext>): Effect {
    run(hd.body, t, if hd.legacy then None else ctx)
  }

  /** `hd.type.isAssignableFrom(t.getClass())`. */
  predicate Applies<B>(h: Hierarchy, hd: Handler<B>, t: Thrown) {
    IsSubclass(h, t.cls, hd.accepts)
  }

  /** Handler `k` applies and throws when invoked. */
  predicate Fires<B>(h: Hierarchy, hs: seq<Handler<B>>, run: (B, Thrown, Option<ExceptionContext>) -> Effect,
                     t: Thrown, ctx: Option<ExceptionContext>, k: nat)
    requires k < |hs|
  {
    Applies(h, hs[k], t) && !Invoke(hs[k], run, t, ctx).Normal?
  }

  /** No handler with index in [i, k) fires. */
  predicate NoneFires<B>(h: Hierarchy, hs: seq<Handler<B>>, run: (B, Thrown, Option<ExceptionContext>) -> Effect,
                         t: Thrown, ctx: Option<ExceptionContext>, i: nat, k: nat)
    requires k <= |hs|
  {
    forall j | i <= j < k :: !Fires(h, hs, run, t, ctx, j)
  }

  /** What the walk makes of an exception `e` a handler body threw:
      `Method.invoke` wraps it in an `InvocationTargetException`; a
      `CommandException` is unwrapped and rethrown, and anything else is
      wrapped once more, target exception included. */
  function Escalate(h: Hierarchy, e: Thrown): (r: Outcome)
    ensures r.Rethrown? <==> IsSubclass(h, e.cls, CommandException)
    ensures r.Rethrown? ==> r.error == e
    ensures r.Wrapped? ==> r.failure.cls == InvocationTargetException && r.failure.cause == Some(e)
  {
    if IsSubclass(h, e.cls, CommandException) then Rethrown(e) else Wrapped(TargetInvocation(e))
  }

  /** What the walk makes of invoking a handler: it goes on after a normal
      return, escalates what the body threw, and wraps the
      `IllegalArgumentException` of a refused call directly. */
  function OutcomeOf(h: Hierarchy, e: Effect): (r: Outcome)
    ensures r.Returned? <==> e.Normal?
    ensures e.Raise? ==> r == Escalate(h, e.thrown)
    ensures e.Refused? ==> r.Wrapped? && r.failure.cls == IllegalArgumentException
  {
    match e
    case Normal => Returned
    case Raise(x) => Escalate(h, x)
    case Refused => Wrapped(ArgumentTypeMismatch())
  }

  predicate Increasing(s: seq<nat>) {
    forall a, b | 0 <= a < b < |s| :: s[a] < s[b]
  }

  /** `convert` from handler `i` onwards. */
  function Walk<B>(h: Hierarchy, hs: seq<Handler<B>>, run: (B, Thrown, Option<ExceptionContext>) -> Effect,
                   t: Thrown, ctx: Option<ExceptionContext>, i: nat): Conversion
    requires i <= |hs|
    decreases |hs| - i
  {
    if i == |hs| then Conversion([], Returned)
    else if !Applies(h, hs[i], t) then Walk(h, hs, run, t, ctx, i + 1)
    else if Invoke(hs[i], run, t, ctx).Normal? then
      var rest := Walk(h, hs, run, t, ctx, i + 1);
      Conversion([i] + rest.invoked, rest.outcome)
    else Conversion([i], OutcomeOf(h, Invoke(hs[i], run, t, ctx)))
  }

  /** The walk from `i` invokes exactly the applicable handlers that no earlier
      handler (from `i` on) pre-empted by throwing, in increasing order. */
  ghost predicate InvokesUntilFirstFiring<B>(h: Hierarchy, hs: seq<Handler<B>>, run: (B, Thrown, Option<ExceptionContext>) -> Effect,
                                             t: Thrown, ctx: Option<ExceptionContext>, i: nat, r: Conversion)
    requires i <= |hs|
  {
    && (forall k :: k in r.invoked <==> i <= k < |hs| && Applies(h, hs[k], t) && NoneFires(h, hs, run, t, ctx, i, k))
    && Increasing(r.invoked)
  }

  /** The walk from `i` ends abnormally exactly when a handler fires, and then
      with what the last handler it invoked threw. */
  ghost predicate EndsWithFirstFiring<B>(h: Hierarchy, hs: seq<Handler<B>>, run: (B, Thrown, Option<ExceptionContext>) -> Effect,
                                         t: Thrown, ctx: Option<ExceptionContext>, i: nat, r: Conversion)
    requires i <= |hs|
  {
    && (r.outcome.Returned? <==> NoneFires(h, hs, run, t, ctx, i, |hs|))
    && (!r.outcome.Returned? ==>
          |r.invoked| > 0 && r.invoked[|r.invoked| - 1] < |hs| &&
          Fires(h, hs, run, t, ctx, r.invoked[|r.invoked| - 1]) &&
          r.outcome == OutcomeOf(h, Invoke(hs[r.invoked[|r.invoked| - 1]], run, t, ctx)))
  }

  lemma NoneFiresStep<B>(h: Hierarchy, hs: seq<Handler<B>>, run: (B, Thrown, Option<ExceptionContext>) -> Effect,
                         t: Thrown, ctx: Option<ExceptionContext>, i: nat, k: nat)
    requires i < k <= |hs|
    ensures NoneFires(h, hs, run, t, ctx, i, k) <==> !Fires(h, hs, run, t, ctx, i) && NoneFires(h, hs, run, t, ctx, i + 1, k)
  {
  }

  lemma {:induction false} WalkInvokes<B>(h: Hierarchy, hs: seq<Handler<B>>, run: (B, Thrown, Option<ExceptionContext>) -> Effect,
                                          t: Thrown, ctx: Option<ExceptionContext>, i: nat)
    requires i <= |hs|
    ensures InvokesUntilFirstFiring(h, hs, run, t, ctx, i, Walk(h, hs, run, t, ctx, i))
    decreases |hs| - i
  {
    if i < |hs| {
      var rest := Walk(h, hs, run, t, ctx, i + 1);
      WalkInvokes(h, hs, run, t, ctx, i + 1);
      forall k | i < k <= |hs| {
        NoneFiresStep(h, hs, run, t, ctx, i, k);
      }
      if Applies(h, hs[i], t) && Invoke(hs[i], run, t, ctx).Normal? {
        var r := [i] + rest.invoked;
        assert forall a | 0 <= a < |rest.invoked| :: rest.invoked[a] in rest.invoked;
        assert forall k :: k in r <==> k == i || k in rest.invoked;
      }
    }
  }

  lemma {:induction false} WalkEnds<B>(h: Hierarchy, hs: seq<Handler<B>>, run: (B, Thrown, Option<ExceptionContext>) -> Effect,
                                       t: Thrown, ctx: Option<ExceptionContext>, i: nat)
    requires i <= |hs|
    ensures EndsWithFirstFiring(h, hs, run, t, ctx, i, Walk(h, hs, run, t, ctx, i))
    decreases |hs| - i
  {
    if i < |hs| {
      WalkEnds(h, hs, run, t, ctx, i + 1);
      NoneFiresStep(h, hs, run, t, ctx, i, |hs|);
    }
  }

  /** `ExceptionConverterHelper.convert`: invokes, in table order, every
      handler that accepts the thrown object's class, until one throws; a
      thrown `CommandException` is rethrown unchanged and any other failure
      is wrapped; if no handler throws, it returns normally. */
  function Convert<B>(h: Hierarchy, hs: seq<Handler<B>>, run: (B, Thrown, Option<ExceptionContext>) -> Effect,
                      t: Thrown, ctx: Option<ExceptionContext>): (r: Conversion)
    ensures forall k :: k in r.invoked <==> 0 <= k < |hs| && Applies(h, hs[k], t) && NoneFires(h, hs, run, t, ctx, 0, k)
    ensures Increasing(r.invoked)
    ensures r.outcome.Returned? <==> NoneFires(h, hs, run, t, ctx, 0, |hs|)
    ensures !r.outcome.Returned? ==>
              |r.invoked| > 0 && r.invoked[|r.invoked| - 1] < |hs| &&
              Fires(h, hs, run, t, ctx, r.invoked[|r.invoked| - 1]) &&
              r.outcome == OutcomeOf(h, Invoke(hs[r.invoked[|r.invoked| - 1]], run, t, ctx))
  {
    WalkInvokes(h, hs, run, t, ctx, 0);
    WalkEnds(h, hs, run, t, ctx, 0);
    Walk(h, hs, run, t, ctx, 0)
  }

  /** A conversion seen by a caller that invoked `convert` directly: a normal
      return, or the exception it throws, which is the rethrown exception or
      an `InvocationCommandException` around the reflective failure. The
      message of that `InvocationCommandException` is not modelled. */
  function AsEffect(o: Outcome): (e: Effect)
    ensures o.Returned? <==> e.Normal?
    ensures o.Rethrown? ==> e == Raise(o.error)
    ensures o.Wrapped? ==> e.Raise? && e.thrown.cls == InvocationCommandException && e.thrown.cause == Some(o.failure)
  {
    match o
    case Returned => Normal
    case Rethrown(e) => Raise(e)
    case Wrapped(f) => Raise(InvocationFailure(None, Some(f)))
  }

  /** A handler throwing `new InvalidUsageException(message,
      context.getCommand(), context.getAliasStack(), fullHelp, cause)`; reading
      a null context fails first. */
  function UsageIn(ctx: Option<ExceptionContext>, message: Option<string>, fullHelp: bool, cause: Thrown): (r: Effect)
    ensures ctx.None? ==> r == Raise(NullDereference())
    ensures ctx.Some? ==> r.Raise? && r.thrown.cls == InvalidUsageException && r.thrown.message == message &&
                          r.thrown.payload == Usage(ctx.value.command, ctx.value.aliasStack, fullHelp) &&
                          r.thrown.cause == Some(cause)
  {
    match ctx
    case None => Raise(NullDereference())
    case Some(x) => Raise(UsageError(message, x.command, x.aliasStack, fullHelp, Some(cause)))
  }

  /** No handler accepts the thrown object's class: nothing runs and `convert`
      returns normally. */
  lemma UnmatchedReturns<B>(h: Hierarchy, hs: seq<Handler<B>>, run: (B, Thrown, Option<ExceptionContext>) -> Effect,
                            t: Thrown, ctx: Option<ExceptionContext>)
    requires forall k | 0 <= k < |hs| :: !Applies(h, hs[k], t)
    ensures Convert(h, hs, run, t, ctx) == Conversion([], Returned)
  {
    WalkSkips(h, hs, run, t, ctx, 0, |hs|);
  }

  /** The walk passes over handlers that do not accept `t` without effect. */
  lemma {:induction false} WalkSkips<B>(h: Hierarchy, hs: seq<Handler<B>>, run: (B, Thrown, Option<ExceptionContext>) -> Effect,
                                        t: Thrown, ctx: Option<ExceptionContext>, i: nat, f: nat)
    requires i <= f <= |hs|
    requires forall j | i <= j < f :: !Applies(h, hs[j], t)
    ensures Walk(h, hs, run, t, ctx, i) == Walk(h, hs, run, t, ctx, f)
    decreases f - i
  {
    if i < f {
      WalkSkips(h, hs, run, t, ctx, i + 1, f);
    }
  }

  /** Index of the first handler from `i` on that accepts `t`, or `|hs|`. */
  function FirstApplicable<B>(h: Hierarchy, hs: seq<Handler<B>>, t: Thrown, i: nat): (f: nat)
    requires i <= |hs|
    decreases |hs| - i
    ensures i <= f <= |hs|
    ensures forall j | i <= j < f :: !Applies(h, hs[j], t)
    ensures f < |hs| ==> Applies(h, hs[f], t)
  {
    if i == |hs| || Applies(h, hs[i], t) then i else FirstApplicable(h, hs, t, i + 1)
  }

  /** When every applicable handler throws (as the usage-error handlers do),
      exactly one handler runs, and in a table meeting the documented guarantee
      it is one for the most specific of the applicable classes: its class is
      a subclass of every applicable handler's class. The registration order
      of the methods plays no part. */
  lemma DecidedByMostSpecific<B>(h: Hierarchy, hs: seq<Handler<B>>, run: (B, Thrown, Option<ExceptionContext>) -> Effect,
                                 t: Thrown, ctx: Option<ExceptionContext>, m: nat)
    requires WellFormed(h) && SpecificityOrdered(h, hs)
    requires m < |hs| && Applies(h, hs[m], t)
    requires forall k | 0 <= k < |hs| && Applies(h, hs[k], t) :: !Invoke(hs[k], run, t, ctx).Normal?
    ensures var r := Convert(h, hs, run, t, ctx);
            |r.invoked| == 1 && r.invoked[0] < |hs| &&
            Applies(h, hs[r.invoked[0]], t) &&
            (forall k | 0 <= k < |hs| && Applies(h, hs[k], t) :: IsSubclass(h, hs[r.invoked[0]].accepts, hs[k].accepts)) &&
            r.outcome == OutcomeOf(h, Invoke(hs[r.invoked[0]], run, t, ctx))
  {
    var f := FirstApplicable(h, hs, t, 0);
    assert f <= m;
    WalkSkips(h, hs, run, t, ctx, 0, f);
    assert Convert(h, hs, run, t, ctx).invoked == [f];
    forall k | 0 <= k < |hs| && Applies(h, hs[k], t)
      ensures IsSubclass(h, hs[f].accepts, hs[k].accepts)
    {
      AncestorsComparable(h, t.cls, hs[f].accepts, hs[k].accepts);
    }
  }

  /** When the handlers for the most specific applicable class throw, they
      decide the conversion alone: in a table meeting the documented guarantee
      the first applicable handler is one of them, whatever else applies and
      whatever the other handlers would do. */
  lemma MostSpecificDecides<B>(h: Hierarchy, hs: seq<Handler<B>>, run: (B, Thrown, Option<ExceptionContext>) -> Effect,
                               t: Thrown, ctx: Option<ExceptionContext>, m: nat)
    requires SpecificityOrdered(h, hs)
    requires m < |hs| && Applies(h, hs[m], t)
    requires forall k | 0 <= k < |hs| && Applies(h, hs[k], t) :: IsSubclass(h, hs[m].accepts, hs[k].accepts)
    requires forall k | 0 <= k < |hs| && hs[k].accepts == hs[m].accepts :: !Invoke(hs[k], run, t, ctx).Normal?
    ensures var r := Convert(h, hs, run, t, ctx);
            |r.invoked| == 1 && r.invoked[0] < |hs| && hs[r.invoked[0]].accepts == hs[m].accepts &&
            r.outcome == OutcomeOf(h, Invoke(hs[r.invoked[0]], run, t, ctx))
  {
    var f := FirstApplicable(h, hs, t, 0);
    assert f <= m;
    assert hs[f].accepts == hs[m].accepts;
    WalkSkips(h, hs, run, t, ctx, 0, f);
    assert Convert(h, hs, run, t, ctx).invoked == [f];
  }

  /** A converter whose registered handlers `rs` all take the context and
      accept pairwise different classes, `accepts(b)` being the class body `b`
      handles. */
  ghost predicate Uniform<B(!new)>(rs: seq<Handler<B>>, accepts: B -> ExnClass) {
    && (forall hd | hd in rs :: !hd.legacy && hd.accepts == accepts(hd.body))
    && (forall b1, b2 :: accepts(b1) == accepts(b2) ==> b1 == b2)
  }

  /** In such a converter, whichever valid order its table is in, a thrown
      object is decided by the handler for its most specific handled
      superclass, provided that handler throws. */
  lemma UniformTableDecides<B(!new)>(h: Hierarchy, rs: seq<Handler<B>>, hs: seq<Handler<B>>, accepts: B -> ExnClass,
                                   run: (B, Thrown, Option<ExceptionContext>) -> Effect,
                                   t: Thrown, ctx: Option<ExceptionContext>, b: B)
    requires SortedTable(h, rs, hs) && Uniform(rs, accepts)
    requires Handler(accepts(b), false, b) in rs && IsSubclass(h, t.cls, accepts(b))
    requires forall hd | hd in rs && IsSubclass(h, t.cls, hd.accepts) :: IsSubclass(h, accepts(b), hd.accepts)
    requires !run(b, t, ctx).Normal?
    ensures var r := Convert(h, hs, run, t, ctx);
            |r.invoked| == 1 && r.outcome == OutcomeOf(h, run(b, t, ctx))
  {
    var hd := Handler(accepts(b), false, b);
    assert hd in multiset(hs);
    var m :| 0 <= m < |hs| && hs[m] == hd;
    forall k | 0 <= k < |hs|
      ensures hs[k] in rs
    {
      assert hs[k] in multiset(hs);
    }
    MostSpecificDecides(h, hs, run, t, ctx, m);
  }

  /** In any valid order of a table none of whose handlers accepts the thrown
      object's class, `convert` runs nothing and returns normally. */
  lemma UnmatchedTableReturns<B>(h: Hierarchy, rs: seq<Handler<B>>, hs: seq<Handler<B>>,
                                     run: (B, Thrown, Option<ExceptionContext>) -> Effect,
                                     t: Thrown, ctx: Option<ExceptionContext>)
    requires SortedTable(h, rs, hs)
    requires forall hd | hd in rs :: !IsSubclass(h, t.cls, hd.accepts)
    ensures Convert(h, hs, run, t, ctx) == Conversion([], Returned)
  {
    forall k | 0 <= k < |hs|
      ensures !Applies(h, hs[k], t)
    {
      assert hs[k] in multiset(hs);
    }
    UnmatchedReturns(h, hs, run, t, ctx);
  }

  /** When every handler that applies returns normally, `convert` invokes all
      of them, in table order, and then returns normally itself. */
  lemma QuietTableReturns<B>(h: Hierarchy, rs: seq<Handler<B>>, hs: seq<Handler<B>>,
                             run: (B, Thrown, Option<ExceptionContext>) -> Effect,
                             t: Thrown, ctx: Option<ExceptionContext>)
    requires SortedTable(h, rs, hs)
    requires forall hd | hd in rs && IsSubclass(h, t.cls, hd.accepts) :: Invoke(hd, run, t, ctx).Normal?
    ensures var r := Convert(h, hs, run, t, ctx);
            r.outcome == Returned && forall k :: k in r.invoked <==> 0 <= k < |hs| && Applies(h, hs[k], t)
  {
    forall k | 0 <= k < |hs|
      ensures !Fires(h, hs, run, t, ctx, k)
    {
      assert hs[k] in multiset(hs);
    }
  }

  /** In any valid order of a table, `convert` invokes nothing exactly when
      no registered handler accepts the thrown object's class. */
  lemma TableInvokesNothingIffUnmatched<B>(h: Hierarchy, rs: seq<Handler<B>>, hs: seq<Handler<B>>,
                                           run: (B, Thrown, Option<ExceptionContext>) -> Effect,
                                           t: Thrown, ctx: Option<ExceptionContext>)
    requires SortedTable(h, rs, hs)
    ensures Convert(h, hs, run, t, ctx).invoked == [] <==> forall hd | hd in rs :: !IsSubclass(h, t.cls, hd.accepts)
  {
    if forall hd | hd in rs :: !IsSubclass(h, t.cls, hd.accepts) {
      UnmatchedTableReturns(h, rs, hs, run, t, ctx);
    } else {
      var hd :| hd in rs && IsSubclass(h, t.cls, hd.accepts);
      assert hd in multiset(hs);
      var m :| 0 <= m < |hs| && hs[m] == hd;
      var f := FirstApplicable(h, hs, t, 0);
      assert f <= m;
      WalkSkips(h, hs, run, t, ctx, 0, f);
      assert Convert(h, hs, run, t, ctx).invoked[0] == f;
    }
  }
}
