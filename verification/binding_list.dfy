/** `BindingList`: the registry of providers, a multimap from a key's type to
    the (key, provider) entries registered under it. */
module Bindings {
  import opened JavaValues
  import opened Taxonomy
  import opened Throwables
  import opened Keys
  import ExceptionContexts

  /** `BindingEntry`; its `equals` compares key and provider. Providers are
      compared by their own `equals`, here by value. */
  datatype Entry<P> = Entry(key: Key, provider: P)

  /** The `HashMultimap`: a set of entries per type, the null type included. */
  datatype BindingList<P(==)> = BindingList(providers: map<Option<TypeName>, set<Entry<P>>>)

  function Empty<P(==)>(): BindingList<P> {
    BindingList(map[])
  }

  /** `providers.get(type)`: an empty collection for a type never used. */
  function Bucket<P(==)>(l: BindingList<P>, typ: Option<TypeName>): set<Entry<P>> {
    if typ in l.providers then l.providers[typ] else {}
  }

  /** Every entry sits in the bucket of its own key's type. */
  ghost predicate Valid<P>(l: BindingList<P>) {
    forall t, e | t in l.providers && e in l.providers[t] :: e.key.typ == t
  }

  /** The renderings `toString` gives a provider, a type and a classifier. */
  datatype Renderings<!P> = Renderings(provider: P -> string, typ: TypeName -> string, classifier: Classifier -> string)

  /** The refusal: an `IllegalArgumentException` whose message names the
      provider right after "Failed to register " and ends with the key and
      an exclamation mark. */
  function AlreadyRegistered<P(==)>(show: Renderings<P>, key: Key, provider: P): (r: Thrown)
    ensures r.cls == IllegalArgumentException && Coherent(r) && r.cause == None
    ensures r.message.Some?
    ensures var msg, p, k := r.message.value, show.provider(provider), KeyString(key, show.typ, show.classifier);
            && |msg| > 19 + |p| + |k|
            && msg[..19] == "Failed to register " && msg[19..19 + |p|] == p
            && msg[|msg| - |k| - 1..|msg| - 1] == k && msg[|msg| - 1] == '!'
  {
    var p := show.provider(provider);
    var k := KeyString(key, show.typ, show.classifier);
    var msg := "Failed to register " + p + ", as a provider is already registered for " + k + "!";
    Pieces("Failed to register ", p, ", as a provider is already registered for ", k, "!");
    Thrown(IllegalArgumentException, Some(msg), None, None, NoPayload)
  }

  /** The registry after `addBinding`, and what it threw. */
  datatype Added<P(==)> = Added(list: BindingList<P>, error: Option<Thrown>)

  /** `addBinding`: null checks, then `put`, which is refused only for an
      entry already present, that is an equal key with an equal provider. */
  function AddBinding<P(==)>(l: BindingList<P>, key: Option<Key>, provider: Option<P>, show: Renderings<P>): (r: Added<P>)
    ensures key.None? ==> r == Added(l, Some(ExceptionContexts.NullArgument("key")))
    ensures key.Some? && provider.None? ==> r == Added(l, Some(ExceptionContexts.NullArgument("provider")))
    ensures r.error.Some? ==> r.list == l
    ensures key.Some? && provider.Some? ==>
              (r.error.Some? <==> Entry(key.value, provider.value) in Bucket(l, key.value.typ))
    ensures r.error.None? ==>
              && key.Some? && provider.Some?
              && Bucket(r.list, key.value.typ) == Bucket(l, key.value.typ) + {Entry(key.value, provider.value)}
              && (forall t | t != key.value.typ :: Bucket(r.list, t) == Bucket(l, t))
  {
    if key.None? then Added(l, Some(ExceptionContexts.NullArgument("key")))
    else if provider.None? then Added(l, Some(ExceptionContexts.NullArgument("provider")))
    else
      var k := key.value;
      var e := Entry(k, provider.value);
      var bucket := Bucket(l, k.typ);
      if e in bucket then Added(l, Some(AlreadyRegistered(show, k, provider.value)))
      else Added(BindingList(l.providers[k.typ := bucket + {e}]), None)
  }

  /** The registry stays well formed under `addBinding`. */
  lemma AddBindingKeepsValid<P>(l: BindingList<P>, key: Option<Key>, provider: Option<P>, show: Renderings<P>)
    requires Valid(l)
    ensures Valid(AddBinding(l, key, provider, show).list)
  {
  }

  /** The answers `getBinding(key)` may give: the entries of the key's bucket
      whose key equals the query, any one of them since the multimap's
      iteration order is unspecified, and null only when there is none. */
  ghost predicate Answers<P>(l: BindingList<P>, key: Key, r: Option<Entry<P>>) {
    match r
    case Some(e) => e in Bucket(l, key.typ) && Equals(e.key, Some(key))
    case None => forall e | e in Bucket(l, key.typ) :: !Equals(e.key, Some(key))
  }

  /** `getBinding`: the first entry of the key's bucket, in iteration order,
      whose key equals the query. */
  method GetBinding<P(==)>(l: BindingList<P>, key: Option<Key>) returns (r: Result<Option<Entry<P>>, Thrown>)
    ensures key.None? ==> r == Failure(ExceptionContexts.NullArgument("key"))
    ensures key.Some? ==> r.Success? && Answers(l, key.value, r.value)
    ensures key.Some? && r.value.Some? ==> r.value.value.key == key.value
  {
    if key.None? {
      return Failure(ExceptionContexts.NullArgument("key"));
    }
    var k := key.value;
    var matching := set e | e in Bucket(l, k.typ) && Equals(e.key, Some(k));
    if matching == {} {
      forall e | e in Bucket(l, k.typ)
        ensures !Equals(e.key, Some(k))
      {
        assert e !in matching;
      }
      return Success(None);
    }
    var e :| e in matching;
    return Success(Some(e));
  }

  /** After a successful `addBinding(k, p)`, `getBinding(k)` is not null:
      every answer it may give is an entry for `k`. */
  lemma AddThenGet<P>(l: BindingList<P>, k: Key, p: P, show: Renderings<P>, r: Option<Entry<P>>)
    requires AddBinding(l, Some(k), Some(p), show).error.None?
    requires Answers(AddBinding(l, Some(k), Some(p), show).list, k, r)
    ensures r.Some? && r.value.key == k
  {
    var e := Entry(k, p);
    assert e in Bucket(AddBinding(l, Some(k), Some(p), show).list, k.typ);
  }

  /** Adding under one type changes no lookup for a key of another type. */
  lemma AddLeavesOtherTypes<P>(l: BindingList<P>, k: Key, p: P, show: Renderings<P>, q: Key, r: Option<Entry<P>>)
    requires q.typ != k.typ
    ensures Answers(AddBinding(l, Some(k), Some(p), show).list, q, r) <==> Answers(l, q, r)
  {
  }

  /** The registry accepts a second provider for an equal key, with no error,
      and `getBinding` may then answer with either entry. */
  lemma SecondProviderAccepted<P>(l: BindingList<P>, k: Key, p1: P, p2: P, show: Renderings<P>)
    requires p1 != p2
    requires Entry(k, p1) in Bucket(l, k.typ) && Entry(k, p2) !in Bucket(l, k.typ)
    ensures var a := AddBinding(l, Some(k), Some(p2), show);
            a.error.None? && Answers(a.list, k, Some(Entry(k, p1))) && Answers(a.list, k, Some(Entry(k, p2)))
  {
  }

  /** Where each piece of a five-piece concatenation sits in it. */
  lemma Pieces<T>(a: seq<T>, p: seq<T>, m: seq<T>, k: seq<T>, z: seq<T>)
    ensures var s := a + p + m + k + z;
            && s[..|a|] == a && s[|a|..|a| + |p|] == p
            && s[|s| - |k| - |z|..|s| - |z|] == k && s[|s| - |z|..] == z
  {
    var s := a + p + m + k + z;
    assert s[..|a|] == a;
    assert s[|a|..|a| + |p|] == p;
    assert s[|s| - |k| - |z|..|s| - |z|] == k;
    assert s[|s| - |z|..] == z;
  }

  /** Registering one provider twice in a row under the same key, in any
      registry: the second call fails and leaves the registry as it was; in
      a fresh registry the first call succeeds. */
  lemma DuplicateEntryRejected<P>(l: BindingList<P>, k: Key, p: P, show: Renderings<P>)
    ensures var a := AddBinding(l, Some(k), Some(p), show);
            var b := AddBinding(a.list, Some(k), Some(p), show);
            b.error == Some(AlreadyRegistered(show, k, p)) && b.list == a.list
    ensures AddBinding(Empty(), Some(k), Some(p), show).error.None?
  {
  }

  /** At most one entry per key: the property the "already registered"
      message promises. */
  ghost predicate KeysUnique<P>(l: BindingList<P>) {
    forall t, e1, e2 | t in l.providers && e1 in l.providers[t] && e2 in l.providers[t] && e1.key == e2.key :: e1 == e2
  }

  /** `addBinding` as its error message describes it: refused whenever a
      provider is already registered for an equal key. */
  function AddBindingStrict<P(==)>(l: BindingList<P>, key: Option<Key>, provider: Option<P>, show: Renderings<P>): (r: Added<P>)
    ensures r.error.Some? ==> r.list == l
    ensures key.Some? && provider.Some? ==>
              (r.error.Some? <==> exists e :: e in Bucket(l, key.value.typ) && Equals(e.key, key))
    ensures r.error.None? ==> r == AddBinding(l, key, provider, show)
  {
    if key.Some? && provider.Some? && exists e :: e in Bucket(l, key.value.typ) && Equals(e.key, key) then
      Added(l, Some(AlreadyRegistered(show, key.value, provider.value)))
    else AddBinding(l, key, provider, show)
  }

  /** The strict registration keeps at most one entry per key. */
  lemma StrictAddKeepsKeysUnique<P>(l: BindingList<P>, key: Option<Key>, provider: Option<P>, show: Renderings<P>)
    requires Valid(l) && KeysUnique(l)
    ensures KeysUnique(AddBindingStrict(l, key, provider, show).list)
  {
    var r := AddBindingStrict(l, key, provider, show);
    if r.error.None? {
      var k := key.value;
      forall t, e1, e2 | t in r.list.providers && e1 in r.list.providers[t] && e2 in r.list.providers[t] && e1.key == e2.key
        ensures e1 == e2
      {
        if t == k.typ {
          assert e1 in Bucket(r.list, t) && e2 in Bucket(r.list, t);
          if e1 !in Bucket(l, t) || e2 !in Bucket(l, t) {
            assert e1.key == k || e2.key == k;
            assert forall e | e in Bucket(l, t) :: e.key != k;
          }
        } else {
          assert e1 in Bucket(l, t) && e2 in Bucket(l, t);
        }
      }
    }
  }

  /** With at most one entry per key, `getBinding` has one answer only. */
  lemma UniqueKeysDetermineLookup<P>(l: BindingList<P>, k: Key, r1: Option<Entry<P>>, r2: Option<Entry<P>>)
    requires KeysUnique(l)
    requires Answers(l, k, r1) && Answers(l, k, r2)
    ensures r1 == r2
  {
  }
}
