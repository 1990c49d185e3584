/** `Key`: the parameter a binding provides a value for, an immutable pair of
    a type and an optional classifier annotation, compared by value. */
module Keys {
  import opened JavaValues

  /** A `java.lang.reflect.Type`, compared with its own `equals`. */
  datatype TypeName = TypeName(name: string)

  /** A classifier annotation class, compared by identity. */
  datatype Classifier = Classifier(name: string)

  /** Neither component is checked for null on construction. */
  datatype Key = Key(typ: Option<TypeName>, classifier: Option<Classifier>)

  /** `get(type)`, for a `Class` or any `Type`: no classifier. */
  function Get(typ: Option<TypeName>): (k: Key)
    ensures k.typ == typ && k.classifier.None?
  {
    Key(typ, None)
  }

  /** `get(type, classifier)`. */
  function GetClassified(typ: Option<TypeName>, classifier: Option<Classifier>): (k: Key)
    ensures k.typ == typ && k.classifier == classifier
  {
    Key(typ, classifier)
  }

  /** `setClassifier`: a new key with the same type; the receiver, an
      immutable value, is left as it was. */
  function SetClassifier(k: Key, classifier: Option<Classifier>): (r: Key)
    ensures r.typ == k.typ && r.classifier == classifier
  {
    Key(k.typ, classifier)
  }

  /** `equals`, with the source's null handling: a null argument is unequal,
      and two null components compare equal. */
  function Equals(k: Key, o: Option<Key>): (r: bool)
    ensures r <==> o == Some(k)
  {
    match o
    case None => false
    case Some(key) =>
      if (if k.typ.Some? then key.typ != k.typ else key.typ.Some?) then false
      else if k.classifier.Some? then key.classifier == k.classifier
      else key.classifier.None?
  }

  /** The hashes the components supply, as Java `int`s. */
  datatype Hashes = Hashes(typ: TypeName -> int, classifier: Classifier -> int)

  function ComponentHash<T>(hash: T -> int, x: Option<T>): int {
    match x
    case None => 0
    case Some(v) => WrapInt(hash(v))
  }

  /** `hashCode`: `31 * typeHash + classifierHash` in 32-bit arithmetic, with 0
      for a null component. */
  function HashCode(k: Key, hs: Hashes): (r: int)
    ensures IsInt(r)
    ensures k.typ.None? && k.classifier.None? ==> r == 0
  {
    WrapInt(31 * ComponentHash(hs.typ, k.typ) + ComponentHash(hs.classifier, k.classifier))
  }

  /** `equals` is an equivalence and agrees with `hashCode`. */
  lemma EqualsIsConsistent(a: Key, b: Key, c: Key, hs: Hashes)
    ensures Equals(a, Some(a))
    ensures Equals(a, Some(b)) <==> Equals(b, Some(a))
    ensures Equals(a, Some(b)) && Equals(b, Some(c)) ==> Equals(a, Some(c))
    ensures Equals(a, Some(b)) ==> HashCode(a, hs) == HashCode(b, hs)
  {
  }

  /** Two keys of one type differ exactly when their classifiers do, so a
      classified key never stands in for the unclassified one. */
  lemma ClassifierDistinguishesKeys(typ: Option<TypeName>, c: Option<Classifier>, d: Option<Classifier>)
    ensures Equals(GetClassified(typ, c), Some(GetClassified(typ, d))) <==> c == d
    ensures Equals(Get(typ), Some(GetClassified(typ, c))) <==> c.None?
  {
  }

  /** Setting a classifier keeps only the last one set, and the factories
      agree with each other. */
  lemma ClassifierRoundTrip(k: Key, c: Option<Classifier>, d: Option<Classifier>)
    ensures SetClassifier(SetClassifier(k, c), d) == SetClassifier(k, d)
    ensures SetClassifier(k, k.classifier) == k
    ensures SetClassifier(Get(k.typ), c) == GetClassified(k.typ, c)
    ensures GetClassified(k.typ, None) == Get(k.typ)
  {
  }

  /** `toString`, with the component renderings as parameters and `"null"` for
      a null component. */
  function KeyString(k: Key, showType: TypeName -> string, showClassifier: Classifier -> string): (r: string)
    ensures |r| >= 23 && r[..9] == "Key{type=" && r[|r| - 1] == '}'
  {
    var t := Concatenated(if k.typ.Some? then Some(showType(k.typ.value)) else None);
    var c := Concatenated(if k.classifier.Some? then Some(showClassifier(k.classifier.value)) else None);
    var r := "Key{type=" + t + ", classifier=" + c + "}";
    assert r == "Key{type=" + (t + ", classifier=" + c + "}");
    r
  }
}
