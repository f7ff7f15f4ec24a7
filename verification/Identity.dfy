/** The hashable form of an entry's identity fields, and when two of them coincide. */
module Identity {
  import opened Documents

  /** What `_stable` turns a value into: itself, or a tuple. */
  datatype Stable = Nothing | Plain(text: string) | Figure(amount: real) | Tuple(parts: seq<Stable>)

  function StableOf(value: Value): Stable {
    match value
    case Null => Nothing
    case Text(text) => Plain(text)
    case Number(amount) => Figure(amount)
    case List(items) => Tuple(seq(|items|, i requires 0 <= i < |items| => StableOf(items[i])))
    case Object(fields) =>
      var names := Sorted(fields.Keys);
      Tuple(seq(|names|, i requires 0 <= i < |names| => Tuple([Plain(names[i]), StableOf(fields[names[i]])])))
  }

  type Key = seq<Stable>

  function IdentityKey(body: Mapping, keys: seq<string>): Key {
    seq(|keys|, i requires 0 <= i < |keys| => StableOf(Get(body, keys[i])))
  }

  // --- which values coincide ---------------------------------------------------------------

  /** A value with every mapping in it written as the list of its name and value pairs, by name. */
  function AsPairs(value: Value): Value {
    match value
    case Null => Null
    case Text(text) => Text(text)
    case Number(amount) => Number(amount)
    case List(items) => List(seq(|items|, i requires 0 <= i < |items| => AsPairs(items[i])))
    case Object(fields) =>
      var names := Sorted(fields.Keys);
      List(seq(|names|, i requires 0 <= i < |names| => List([Text(names[i]), AsPairs(fields[names[i]])])))
  }

  predicate NoObjects(value: Value) {
    match value
    case Null => true
    case Text(_) => true
    case Number(_) => true
    case List(items) => forall i :: 0 <= i < |items| ==> NoObjects(items[i])
    case Object(_) => false
  }

  lemma {:induction false} AsPairsIsFaithful(value: Value)
    ensures NoObjects(AsPairs(value)) && StableOf(AsPairs(value)) == StableOf(value)
  {
    match value
    case Null =>
    case Text(_) =>
    case Number(_) =>
    case List(items) =>
      forall i | 0 <= i < |items|
        ensures NoObjects(AsPairs(items[i])) && StableOf(AsPairs(items[i])) == StableOf(items[i])
      {
        AsPairsIsFaithful(items[i]);
      }
      assert StableOf(AsPairs(value)).parts == StableOf(value).parts;
    case Object(fields) =>
      var names := Sorted(fields.Keys);
      forall i | 0 <= i < |names|
        ensures NoObjects(AsPairs(value).items[i])
        ensures StableOf(AsPairs(value).items[i]) == Tuple([Plain(names[i]), StableOf(fields[names[i]])])
      {
        AsPairsIsFaithful(fields[names[i]]);
        PairIsStable(names[i], AsPairs(fields[names[i]]));
      }
      assert StableOf(AsPairs(value)).parts == StableOf(value).parts;
  }

  lemma {:induction false} PairIsStable(name: string, value: Value)
    ensures StableOf(List([Text(name), value])) == Tuple([Plain(name), StableOf(value)])
    ensures NoObjects(value) ==> NoObjects(List([Text(name), value]))
  {
    var pair := List([Text(name), value]);
    assert StableOf(pair).parts == [StableOf(pair.items[0]), StableOf(pair.items[1])];
  }

  lemma {:induction false} ListsStayApart(a: Value, b: Value)
    requires NoObjects(a) && NoObjects(b) && StableOf(a) == StableOf(b)
    ensures a == b
  {
    if a.List? {
      assert |a.items| == |StableOf(a).parts| == |b.items|;
      forall i | 0 <= i < |a.items| ensures a.items[i] == b.items[i] {
        assert StableOf(a).parts[i] == StableOf(a.items[i]);
        assert StableOf(b).parts[i] == StableOf(b.items[i]);
        ListsStayApart(a.items[i], b.items[i]);
      }
      assert a.items == b.items;
    }
  }

  /** Two entries have the same identity exactly when each identity field has the same value once
      mappings are read as the lists of their pairs. */
  lemma {:induction false} SameIdentityExactly(a: Mapping, b: Mapping, keys: seq<string>)
    ensures IdentityKey(a, keys) == IdentityKey(b, keys)
       <==> forall i :: 0 <= i < |keys| ==> AsPairs(Get(a, keys[i])) == AsPairs(Get(b, keys[i]))
  {
    forall i | 0 <= i < |keys|
      ensures IdentityKey(a, keys)[i] == IdentityKey(b, keys)[i]
         <==> AsPairs(Get(a, keys[i])) == AsPairs(Get(b, keys[i]))
    {
      AsPairsIsFaithful(Get(a, keys[i]));
      AsPairsIsFaithful(Get(b, keys[i]));
      if StableOf(Get(a, keys[i])) == StableOf(Get(b, keys[i])) {
        ListsStayApart(AsPairs(Get(a, keys[i])), AsPairs(Get(b, keys[i])));
      }
    }
  }

  /** The collision this leaves: a mapping and the list of its pairs are one identity. */
  lemma {:induction false} MappingMeetsItsPairs(fields: Mapping)
    ensures AsPairs(Object(fields)) != Object(fields)
    ensures StableOf(AsPairs(Object(fields))) == StableOf(Object(fields))
  {
    AsPairsIsFaithful(Object(fields));
  }
}
