/** Dotted-path leaves of a document, and the leaf-by-leaf comparison of two of them. */
module Flatten {
  import opened Prelude
  import opened Documents

  /** A document in the order its keys were written: a mapping's fields, or anything else. */
  datatype Document = Leaf(value: Value) | Branch(fields: Fields)
  datatype Fields = Done | Field(key: string, document: Document, rest: Fields)

  /** Every leaf by its dotted path. */
  type Leaves = map<string, Value>

  // --- what a document is ------------------------------------------------------------------

  function FieldAt(fields: Fields, key: string): Option<Document> {
    match fields
    case Done => None
    case Field(k, document, rest) => if k == key then Some(document) else FieldAt(rest, key)
  }

  /** Keys are distinct, and a mapping is a branch rather than a leaf. */
  predicate IsDocument(fields: Fields) {
    match fields
    case Done => true
    case Field(key, document, rest) => FieldAt(rest, key) == None && IsValue(document) && IsDocument(rest)
  }

  predicate IsValue(document: Document) {
    match document
    case Leaf(value) => !value.Object?
    case Branch(fields) => IsDocument(fields)
  }

  /** No key, at any depth, holds a dot. */
  predicate DotFree(fields: Fields) {
    match fields
    case Done => true
    case Field(key, document, rest) =>
      '.' !in key && (document.Branch? ==> DotFree(document.fields)) && DotFree(rest)
  }

  /** No field, at any depth, is an empty mapping. */
  predicate NoEmpties(fields: Fields) {
    match fields
    case Done => true
    case Field(_, document, rest) =>
      (document.Branch? ==> document.fields.Field? && NoEmpties(document.fields)) && NoEmpties(rest)
  }

  /** No leaf, at any depth, is null. */
  predicate NoNulls(fields: Fields) {
    match fields
    case Done => true
    case Field(_, document, rest) =>
      document != Leaf(Null) && (document.Branch? ==> NoNulls(document.fields)) && NoNulls(rest)
  }

  /** The mapping a document stands for, in which the order of its keys no longer shows. */
  function Meaning(fields: Fields): Mapping {
    match fields
    case Done => map[]
    case Field(key, document, rest) => Meaning(rest)[key := ValueOf(document)]
  }

  function ValueOf(document: Document): Value {
    match document
    case Leaf(value) => value
    case Branch(fields) => Object(Meaning(fields))
  }

  lemma {:induction false} MeaningAt(fields: Fields, key: string)
    ensures key in Meaning(fields) <==> FieldAt(fields, key).Some?
    ensures key in Meaning(fields) ==> Meaning(fields)[key] == ValueOf(FieldAt(fields, key).value)
  {
    if fields.Field? {
      MeaningAt(fields.rest, key);
    }
  }

  lemma {:induction false} FieldInherits(fields: Fields, key: string)
    requires FieldAt(fields, key).Some?
    ensures IsDocument(fields) ==> IsValue(FieldAt(fields, key).value)
    ensures DotFree(fields) ==> '.' !in key
    ensures DotFree(fields) && FieldAt(fields, key).value.Branch? ==> DotFree(FieldAt(fields, key).value.fields)
    ensures NoEmpties(fields) && FieldAt(fields, key).value.Branch? ==>
              FieldAt(fields, key).value.fields.Field? && NoEmpties(FieldAt(fields, key).value.fields)
  {
    if fields.key != key {
      FieldInherits(fields.rest, key);
    }
  }

  // --- flattening --------------------------------------------------------------------------

  /** The leaves of a document under a prefix: a nested mapping's under its key and a dot, a later
      field over an earlier one where two paths meet. */
  function LeavesOf(fields: Fields, prefix: string): Leaves {
    match fields
    case Done => map[]
    case Field(key, document, rest) => FieldLeaves(document, prefix + key) + LeavesOf(rest, prefix)
  }

  function FieldLeaves(document: Document, path: string): Leaves {
    match document
    case Leaf(value) => map[path := value]
    case Branch(fields) => LeavesOf(fields, path + ".")
  }

  function LeavesIn(document: Document, prefix: string): Leaves {
    match document
    case Leaf(_) => map[]
    case Branch(fields) => LeavesOf(fields, prefix)
  }

  lemma {:induction false} FirstFieldMoves(out: Leaves, fields: Fields, prefix: string)
    requires fields.Field?
    ensures out + LeavesOf(fields, prefix)
         == out + FieldLeaves(fields.document, prefix + fields.key) + LeavesOf(fields.rest, prefix)
  {
    MapsAssociate(out, FieldLeaves(fields.document, prefix + fields.key), LeavesOf(fields.rest, prefix));
  }

  lemma {:induction false} MapsAssociate(a: Leaves, b: Leaves, c: Leaves)
    ensures a + (b + c) == (a + b) + c
  {
  }

  lemma {:induction false} OneMore(out: Leaves, path: string, value: Value)
    ensures out[path := value] == out + map[path := value]
  {
  }

  method FlattenTo(document: Document, prefix: string) returns (out: Leaves)
    ensures out == LeavesIn(document, prefix)
    decreases document
  {
    out := map[];
    if document.Leaf? {
      return;
    }
    var left := document.fields;
    while left.Field?
      invariant left == document.fields || left < document.fields
      invariant out + LeavesOf(left, prefix) == LeavesOf(document.fields, prefix)
      decreases left
    {
      var path := prefix + left.key;
      FirstFieldMoves(out, left, prefix);
      if left.document.Branch? {
        var inner := FlattenTo(left.document, path + ".");
        out := out + inner;
      } else {
        OneMore(out, path, left.document.value);
        out := out[path := left.document.value];
      }
      left := left.rest;
    }
  }

  // --- paths -------------------------------------------------------------------------------

  /** Where a path's first dot is, or its length. */
  function Dot(path: string): (at: nat)
    ensures at <= |path|
  {
    if path == [] || path[0] == '.' then 0 else 1 + Dot(path[1..])
  }

  predicate Dotted(path: string) {
    Dot(path) < |path|
  }

  function Head(path: string): string {
    path[..Dot(path)]
  }

  function Tail(path: string): string
    requires Dotted(path)
  {
    path[Dot(path) + 1..]
  }

  lemma {:induction false} DotIsFirst(path: string)
    ensures '.' !in Head(path)
    ensures Dotted(path) ==> path == Head(path) + "." + Tail(path)
    ensures !Dotted(path) ==> path == Head(path)
  {
    if path != [] && path[0] != '.' {
      var rest := path[1..];
      DotIsFirst(rest);
      assert path == [path[0]] + rest;
      assert Head(path) == [path[0]] + Head(rest);
      assert Dotted(path) ==> Tail(path) == Tail(rest);
    }
  }

  lemma {:induction false} JoinedHead(key: string, rest: string)
    requires '.' !in key
    ensures Dot(key) == |key|
    ensures Dot(key + "." + rest) == |key|
  {
    if key != [] {
      JoinedHead(key[1..], rest);
      assert (key + "." + rest)[1..] == key[1..] + "." + rest;
    }
  }

  predicate IsLeaf(found: Option<Document>) {
    found.Some? && found.value.Leaf?
  }

  predicate IsBranch(found: Option<Document>) {
    found.Some? && found.value.Branch?
  }

  /** The leaf a dotted path leads to, read segment by segment. */
  function LookUp(fields: Fields, path: string): Option<Value>
    decreases |path|
  {
    var found := FieldAt(fields, Head(path));
    if IsLeaf(found) && !Dotted(path) then Some(found.value.value)
    else if IsBranch(found) && Dotted(path) then LookUp(found.value.fields, Tail(path))
    else None
  }

  lemma {:induction false} LeavesBeginWithPrefix(fields: Fields, prefix: string, path: string)
    requires path in LeavesOf(fields, prefix)
    ensures prefix <= path
    decreases fields
  {
    if path in LeavesOf(fields.rest, prefix) {
      LeavesBeginWithPrefix(fields.rest, prefix, path);
    } else if fields.document.Branch? {
      LeavesBeginWithPrefix(fields.document.fields, prefix + fields.key + ".", path);
    }
  }

  /** A path under another key is not among a field's leaves. */
  lemma {:induction false} OtherHead(document: Document, key: string, prefix: string, path: string)
    requires '.' !in key && Head(path) != key
    ensures prefix + path !in FieldLeaves(document, prefix + key)
  {
    if prefix + path in FieldLeaves(document, prefix + key) {
      if document.Leaf? {
        assert (prefix + path)[|prefix|..] == path && (prefix + key)[|prefix|..] == key;
        JoinedHead(key, []);
      } else {
        var deeper := prefix + key + ".";
        LeavesBeginWithPrefix(document.fields, deeper, prefix + path);
        var tail := (prefix + path)[|deeper|..];
        assert prefix + path == deeper + tail;
        assert path == (prefix + path)[|prefix|..] == key + "." + tail;
        JoinedHead(key, tail);
      }
    }
  }

  /** Flattening puts each leaf at the path that leads to it, and nothing anywhere else. */
  lemma {:induction false} LeavesAt(fields: Fields, prefix: string, path: string)
    requires IsDocument(fields) && DotFree(fields)
    ensures prefix + path in LeavesOf(fields, prefix) <==> LookUp(fields, path).Some?
    ensures prefix + path in LeavesOf(fields, prefix) ==>
              LeavesOf(fields, prefix)[prefix + path] == LookUp(fields, path).value
    decreases fields
  {
    if fields.Field? {
      var (key, document) := (fields.key, fields.document);
      LeavesAt(fields.rest, prefix, path);
      if Head(path) != key {
        OtherHead(document, key, prefix, path);
      } else {
        OwnHead(document, key, prefix, path);
        DotIsFirst(path);
        if document.Branch? && Dotted(path) {
          assert prefix + path == (prefix + key + ".") + Tail(path);
          LeavesAt(document.fields, prefix + key + ".", Tail(path));
        }
      }
    }
  }

  lemma {:induction false} OwnHead(document: Document, key: string, prefix: string, path: string)
    requires '.' !in key && Head(path) == key
    ensures document.Leaf? ==> (prefix + path in FieldLeaves(document, prefix + key) <==> !Dotted(path))
    ensures document.Branch? && !Dotted(path) ==> prefix + path !in FieldLeaves(document, prefix + key)
  {
    DotIsFirst(path);
    if document.Leaf? {
      assert (prefix + path)[|prefix|..] == path && (prefix + key)[|prefix|..] == key;
    } else if !Dotted(path) && prefix + path in FieldLeaves(document, prefix + key) {
      LeavesBeginWithPrefix(document.fields, prefix + key + ".", prefix + path);
      assert false;
    }
  }

  // --- the inverse -------------------------------------------------------------------------

  /** The leaves below one key, by the rest of their paths. */
  function Under(leaves: Leaves, head: string): Leaves {
    map rest | rest in (set path | path in leaves && Dotted(path) && Head(path) == head :: Tail(path))
               && head + "." + rest in leaves :: leaves[head + "." + rest]
  }

  lemma {:induction false} UnderAt(leaves: Leaves, head: string, rest: string)
    requires '.' !in head
    ensures rest in Under(leaves, head) <==> head + "." + rest in leaves
  {
    JoinedHead(head, rest);
    var path := head + "." + rest;
    assert Head(path) == head && Tail(path) == rest;
  }

  ghost predicate Shorter(leaves: Leaves, bound: nat) {
    forall path :: path in leaves ==> |path| < bound
  }

  lemma {:induction false} UnderIsShorter(leaves: Leaves, head: string, bound: nat)
    requires Shorter(leaves, bound)
    ensures bound > 0 ==> Shorter(Under(leaves, head), bound - 1)
  {
  }

  /** The mapping dotted leaves describe: one name per first segment, a leaf or the mapping of the
      leaves below it. `bound` only has to exceed the longest path. */
  ghost function Unflatten(leaves: Leaves, bound: nat): Mapping
    requires Shorter(leaves, bound)
    decreases bound
  {
    if bound == 0 then map[]
    else
      UnderShrinks(leaves, bound);
      map head | head in (set path | path in leaves :: Head(path)) ::
        if head in leaves then leaves[head] else Object(Unflatten(Under(leaves, head), bound - 1))
  }

  lemma {:induction false} UnderShrinks(leaves: Leaves, bound: nat)
    requires Shorter(leaves, bound) && bound > 0
    ensures forall head :: Shorter(Under(leaves, head), bound - 1)
  {
    forall head ensures Shorter(Under(leaves, head), bound - 1) {
      UnderIsShorter(leaves, head, bound);
    }
  }

  /** The leaves are exactly what the document's paths lead to. */
  ghost predicate Tells(leaves: Leaves, fields: Fields) {
    && (forall path :: path in leaves <==> LookUp(fields, path).Some?)
    && (forall path :: path in leaves ==> leaves[path] == LookUp(fields, path).value)
  }

  lemma {:induction false} FlattenTells(fields: Fields)
    requires IsDocument(fields) && DotFree(fields)
    ensures Tells(LeavesOf(fields, []), fields)
  {
    forall path
      ensures path in LeavesOf(fields, []) <==> LookUp(fields, path).Some?
      ensures path in LeavesOf(fields, []) ==> LeavesOf(fields, [])[path] == LookUp(fields, path).value
    {
      assert [] + path == path;
      LeavesAt(fields, [], path);
    }
  }

  lemma {:induction false} LookUpBelow(fields: Fields, key: string, rest: string)
    requires '.' !in key
    ensures LookUp(fields, key + "." + rest) ==
            if IsBranch(FieldAt(fields, key)) then LookUp(FieldAt(fields, key).value.fields, rest) else None
    ensures LookUp(fields, key) ==
            if IsLeaf(FieldAt(fields, key)) then Some(FieldAt(fields, key).value.value) else None
  {
    JoinedHead(key, rest);
    assert Head(key + "." + rest) == key == Head(key);
    assert Tail(key + "." + rest) == rest;
  }

  /** Without empty mappings every document with a field has a leaf. */
  lemma {:induction false} HasLeaf(fields: Fields, key: string) returns (path: string)
    requires DotFree(fields) && NoEmpties(fields) && FieldAt(fields, key).Some?
    ensures LookUp(fields, path).Some? && Head(path) == key
    decreases fields
  {
    FieldInherits(fields, key);
    var found := FieldAt(fields, key).value;
    if found.Leaf? {
      LookUpBelow(fields, key, []);
      JoinedHead(key, []);
      path := key;
    } else {
      FieldIsSmaller(fields, key);
      var rest := HasLeaf(found.fields, found.fields.key);
      LookUpBelow(fields, key, rest);
      JoinedHead(key, rest);
      path := key + "." + rest;
    }
  }

  lemma {:induction false} FieldIsSmaller(fields: Fields, key: string)
    requires FieldAt(fields, key).Some? && FieldAt(fields, key).value.Branch?
    ensures FieldAt(fields, key).value.fields < fields
  {
    if fields.key != key {
      FieldIsSmaller(fields.rest, key);
    }
  }

  lemma {:induction false} UnderTells(leaves: Leaves, fields: Fields, key: string)
    requires Tells(leaves, fields) && '.' !in key
    requires FieldAt(fields, key).Some? && FieldAt(fields, key).value.Branch?
    ensures Tells(Under(leaves, key), FieldAt(fields, key).value.fields)
  {
    var inner := FieldAt(fields, key).value.fields;
    forall rest
      ensures rest in Under(leaves, key) <==> LookUp(inner, rest).Some?
      ensures rest in Under(leaves, key) ==> Under(leaves, key)[rest] == LookUp(inner, rest).value
    {
      UnderAt(leaves, key, rest);
      LookUpBelow(fields, key, rest);
    }
  }

  lemma {:induction false} UnflattenAt(leaves: Leaves, bound: nat, path: string)
    requires Shorter(leaves, bound) && bound > 0 && path in leaves
    ensures Shorter(Under(leaves, Head(path)), bound - 1)
    ensures Head(path) in Unflatten(leaves, bound)
    ensures Unflatten(leaves, bound)[Head(path)] ==
            if Head(path) in leaves then leaves[Head(path)]
            else Object(Unflatten(Under(leaves, Head(path)), bound - 1))
  {
    UnderIsShorter(leaves, Head(path), bound);
  }

  lemma {:induction false} UnflattenNames(leaves: Leaves, fields: Fields, bound: nat, key: string)
    requires Tells(leaves, fields) && Shorter(leaves, bound) && key in Unflatten(leaves, bound)
    ensures FieldAt(fields, key).Some?
  {
    var path :| path in leaves && Head(path) == key;
    assert LookUp(fields, path).Some?;
  }

  /** One name of the rebuilt mapping, given the mappings below it. */
  lemma {:induction false} UnflattenRebuildsAt(leaves: Leaves, fields: Fields, bound: nat, key: string)
    requires Tells(leaves, fields) && Shorter(leaves, bound)
    requires IsDocument(fields) && DotFree(fields) && NoEmpties(fields) && FieldAt(fields, key).Some?
    requires bound > 0 && Shorter(Under(leaves, key), bound - 1)
    requires IsBranch(FieldAt(fields, key)) ==>
               Unflatten(Under(leaves, key), bound - 1) == Meaning(FieldAt(fields, key).value.fields)
    ensures key in Unflatten(leaves, bound)
    ensures Unflatten(leaves, bound)[key] == ValueOf(FieldAt(fields, key).value)
  {
    FieldInherits(fields, key);
    var path := HasLeaf(fields, key);
    assert path in leaves;
    UnflattenAt(leaves, bound, path);
    LookUpBelow(fields, key, []);
    assert key in leaves <==> IsLeaf(FieldAt(fields, key));
  }

  lemma {:induction false} HasBound(leaves: Leaves, fields: Fields, bound: nat, key: string)
    requires Tells(leaves, fields) && Shorter(leaves, bound)
    requires DotFree(fields) && NoEmpties(fields) && FieldAt(fields, key).Some?
    ensures bound > 0 && Shorter(Under(leaves, key), bound - 1)
  {
    var path := HasLeaf(fields, key);
    assert path in leaves;
    UnderIsShorter(leaves, key, bound);
  }

  lemma {:induction false} UnflattenRebuilds(leaves: Leaves, fields: Fields, bound: nat)
    requires Tells(leaves, fields) && Shorter(leaves, bound)
    requires IsDocument(fields) && DotFree(fields) && NoEmpties(fields)
    ensures Unflatten(leaves, bound) == Meaning(fields)
    decreases bound
  {
    forall key | key in Unflatten(leaves, bound) ensures key in Meaning(fields) {
      UnflattenNames(leaves, fields, bound, key);
      MeaningAt(fields, key);
    }
    forall key | key in Meaning(fields)
      ensures key in Unflatten(leaves, bound) && Unflatten(leaves, bound)[key] == Meaning(fields)[key]
    {
      MeaningAt(fields, key);
      HasBound(leaves, fields, bound, key);
      if IsBranch(FieldAt(fields, key)) {
        FieldInherits(fields, key);
        UnderTells(leaves, fields, key);
        UnflattenRebuilds(Under(leaves, key), FieldAt(fields, key).value.fields, bound - 1);
      }
      UnflattenRebuildsAt(leaves, fields, bound, key);
    }
  }
}
