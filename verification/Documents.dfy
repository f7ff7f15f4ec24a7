/** Plain JSON-like values, the order the program sorts strings in, and ordered documents. */
module Documents {

  /** A value up to the program's own `==`: mappings have no order, and a boolean is the number it
      equals. */
  datatype Value =
    | Null
    | Text(text: string)
    | Number(amount: real)
    | List(items: seq<Value>)
    | Object(fields: map<string, Value>)

  type Mapping = map<string, Value>

  /** `mapping.get(name)`: an absent name reads as null. */
  function Get(mapping: Mapping, name: string): Value {
    if name in mapping then mapping[name] else Null
  }

  // --- string order ------------------------------------------------------------------------

  /** Strings in order of their first difference, a prefix before what it begins. */
  predicate Less(a: string, b: string) {
    b != [] && (a == [] || a[0] < b[0] || (a[0] == b[0] && Less(a[1..], b[1..])))
  }

  lemma {:induction false} LessIsStrict(a: string, b: string)
    ensures !(Less(a, b) && Less(b, a))
    ensures !Less(a, a)
  {
    if a != [] {
      LessIsStrict(a[1..], if b == [] then b else b[1..]);
    }
  }

  lemma {:induction false} LessIsTransitive(a: string, b: string, c: string)
    requires Less(a, b) && Less(b, c)
    ensures Less(a, c)
  {
    if a != [] && a[0] == b[0] == c[0] {
      LessIsTransitive(a[1..], b[1..], c[1..]);
    }
  }

  lemma {:induction false} LessIsTotal(a: string, b: string)
    ensures a == b || Less(a, b) || Less(b, a)
  {
    if a != [] && b != [] && a[0] == b[0] {
      LessIsTotal(a[1..], b[1..]);
      assert a == [a[0]] + a[1..] && b == [b[0]] + b[1..];
    }
  }

  predicate Ascending(names: seq<string>) {
    forall i, j :: 0 <= i < j < |names| ==> Less(names[i], names[j])
  }

  predicate IsLeast(names: set<string>, name: string) {
    name in names && forall other :: other in names ==> other == name || Less(name, other)
  }

  lemma {:induction false} LeastExists(names: set<string>) returns (least: string)
    requires names != {}
    ensures IsLeast(names, least)
  {
    var name :| name in names;
    if names == {name} {
      least := name;
    } else {
      var rest := LeastExists(names - {name});
      LessIsTotal(name, rest);
      least := if Less(name, rest) then name else rest;
      forall other | other in names ensures other == least || Less(least, other) {
        if other in names - {name} && other != rest && least == name {
          LessIsTransitive(name, rest, other);
        }
      }
    }
  }

  lemma {:induction false} LeastIsUnique(names: set<string>)
    requires names != {}
    ensures exists least :: IsLeast(names, least)
    ensures forall a, b :: IsLeast(names, a) && IsLeast(names, b) ==> a == b
  {
    var least := LeastExists(names);
    assert IsLeast(names, least);
    forall a, b | IsLeast(names, a) && IsLeast(names, b) ensures a == b {
      LessIsStrict(a, b);
    }
  }

  function Least(names: set<string>): (least: string)
    requires names != {}
    ensures IsLeast(names, least)
  {
    LeastIsUnique(names);
    var least :| IsLeast(names, least);
    least
  }

  /** `sorted` of a set of names: the ascending list of its members. */
  function Sorted(names: set<string>): (order: seq<string>)
    ensures Ascending(order)
    ensures forall name :: name in order <==> name in names
  {
    if names == {} then []
    else
      var least := Least(names);
      [least] + Sorted(names - {least})
  }

  /** An ascending list is determined by its members. */
  lemma {:induction false} AscendingIsUnique(a: seq<string>, b: seq<string>)
    requires Ascending(a) && Ascending(b)
    requires forall name :: name in a <==> name in b
    ensures a == b
  {
    assert a != [] ==> a[0] in b;
    assert b != [] ==> b[0] in a;
    if a != [] {
      LessIsStrict(a[0], b[0]);
      assert a[0] == b[0];
      forall name ensures name in a[1..] <==> name in b[1..] {
        LessIsStrict(name, name);
        assert name in a <==> name == a[0] || name in a[1..];
        assert name in b <==> name == b[0] || name in b[1..];
      }
      AscendingIsUnique(a[1..], b[1..]);
      assert a == [a[0]] + a[1..] && b == [b[0]] + b[1..];
    }
  }
}
