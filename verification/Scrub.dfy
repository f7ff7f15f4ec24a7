/** The capture's scrubber: every value a rule names, and every stretch a sweep finds, replaced by a
    placeholder, one for each value over the whole trip. Which rule names a path, and what the sweeps'
    patterns match, are parameters. */
module Scrub {
  import opened Prelude
  import opened Numerals

  datatype Kind = Geo | Digits | Hex | Uuid | Mac | Ipv4 | Ipv6 | Serial | Email | User | Person | Phone | Secret | Label

  datatype Scalar = Null | Flag(flag: bool) | Text(text: string) | Number(amount: real)

  /** A payload: a scalar, a mapping (`keyed`) or a list. */
  datatype Node = Leaf(value: Scalar) | Branch(keyed: bool, children: Children)
  datatype Children = End | Child(key: string, node: Node, rest: Children)

  type Path = seq<string>

  /** A stretch of text as a pattern cuts it. */
  datatype Piece = Kept(text: string) | Matched(text: string)

  datatype Rules = Rules(
    kindOf: Path -> Option<Kind>, cut: (Kind, string) -> seq<Piece>, isTrivial: string -> bool, render: Scalar -> string)

  const SWEEPS := [Uuid, Mac, Email, Phone]

  // --- placeholders ------------------------------------------------------------------------

  /** `_placeholder`: the shape a reader expects of a kind, numbered. */
  function Placeholder(kind: Kind, n: nat, original: Scalar, rules: Rules): Scalar {
    var decimal := Decimal(n);
    match kind
    case Geo => if original.Text? then Text("0.0") else Number(0.0)
    case Digits => Text(Fitted(decimal, |rules.render(original)|))
    case Hex => Text(Fitted(Hexadecimal(n, NUMERALS), |rules.render(original)|))
    case Uuid => Text("A1B2C3D4-0000-4000-8000-" + Padded(Hexadecimal(n, CAPITALS), 12))
    case Mac => Text("02:00:00:00:00:" + Padded(Hexadecimal(n, CAPITALS), 2))
    case Ipv4 => Text("203.0.113." + decimal)
    case Ipv6 => Text("fe80::" + Hexadecimal(n, NUMERALS))
    case Serial => Text("LOONMOBILE" + Padded(decimal, 2))
    case Email => Text("loonuser" + decimal + "@example.com")
    case User => Text("loonuser" + decimal)
    case Person => Text("Loon User " + decimal)
    case Phone => Text("+1-555-01" + Padded(decimal, 2))
    case Secret => Text("redacted-secret-" + decimal)
    case Label => Text("Redacted " + decimal)
  }

  // --- the register ------------------------------------------------------------------------

  /** What one scrub remembers; `minted` is every placeholder it has made. */
  datatype Register = Register(
    seen: map<Scalar, Scalar>, counts: map<Kind, nat>, swept: set<Path>, held: set<Path>, minted: set<Scalar>)

  function Count(counts: map<Kind, nat>, kind: Kind): nat {
    if kind in counts then counts[kind] else 0
  }

  /** An absent value and a flag are shapes, and so is a secret that is not text. */
  predicate IsShape(kind: Kind, original: Scalar) {
    original == Null || original == Text("") || original.Flag? || (kind == Secret && !original.Text?)
  }

  /** A placeholder made for a value not seen before, and registered for both. */
  function Enter(reg: Register, kind: Kind, n: nat, original: Scalar, placeholder: Scalar): Register {
    reg.(seen := reg.seen[original := placeholder][placeholder := placeholder],
         counts := reg.counts[kind := n], minted := reg.minted + {placeholder})
  }

  function Mint(reg: Register, kind: Kind, original: Scalar, rules: Rules): (Scalar, Register) {
    if IsShape(kind, original) then (original, reg)
    else if original in reg.seen then (reg.seen[original], reg)
    else
      var n := Count(reg.counts, kind) + 1;
      var placeholder := Placeholder(kind, n, original, rules);
      (placeholder, Enter(reg, kind, n, original, placeholder))
  }

  lemma {:induction false} MintsNew(reg: Register, kind: Kind, original: Scalar, rules: Rules)
    requires !IsShape(kind, original) && original !in reg.seen
    ensures var n := Count(reg.counts, kind) + 1;
            var placeholder := Placeholder(kind, n, original, rules);
            Mint(reg, kind, original, rules) == (placeholder, Enter(reg, kind, n, original, placeholder))
  {
  }

  /** The first `n` pieces of a swept text, each match replaced. */
  function Swept(reg: Register, kind: Kind, pieces: seq<Piece>, n: nat, rules: Rules): (string, Register)
    requires n <= |pieces|
  {
    if n == 0 then ([], reg)
    else
      var (text, before) := Swept(reg, kind, pieces, n - 1, rules);
      match pieces[n - 1]
      case Kept(kept) => (text + kept, before)
      case Matched(found) =>
        var (minted, after) := Mint(before, kind, Text(found), rules);
        (text + rules.render(minted), after)
  }

  predicate Finds(pieces: seq<Piece>) {
    exists i :: 0 <= i < |pieces| && pieces[i].Matched?
  }

  /** The first `n` sweeps over a text under a path. */
  function SweepAll(reg: Register, text: string, path: Path, n: nat, rules: Rules): (string, Register)
    requires n <= |SWEEPS|
  {
    if n == 0 then (text, reg)
    else
      var (before, earlier) := SweepAll(reg, text, path, n - 1, rules);
      var pieces := rules.cut(SWEEPS[n - 1], before);
      if Finds(pieces) then Swept(earlier.(swept := earlier.swept + {path}), SWEEPS[n - 1], pieces, |pieces|, rules)
      else (before, earlier)
  }

  function KindAt(path: Path, rules: Rules): Option<Kind> {
    if path == [] then None else rules.kindOf(path)
  }

  function WalkLeaf(reg: Register, value: Scalar, path: Path, rules: Rules): (Scalar, Register) {
    var kind := KindAt(path, rules);
    if kind.Some? then Mint(reg, kind.value, value, rules)
    else if !value.Text? then (value, reg)
    else
      var (text, after) := SweepAll(reg, value.text, path, |SWEEPS|, rules);
      (Text(text), if rules.isTrivial(text) then after else after.(held := after.held + {path}))
  }

  function Walk(reg: Register, node: Node, path: Path, rules: Rules): (Node, Register)
    decreases node
  {
    match node
    case Leaf(value) =>
      var (out, after) := WalkLeaf(reg, value, path, rules);
      (Leaf(out), after)
    case Branch(keyed, children) =>
      var (out, after) := WalkChildren(reg, keyed, children, path, rules);
      (Branch(keyed, out), after)
  }

  function WalkChildren(reg: Register, keyed: bool, children: Children, path: Path, rules: Rules): (Children, Register)
    decreases children
  {
    match children
    case End => (End, reg)
    case Child(key, node, rest) =>
      var (first, between) := Walk(reg, node, if keyed then path + [key] else path, rules);
      var (others, after) := WalkChildren(between, keyed, rest, path, rules);
      (Child(key, first, others), after)
  }

  /** One capture's replacements. */
  class Capture {
    var seen: map<Scalar, Scalar>
    var counts: map<Kind, nat>
    var swept: set<Path>
    var held: set<Path>
    ghost var minted: set<Scalar>
    const rules: Rules

    ghost function State(): Register
      reads this
    {
      Register(seen, counts, swept, held, minted)
    }

    constructor (rules: Rules)
      ensures this.rules == rules && State() == Register(map[], map[], {}, {}, {})
    {
      this.rules := rules;
      seen, counts, swept, held, minted := map[], map[], {}, {}, {};
    }

    method Remember(kind: Kind, n: nat, original: Scalar, placeholder: Scalar)
      modifies this
      ensures State() == Enter(old(State()), kind, n, original, placeholder)
    {
      counts := counts[kind := n];
      seen := seen[original := placeholder][placeholder := placeholder];
      minted := minted + {placeholder};
    }

    method MintOne(kind: Kind, original: Scalar) returns (placeholder: Scalar)
      modifies this
      ensures placeholder == Mint(old(State()), kind, original, rules).0
      ensures State() == Mint(old(State()), kind, original, rules).1
    {
      if original == Null || original == Text("") || original.Flag? {
        return original;
      }
      if kind == Secret && !original.Text? {
        return original;
      }
      if original in seen {
        return seen[original];
      }
      var n := Count(counts, kind) + 1;
      MintsNew(State(), kind, original, rules);
      placeholder := Placeholder(kind, n, original, rules);
      Remember(kind, n, original, placeholder);
    }

    method SweepOne(kind: Kind, pieces: seq<Piece>) returns (text: string)
      modifies this
      ensures (text, State()) == Swept(old(State()), kind, pieces, |pieces|, rules)
    {
      text := [];
      for i := 0 to |pieces|
        invariant (text, State()) == Swept(old(State()), kind, pieces, i, rules)
      {
        if pieces[i].Kept? {
          text := text + pieces[i].text;
        } else {
          var placeholder := MintOne(kind, Text(pieces[i].text));
          text := text + rules.render(placeholder);
        }
      }
    }

    method WalkValue(value: Scalar, path: Path) returns (out: Scalar)
      modifies this
      ensures (out, State()) == WalkLeaf(old(State()), value, path, rules)
    {
      var kind := KindAt(path, rules);
      if kind.Some? {
        out := MintOne(kind.value, value);
        return;
      }
      if !value.Text? {
        return value;
      }
      var text := value.text;
      for i := 0 to |SWEEPS|
        invariant (text, State()) == SweepAll(old(State()), value.text, path, i, rules)
      {
        var pieces := rules.cut(SWEEPS[i], text);
        if Finds(pieces) {
          swept := swept + {path};
          text := SweepOne(SWEEPS[i], pieces);
        }
      }
      if !rules.isTrivial(text) {
        held := held + {path};
      }
      out := Text(text);
    }

    method WalkNode(node: Node, path: Path) returns (out: Node)
      modifies this
      ensures (out, State()) == Walk(old(State()), node, path, rules)
      decreases node
    {
      match node
      case Leaf(value) =>
        var scalar := WalkValue(value, path);
        out := Leaf(scalar);
      case Branch(keyed, children) =>
        var inner := WalkItems(keyed, children, path);
        out := Branch(keyed, inner);
    }

    method WalkItems(keyed: bool, children: Children, path: Path) returns (out: Children)
      modifies this
      ensures (out, State()) == WalkChildren(old(State()), keyed, children, path, rules)
      decreases children
    {
      match children
      case End => out := End;
      case Child(key, node, rest) =>
        var first := WalkNode(node, if keyed then path + [key] else path);
        var others := WalkItems(keyed, rest, path);
        out := Child(key, first, others);
    }
  }
}
