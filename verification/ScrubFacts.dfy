/** What one scrub keeps over a whole trip: replacements settle, placeholders are fixed, the output can
    be walked again, equal values stay equal, and nothing unexplained goes unlisted. */
module ScrubFacts {
  import opened Prelude
  import opened Numerals
  import opened Scrub
  import opened Spellings

  predicate NotBelow(counts: map<Kind, nat>, more: map<Kind, nat>) {
    forall kind :: Count(counts, kind) <= Count(more, kind)
  }

  lemma {:induction false} MadeGrows(value: Scalar, counts: map<Kind, nat>, more: map<Kind, nat>, rules: Rules)
    requires MadeWithin(value, counts, rules) && NotBelow(counts, more)
    ensures MadeWithin(value, more, rules)
  {
    var kind, n: nat, original :| n <= Count(counts, kind) && Makes(kind, n, original, value, rules);
    assert n <= Count(more, kind);
  }

  /** Every value seen stands for a placeholder, a placeholder for itself, and some kind has made it by
      the number it has reached. */
  ghost predicate Sound(reg: Register, rules: Rules) {
    && (forall value :: value in reg.seen ==> reg.seen[value] in reg.minted)
    && (forall placeholder :: placeholder in reg.minted ==> placeholder in reg.seen && reg.seen[placeholder] == placeholder)
    && (forall placeholder :: placeholder in reg.minted ==> MadeWithin(placeholder, reg.counts, rules))
    && KeepsApart(reg.seen, reg.minted, rules)
  }

  /** Two values, neither a placeholder itself, that stand for one. */
  predicate Share(seen: map<Scalar, Scalar>, minted: set<Scalar>, a: Scalar, b: Scalar) {
    a in seen && b in seen && a != b && a !in minted && b !in minted && seen[a] == seen[b]
  }

  ghost predicate IsSpelled(value: Scalar, rules: Rules) {
    exists kind, n: nat, original :: Spells(kind) && Makes(kind, n, original, value, rules)
  }

  /** Nothing that spells its number out stands for two values. */
  ghost predicate KeepsApart(seen: map<Scalar, Scalar>, minted: set<Scalar>, rules: Rules) {
    forall a, b :: Share(seen, minted, a, b) ==> !IsSpelled(seen[a], rules)
  }

  /** A later state of the same scrub: nothing seen is forgotten, no placeholder is unmade, no count
      goes down, and a value's replacement changes only by the value having been made a placeholder. */
  predicate Later(a: Register, b: Register) {
    && a.minted <= b.minted && a.held <= b.held && NotBelow(a.counts, b.counts)
    && (forall value :: value in a.seen ==> value in b.seen && (b.seen[value] == a.seen[value] || value in b.minted))
  }

  lemma {:induction false} LaterIsTransitive(a: Register, b: Register, c: Register)
    requires Later(a, b) && Later(b, c)
    ensures Later(a, c)
  {
    forall value | value in a.seen ensures value in c.seen && (c.seen[value] == a.seen[value] || value in c.minted) {
      assert value in b.seen;
    }
  }

  lemma {:induction false} MintKeeps(reg: Register, kind: Kind, original: Scalar, rules: Rules)
    requires Sound(reg, rules)
    ensures var after := Mint(reg, kind, original, rules).1; Sound(after, rules) && Later(reg, after)
  {
    if !IsShape(kind, original) && original !in reg.seen {
      var n := Count(reg.counts, kind) + 1;
      EnterKeeps(reg, kind, n, original, Placeholder(kind, n, original, rules), rules);
    }
  }

  lemma {:induction false} CountedMade(
    reg: Register, kind: Kind, n: nat, original: Scalar, placeholder: Scalar, rules: Rules)
    requires n == Count(reg.counts, kind) + 1 && Makes(kind, n, original, placeholder, rules)
    requires forall made :: made in reg.minted ==> MadeWithin(made, reg.counts, rules)
    ensures NotBelow(reg.counts, reg.counts[kind := n])
    ensures forall made :: made in reg.minted + {placeholder} ==> MadeWithin(made, reg.counts[kind := n], rules)
  {
    var counts := reg.counts[kind := n];
    forall made | made in reg.minted + {placeholder}
      ensures MadeWithin(made, counts, rules)
    {
      if made == placeholder {
        assert n <= Count(counts, kind) && Makes(kind, n, original, made, rules);
      } else {
        MadeGrows(made, reg.counts, counts, rules);
      }
    }
  }

  /** A placeholder made again, by the next number of some kind, is none that spells its number out. */
  lemma {:induction false} MadeAgain(
    counts: map<Kind, nat>, kind: Kind, n: nat, original: Scalar, placeholder: Scalar, rules: Rules)
    requires n == Count(counts, kind) + 1 && Makes(kind, n, original, placeholder, rules)
    requires MadeWithin(placeholder, counts, rules)
    ensures !IsSpelled(placeholder, rules)
  {
    var first, m: nat, one :| m <= Count(counts, first) && Makes(first, m, one, placeholder, rules);
    forall other, k: nat, another | Spells(other)
      ensures !Makes(other, k, another, placeholder, rules)
    {
      if Makes(other, k, another, placeholder, rules) {
        SpelledOnce(other, k, another, kind, n, original, placeholder, rules);
        SpelledOnce(other, k, another, first, m, one, placeholder, rules);
      }
    }
  }

  lemma {:induction false} NewShares(
    reg: Register, kind: Kind, n: nat, original: Scalar, placeholder: Scalar, a: Scalar, b: Scalar)
    requires var after := Enter(reg, kind, n, original, placeholder); Share(after.seen, after.minted, a, b)
    requires original !in reg.seen && forall value :: value in reg.seen ==> reg.seen[value] in reg.minted
    ensures var after := Enter(reg, kind, n, original, placeholder);
            || (Share(reg.seen, reg.minted, a, b) && after.seen[a] == reg.seen[a])
            || (placeholder in reg.minted && after.seen[a] == placeholder)
  {
  }

  lemma {:induction false} EnterKeepsApart(
    reg: Register, kind: Kind, n: nat, original: Scalar, placeholder: Scalar, rules: Rules)
    requires Sound(reg, rules) && original !in reg.seen
    requires n == Count(reg.counts, kind) + 1 && Makes(kind, n, original, placeholder, rules)
    ensures var after := Enter(reg, kind, n, original, placeholder); KeepsApart(after.seen, after.minted, rules)
  {
    var after := Enter(reg, kind, n, original, placeholder);
    forall a, b | Share(after.seen, after.minted, a, b)
      ensures !IsSpelled(after.seen[a], rules)
    {
      NewShares(reg, kind, n, original, placeholder, a, b);
      if placeholder in reg.minted {
        MadeAgain(reg.counts, kind, n, original, placeholder, rules);
      }
    }
  }

  lemma {:induction false} EnterKeepsSeen(reg: Register, kind: Kind, n: nat, original: Scalar, placeholder: Scalar)
    requires original !in reg.seen
    requires forall value :: value in reg.seen ==> reg.seen[value] in reg.minted
    requires forall made :: made in reg.minted ==> made in reg.seen && reg.seen[made] == made
    ensures var after := Enter(reg, kind, n, original, placeholder);
            && (forall value :: value in after.seen ==> after.seen[value] in after.minted)
            && (forall made :: made in after.minted ==> made in after.seen && after.seen[made] == made)
            && (forall value :: value in reg.seen ==>
                  value in after.seen && (after.seen[value] == reg.seen[value] || value in after.minted))
  {
  }

  lemma {:induction false} EnterKeeps(
    reg: Register, kind: Kind, n: nat, original: Scalar, placeholder: Scalar, rules: Rules)
    requires Sound(reg, rules) && original !in reg.seen
    requires n == Count(reg.counts, kind) + 1 && Makes(kind, n, original, placeholder, rules)
    ensures var after := Enter(reg, kind, n, original, placeholder); Sound(after, rules) && Later(reg, after)
  {
    EnterKeepsSeen(reg, kind, n, original, placeholder);
    CountedMade(reg, kind, n, original, placeholder, rules);
    EnterKeepsApart(reg, kind, n, original, placeholder, rules);
  }

  lemma {:induction false} SweptKeeps(reg: Register, kind: Kind, pieces: seq<Piece>, n: nat, rules: Rules)
    requires Sound(reg, rules) && n <= |pieces|
    ensures var after := Swept(reg, kind, pieces, n, rules).1; Sound(after, rules) && Later(reg, after)
  {
    if n > 0 {
      SweptKeeps(reg, kind, pieces, n - 1, rules);
      var before := Swept(reg, kind, pieces, n - 1, rules).1;
      if pieces[n - 1].Matched? {
        MintKeeps(before, kind, Text(pieces[n - 1].text), rules);
        LaterIsTransitive(reg, before, Mint(before, kind, Text(pieces[n - 1].text), rules).1);
      }
    }
  }

  lemma {:induction false} SweepAllKeeps(reg: Register, text: string, path: Path, n: nat, rules: Rules)
    requires Sound(reg, rules) && n <= |SWEEPS|
    ensures var after := SweepAll(reg, text, path, n, rules).1; Sound(after, rules) && Later(reg, after)
  {
    if n > 0 {
      SweepAllKeeps(reg, text, path, n - 1, rules);
      var (before, earlier) := SweepAll(reg, text, path, n - 1, rules);
      var pieces := rules.cut(SWEEPS[n - 1], before);
      if Finds(pieces) {
        var marked := earlier.(swept := earlier.swept + {path});
        SweptKeeps(marked, SWEEPS[n - 1], pieces, |pieces|, rules);
        LaterIsTransitive(reg, marked, Swept(marked, SWEEPS[n - 1], pieces, |pieces|, rules).1);
      }
    }
  }

  lemma {:induction false} WalkLeafKeeps(reg: Register, value: Scalar, path: Path, rules: Rules)
    requires Sound(reg, rules)
    ensures var after := WalkLeaf(reg, value, path, rules).1; Sound(after, rules) && Later(reg, after)
  {
    var kind := KindAt(path, rules);
    if kind.Some? {
      MintKeeps(reg, kind.value, value, rules);
    } else if value.Text? {
      SweepAllKeeps(reg, value.text, path, |SWEEPS|, rules);
    }
  }

  /** Walking any payload keeps the register sound and only ever adds to it. */
  lemma {:induction false} WalkKeeps(reg: Register, node: Node, path: Path, rules: Rules)
    requires Sound(reg, rules)
    ensures var after := Walk(reg, node, path, rules).1; Sound(after, rules) && Later(reg, after)
    decreases node
  {
    match node
    case Leaf(value) => WalkLeafKeeps(reg, value, path, rules);
    case Branch(keyed, children) => WalkChildrenKeeps(reg, keyed, children, path, rules);
  }

  lemma {:induction false} WalkChildrenKeeps(reg: Register, keyed: bool, children: Children, path: Path, rules: Rules)
    requires Sound(reg, rules)
    ensures var after := WalkChildren(reg, keyed, children, path, rules).1; Sound(after, rules) && Later(reg, after)
    decreases children
  {
    match children
    case End =>
    case Child(key, node, rest) =>
      var below := if keyed then path + [key] else path;
      var between := Walk(reg, node, below, rules).1;
      WalkKeeps(reg, node, below, rules);
      WalkChildrenKeeps(between, keyed, rest, path, rules);
      LaterIsTransitive(reg, between, WalkChildren(between, keyed, rest, path, rules).1);
  }

  // --- a trip ------------------------------------------------------------------------------

  const EMPTY := Register(map[], map[], {}, {}, {})

  /** The register after the first `n` documents of a trip. */
  function After(documents: seq<Node>, n: nat, rules: Rules): Register
    requires n <= |documents|
  {
    if n == 0 then EMPTY else Walk(After(documents, n - 1, rules), documents[n - 1], [], rules).1
  }

  lemma {:induction false} TripKeeps(documents: seq<Node>, m: nat, n: nat, rules: Rules)
    requires m <= n <= |documents|
    ensures Sound(After(documents, m, rules), rules) && Sound(After(documents, n, rules), rules)
    ensures Later(After(documents, m, rules), After(documents, n, rules))
    decreases n
  {
    if n > 0 {
      TripKeeps(documents, if m < n then m else n - 1, n - 1, rules);
      WalkKeeps(After(documents, n - 1, rules), documents[n - 1], [], rules);
      if m < n {
        LaterIsTransitive(After(documents, m, rules), After(documents, n - 1, rules), After(documents, n, rules));
      }
    }
  }

  /** Over any trip a replacement's replacement is itself; a placeholder once made is fixed for ever; and
      a value keeps its replacement exactly when it has not since been made a placeholder itself. */
  lemma {:induction false} ReplacementsSettle(documents: seq<Node>, m: nat, n: nat, value: Scalar, rules: Rules)
    requires m <= n <= |documents| && value in After(documents, m, rules).seen
    ensures var before, now := After(documents, m, rules), After(documents, n, rules);
            && value in now.seen && now.seen[value] in now.seen
            && now.seen[now.seen[value]] == now.seen[value]
            && (before.seen[value] == value ==> now.seen[value] == value)
            && (now.seen[value] == before.seen[value] <==> value !in now.minted || before.seen[value] == value)
  {
    TripKeeps(documents, m, n, rules);
  }

  /** The exception is real: a serial that already reads like the second serial's placeholder. */
  lemma {:induction false} LookalikeLosesItsReplacement(rules: Rules)
    ensures var (first, reg1) := Mint(EMPTY, Serial, Text("LOONMOBILE02"), rules);
            var (second, reg2) := Mint(reg1, Serial, Text("C02XL0ABJG5H"), rules);
            var (again, _) := Mint(reg2, Serial, Text("LOONMOBILE02"), rules);
            first == Text("LOONMOBILE01") && again == Text("LOONMOBILE02")
  {
    assert Decimal(1) == "1" && Decimal(2) == "2";
    assert Padded("1", 2) == "01" && Padded("2", 2) == "02";
    assert "LOONMOBILE" + "01" == "LOONMOBILE01" && "LOONMOBILE" + "02" == "LOONMOBILE02";
    var (first, reg1) := Mint(EMPTY, Serial, Text("LOONMOBILE02"), rules);
    assert first == Text("LOONMOBILE01");
    assert "C02XL0ABJG5H"[0] != "LOONMOBILE02"[0] == "LOONMOBILE01"[0];
    assert Text("C02XL0ABJG5H") !in reg1.seen;
    var (second, reg2) := Mint(reg1, Serial, Text("C02XL0ABJG5H"), rules);
    assert second == Text("LOONMOBILE02");
  }

  /** However far apart in a trip, and whichever rules name them, two equal values get one placeholder,
      exactly when the value has not itself been made a placeholder in between. */
  lemma {:induction false} EqualMintsAgree(
    before: Register, later: Register, one: Kind, other: Kind, value: Scalar, rules: Rules)
    requires Sound(before, rules) && Sound(later, rules) && Later(Mint(before, one, value, rules).1, later)
    requires !IsShape(one, value) && !IsShape(other, value)
    ensures var placeholder := Mint(before, one, value, rules).0;
            Mint(later, other, value, rules).0 == placeholder <==> value !in later.minted || placeholder == value
  {
    MintKeeps(before, one, value, rules);
  }

  // --- walking the output again ------------------------------------------------------------

  /** The same shape, the same keyed leaves, and the same unkeyed leaves but for text. */
  predicate SameButText(a: Node, b: Node, path: Path, rules: Rules)
    decreases a
  {
    match a
    case Leaf(value) =>
      b.Leaf? && (b.value == value || (KindAt(path, rules) == None && value.Text? && b.value.Text?))
    case Branch(keyed, children) =>
      b.Branch? && b.keyed == keyed && SameChildren(children, b.children, keyed, path, rules)
  }

  predicate SameChildren(a: Children, b: Children, keyed: bool, path: Path, rules: Rules)
    decreases a
  {
    match a
    case End => b.End?
    case Child(key, node, rest) =>
      && b.Child? && b.key == key
      && SameButText(node, b.node, if keyed then path + [key] else path, rules)
      && SameChildren(rest, b.rest, keyed, path, rules)
  }

  lemma {:induction false} WalkKeepsShape(reg: Register, node: Node, path: Path, rules: Rules, later: Register)
    requires Sound(reg, rules) && Sound(later, rules) && Later(Walk(reg, node, path, rules).1, later)
    ensures SameButText(Walk(reg, node, path, rules).0, Walk(later, Walk(reg, node, path, rules).0, path, rules).0, path, rules)
    decreases node
  {
    match node
    case Leaf(value) => LeafIsFixed(reg, value, path, rules, later);
    case Branch(keyed, children) => WalkKeepsChildren(reg, keyed, children, path, rules, later);
  }

  lemma {:induction false} LeafIsFixed(reg: Register, value: Scalar, path: Path, rules: Rules, later: Register)
    requires Sound(reg, rules) && Sound(later, rules) && Later(WalkLeaf(reg, value, path, rules).1, later)
    ensures var out := WalkLeaf(reg, value, path, rules).0;
            SameButText(Leaf(out), Leaf(WalkLeaf(later, out, path, rules).0), path, rules)
  {
    var kind := KindAt(path, rules);
    if kind.Some? {
      MintedIsFixed(reg, kind.value, value, rules, later);
    }
  }

  /** Minting what was minted changes nothing, at any later time. */
  lemma {:induction false} MintedIsFixed(reg: Register, kind: Kind, value: Scalar, rules: Rules, later: Register)
    requires Sound(reg, rules) && Sound(later, rules) && Later(Mint(reg, kind, value, rules).1, later)
    ensures var out := Mint(reg, kind, value, rules).0; Mint(later, kind, out, rules) == (out, later)
  {
    MintKeeps(reg, kind, value, rules);
    var (out, after) := Mint(reg, kind, value, rules);
    if !IsShape(kind, value) {
      assert out in after.minted;
    }
  }

  lemma {:induction false} WalkKeepsChildren(
    reg: Register, keyed: bool, children: Children, path: Path, rules: Rules, later: Register)
    requires Sound(reg, rules) && Sound(later, rules) && Later(WalkChildren(reg, keyed, children, path, rules).1, later)
    ensures var out := WalkChildren(reg, keyed, children, path, rules).0;
            SameChildren(out, WalkChildren(later, keyed, out, path, rules).0, keyed, path, rules)
    decreases children
  {
    match children
    case End =>
    case Child(key, node, rest) =>
      var below := if keyed then path + [key] else path;
      var (first, between) := Walk(reg, node, below, rules);
      var (others, after) := WalkChildren(between, keyed, rest, path, rules);
      WalkKeeps(reg, node, below, rules);
      WalkChildrenKeeps(between, keyed, rest, path, rules);
      LaterIsTransitive(between, after, later);
      WalkKeepsShape(reg, node, below, rules, later);
      WalkKeeps(later, first, below, rules);
      var then_ := Walk(later, first, below, rules).1;
      LaterIsTransitive(after, later, then_);
      WalkKeepsChildren(between, keyed, rest, path, rules, then_);
  }

  /** Walking a document's output again, at once or after any more of the trip, changes no keyed leaf
      and no shape. */
  lemma {:induction false} RewalkingChangesNothing(documents: seq<Node>, m: nat, n: nat, rules: Rules)
    requires m < n <= |documents|
    ensures var out := Walk(After(documents, m, rules), documents[m], [], rules).0;
            SameButText(out, Walk(After(documents, n, rules), out, [], rules).0, [], rules)
  {
    WalkedEarlier(documents, m, n, rules);
    WalkKeepsShape(After(documents, m, rules), documents[m], [], rules, After(documents, n, rules));
  }

  lemma {:induction false} WalkedEarlier(documents: seq<Node>, m: nat, n: nat, rules: Rules)
    requires m < n <= |documents|
    ensures Sound(After(documents, m, rules), rules) && Sound(After(documents, n, rules), rules)
    ensures Later(Walk(After(documents, m, rules), documents[m], [], rules).1, After(documents, n, rules))
  {
    var next := m + 1;
    assert After(documents, next, rules) == Walk(After(documents, m, rules), documents[m], [], rules).1;
    assert Sound(After(documents, m, rules), rules) by {
      TripKeeps(documents, m, m, rules);
    }
    TripKeeps(documents, next, n, rules);
  }

  // --- what a human has to read ------------------------------------------------------------

  /** Every text left under a path no rule names is trivial or its path is listed. */
  predicate AllHeld(node: Node, path: Path, held: set<Path>, rules: Rules)
    decreases node
  {
    match node
    case Leaf(value) => KindAt(path, rules) == None && value.Text? && !rules.isTrivial(value.text) ==> path in held
    case Branch(keyed, children) => AllChildrenHeld(children, keyed, path, held, rules)
  }

  predicate AllChildrenHeld(children: Children, keyed: bool, path: Path, held: set<Path>, rules: Rules)
    decreases children
  {
    match children
    case End => true
    case Child(key, node, rest) =>
      && AllHeld(node, if keyed then path + [key] else path, held, rules)
      && AllChildrenHeld(rest, keyed, path, held, rules)
  }

  lemma {:induction false} HeldGrows(node: Node, path: Path, held: set<Path>, more: set<Path>, rules: Rules)
    requires AllHeld(node, path, held, rules) && held <= more
    ensures AllHeld(node, path, more, rules)
    decreases node
  {
    if node.Branch? {
      HeldChildrenGrow(node.children, node.keyed, path, held, more, rules);
    }
  }

  lemma {:induction false} HeldChildrenGrow(
    children: Children, keyed: bool, path: Path, held: set<Path>, more: set<Path>, rules: Rules)
    requires AllChildrenHeld(children, keyed, path, held, rules) && held <= more
    ensures AllChildrenHeld(children, keyed, path, more, rules)
    decreases children
  {
    if children.Child? {
      HeldGrows(children.node, if keyed then path + [children.key] else path, held, more, rules);
      HeldChildrenGrow(children.rest, keyed, path, held, more, rules);
    }
  }

  /** Nothing a tenant wrote is written out unexplained: whatever text a walk leaves under a key no rule
      names, unless trivial, is on the list to read. */
  lemma {:induction false} WhatIsLeftIsHeld(reg: Register, node: Node, path: Path, rules: Rules)
    requires Sound(reg, rules)
    ensures var (out, after) := Walk(reg, node, path, rules); AllHeld(out, path, after.held, rules)
    decreases node
  {
    if node.Branch? {
      WhatIsLeftInChildrenIsHeld(reg, node.keyed, node.children, path, rules);
    }
  }

  lemma {:induction false} WhatIsLeftInChildrenIsHeld(
    reg: Register, keyed: bool, children: Children, path: Path, rules: Rules)
    requires Sound(reg, rules)
    ensures var (out, after) := WalkChildren(reg, keyed, children, path, rules);
            AllChildrenHeld(out, keyed, path, after.held, rules)
    decreases children
  {
    match children
    case End =>
    case Child(key, node, rest) =>
      var below := if keyed then path + [key] else path;
      var (first, between) := Walk(reg, node, below, rules);
      WhatIsLeftIsHeld(reg, node, below, rules);
      WalkKeeps(reg, node, below, rules);
      WalkChildrenKeeps(between, keyed, rest, path, rules);
      WhatIsLeftInChildrenIsHeld(between, keyed, rest, path, rules);
      HeldGrows(first, below, between.held, WalkChildren(between, keyed, rest, path, rules).1.held, rules);
  }
}
