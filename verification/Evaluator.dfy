/** The rule evaluator: a verdict per rule of a section's document, memoised by contract version,
    section and digest in a cache that forgets the least recently used. */
module Evaluator {
  import opened Prelude
  import opened Documents
  import opened Texts

  // --- predicates --------------------------------------------------------------------------

  datatype Predicate = Equals(operand: Value) | In(operand: Value) | VersionAtLeast(operand: Value) | Unrecognised

  datatype Rule = Rule(id: string, section: string, path: seq<string>, predicate_: Predicate)

  datatype Outcome = Met | Unmet | NotReported

  datatype Failure = UnknownSection | ListSection | UnknownOperator | NotANumber

  /** `satisfies`: yes, no, not applicable to this value, or no answer at all. */
  datatype Answer = Yes | No | Inapplicable | Raises(failure: Failure)

  const NOT_COLLECTED := Text("NOT_COLLECTED")

  /** The parts of a text between its dots. */
  function Parts(text: string): (parts: seq<string>)
    ensures parts != []
  {
    if text == [] then [[]]
    else
      var parts := Parts(text[1..]);
      if text[0] == '.' then [[]] + parts else [[text[0]] + parts[0]] + parts[1..]
  }

  /** The numbers the parts write, where `int` reads them all. */
  function NumbersOf(parts: seq<string>, python: Python): Option<seq<nat>> {
    if parts == [] then Some([])
    else
      var first, rest := python.toInt(parts[0]), NumbersOf(parts[1..], python);
      if first == None || rest == None then None else Some([first.value] + rest.value)
  }

  /** What a value is as a version: none, one by its components, or a run of digits `int` refuses. */
  datatype Reading = NoVersion | Version(components: seq<nat>) | Refused

  function Components(value: Value, python: Python): Reading {
    if !value.Text? then NoVersion
    else
      var parts := Parts(Strip(value.text, python.isSpace));
      if exists i :: 0 <= i < |parts| && !python.AllDigits(parts[i]) then NoVersion
      else if NumbersOf(parts, python) == None then Refused
      else Version(NumbersOf(parts, python).value)
  }

  /** A text is refused exactly when its parts are all digits and `int` refuses one. */
  lemma {:induction false} RefusedExactly(text: string, python: Python)
    ensures Components(Text(text), python) == Refused <==>
            var parts := Parts(Strip(text, python.isSpace));
            && (forall i :: 0 <= i < |parts| ==> python.AllDigits(parts[i]))
            && (exists i :: 0 <= i < |parts| && python.Refuses(parts[i]))
  {
    var parts := Parts(Strip(text, python.isSpace));
    NumbersExactly(parts, python);
    if i :| 0 <= i < |parts| && python.toInt(parts[i]) == None && python.AllDigits(parts[i]) {
      assert python.Refuses(parts[i]);
    }
  }

  lemma {:induction false} NumbersExactly(parts: seq<string>, python: Python)
    ensures NumbersOf(parts, python) == None <==> exists i :: 0 <= i < |parts| && python.toInt(parts[i]) == None
  {
    if parts != [] {
      NumbersExactly(parts[1..], python);
      if i :| 0 <= i < |parts[1..]| && python.toInt(parts[1..][i]) == None {
        assert python.toInt(parts[i + 1]) == None;
      }
      if i :| 0 < i < |parts| && python.toInt(parts[i]) == None {
        assert python.toInt(parts[1..][i - 1]) == None;
      }
    }
  }

  /** A text is a version exactly when its parts are all digits and `int` reads each; those numbers are its
      components. */
  lemma {:induction false} VersionExactly(text: string, python: Python, components: seq<nat>)
    ensures Components(Text(text), python) == Version(components) <==>
            var parts := Parts(Strip(text, python.isSpace));
            && |components| == |parts|
            && forall i :: 0 <= i < |parts| ==> python.AllDigits(parts[i]) && python.toInt(parts[i]) == Some(components[i])
  {
    NumbersRead(Parts(Strip(text, python.isSpace)), python, components);
  }

  lemma {:induction false} NumbersRead(parts: seq<string>, python: Python, components: seq<nat>)
    ensures NumbersOf(parts, python) == Some(components) <==>
            |components| == |parts| && forall i :: 0 <= i < |parts| ==> python.toInt(parts[i]) == Some(components[i])
  {
    if parts != [] && components != [] {
      var rest, others := parts[1..], components[1..];
      NumbersRead(rest, python, others);
      assert parts == [parts[0]] + rest && components == [components[0]] + others;
      assert (forall i :: 0 <= i < |parts| && i < |components| ==> python.toInt(parts[i]) == Some(components[i]))
        <==> python.toInt(parts[0]) == Some(components[0])
             && forall i :: 0 <= i < |rest| && i < |others| ==> python.toInt(rest[i]) == Some(others[i]);
    }
  }

  /** Tuples compared component by component, a prefix below what it begins. */
  predicate AtLeast(left: seq<nat>, right: seq<nat>) {
    right == [] || (left != [] && (left[0] > right[0] || (left[0] == right[0] && AtLeast(left[1..], right[1..]))))
  }

  function Compared(value: Value, floor: Value, python: Python): Answer {
    var left, right := Components(value, python), Components(floor, python);
    if left.Refused? || right.Refused? then Raises(NotANumber)
    else if left.NoVersion? || right.NoVersion? then Inapplicable
    else if AtLeast(left.components, right.components) then Yes else No
  }

  function Satisfies(predicate_: Predicate, value: Value, python: Python): Answer {
    match predicate_
    case Equals(operand) => if value == operand then Yes else No
    case In(operand) => if value in (if operand.List? then operand.items else [operand]) then Yes else No
    case VersionAtLeast(operand) => Compared(value, operand, python)
    case Unrecognised => Raises(UnknownOperator)
  }

  lemma {:induction false} AtLeastIsTotalOrder(a: seq<nat>, b: seq<nat>, c: seq<nat>)
    ensures AtLeast(a, b) || AtLeast(b, a)
    ensures AtLeast(a, b) && AtLeast(b, a) ==> a == b
    ensures AtLeast(a, b) && AtLeast(b, c) ==> AtLeast(a, c)
  {
    if a != [] && b != [] && a[0] == b[0] {
      AtLeastIsTotalOrder(a[1..], b[1..], if c == [] then c else c[1..]);
      assert a == [a[0]] + a[1..] && b == [b[0]] + b[1..];
    }
  }

  /** Versions form one scale: of two that can be read each is at or above the other or below it, and a
      version at or above one floor is at or above every floor that one is. An unreadable one is on
      neither side, and a run of digits `int` refuses raises wherever it stands. */
  lemma {:induction false} VersionsAreOneScale(a: Value, b: Value, c: Value, python: Python)
    ensures Compared(a, b, python).Raises? <==> Components(a, python).Refused? || Components(b, python).Refused?
    ensures Compared(a, b, python) == Inapplicable <==>
              && !Components(a, python).Refused? && !Components(b, python).Refused?
              && (Components(a, python).NoVersion? || Components(b, python).NoVersion?)
    ensures Compared(a, b, python) == No ==> Compared(b, a, python) == Yes
    ensures Compared(a, b, python) == Yes && Compared(b, a, python) == Yes ==> Components(a, python) == Components(b, python)
    ensures Compared(a, b, python) == Yes && Compared(b, c, python) == Yes ==> Compared(a, c, python) == Yes
  {
    var x, y, z := Components(a, python), Components(b, python), Components(c, python);
    if x.Version? && y.Version? {
      AtLeastIsTotalOrder(x.components, y.components, if z.Version? then z.components else []);
    }
  }

  // --- one verdict -------------------------------------------------------------------------

  /** The value at a path, or nothing where a step is missing. */
  function Read(node: Value, path: seq<string>): Option<Value>
    decreases |path|
  {
    if path == [] then Some(node)
    else if !node.Object? || path[0] !in node.fields then None
    else Read(node.fields[path[0]], path[1..])
  }

  /** Does the contract hash this path as a field? */
  predicate HashedLeaf(allow: Mapping, path: seq<string>) {
    var leaf := Read(Object(allow), path);
    leaf.Some? && !leaf.value.Object?
  }

  datatype Result<T> = Ok(value: T) | Error(error: Failure)

  function Verdict(allow: Mapping, rule: Rule, document: Mapping, python: Python): Result<Outcome> {
    var value := Read(Object(document), rule.path);
    if !HashedLeaf(allow, rule.path) || value == None || value.value == NOT_COLLECTED then Ok(NotReported)
    else
      match Satisfies(rule.predicate_, value.value, python)
      case Yes => Ok(Met)
      case No => Ok(Unmet)
      case Inapplicable => Ok(NotReported)
      case Raises(failure) => Error(failure)
  }

  /** One version below another: lower at the first component they differ in, or begun by it. */
  ghost predicate IsBelow(version: seq<nat>, floor: seq<nat>) {
    exists k :: 0 <= k <= |version| && k < |floor| && FirstLower(version, floor, k)
  }

  predicate FirstLower(version: seq<nat>, floor: seq<nat>, k: nat)
    requires k <= |version| && k < |floor|
  {
    version[..k] == floor[..k] && (k == |version| || version[k] < floor[k])
  }

  lemma {:induction false} NotAtLeastIsBelow(version: seq<nat>, floor: seq<nat>)
    ensures IsBelow(version, floor) <==> !AtLeast(version, floor)
  {
    if version != [] && floor != [] && version[0] == floor[0] {
      NotAtLeastIsBelow(version[1..], floor[1..]);
      if IsBelow(version[1..], floor[1..]) {
        var k: nat :| k <= |version[1..]| && k < |floor[1..]| && FirstLower(version[1..], floor[1..], k);
        assert version[..k + 1] == [version[0]] + version[1..][..k] && floor[..k + 1] == [floor[0]] + floor[1..][..k];
        assert FirstLower(version, floor, k + 1);
      }
      if IsBelow(version, floor) {
        var k: nat :| k <= |version| && k < |floor| && FirstLower(version, floor, k);
        assert version[1..k] == version[..k][1..] && floor[1..k] == floor[..k][1..];
        assert version[1..][..k - 1] == version[1..k] && floor[1..][..k - 1] == floor[1..k];
        assert FirstLower(version[1..], floor[1..], k - 1);
      }
    } else if floor != [] && (version == [] || version[0] < floor[0]) {
      assert FirstLower(version, floor, 0);
    } else if version != [] && floor != [] {
      forall k | 0 < k <= |version| && k < |floor|
        ensures version[..k] != floor[..k]
      {
        assert version[..k][0] != floor[..k][0];
      }
    }
  }

  /** What a value must be for a rule to hold against a Mac. */
  ghost predicate Contradicts(value: Value, predicate_: Predicate, python: Python) {
    match predicate_
    case Equals(operand) => value != operand
    case In(operand) => if operand.List? then value !in operand.items else value != operand
    case VersionAtLeast(operand) =>
      && Components(value, python).Version? && Components(operand, python).Version?
      && IsBelow(Components(value, python).components, Components(operand, python).components)
    case Unrecognised => false
  }

  /** What a value must be for a rule to hold of a Mac. */
  ghost predicate Agrees(value: Value, predicate_: Predicate, python: Python) {
    match predicate_
    case Equals(operand) => value == operand
    case In(operand) => if operand.List? then value in operand.items else value == operand
    case VersionAtLeast(operand) =>
      && Components(value, python).Version? && Components(operand, python).Version?
      && !IsBelow(Components(value, python).components, Components(operand, python).components)
    case Unrecognised => false
  }

  /** The contract hashes the rule's field, and the document holds it, collected. */
  predicate Collected(allow: Mapping, rule: Rule, document: Mapping) {
    && HashedLeaf(allow, rule.path)
    && Read(Object(document), rule.path).Some?
    && Read(Object(document), rule.path) != Some(NOT_COLLECTED)
  }

  ghost predicate Witnesses(allow: Mapping, rule: Rule, document: Mapping, python: Python) {
    Collected(allow, rule, document) && Contradicts(Read(Object(document), rule.path).value, rule.predicate_, python)
  }

  ghost predicate Supports(allow: Mapping, rule: Rule, document: Mapping, python: Python) {
    Collected(allow, rule, document) && Agrees(Read(Object(document), rule.path).value, rule.predicate_, python)
  }

  /** An operator the catalogue does not know, or digits in a version that `int` refuses. */
  predicate Defeats(value: Value, predicate_: Predicate, python: Python) {
    || predicate_.Unrecognised?
    || (predicate_.VersionAtLeast?
        && (Components(value, python).Refused? || Components(predicate_.operand, python).Refused?))
  }

  predicate Stops(allow: Mapping, rule: Rule, document: Mapping, python: Python) {
    Collected(allow, rule, document) && Defeats(Read(Object(document), rule.path).value, rule.predicate_, python)
  }

  /** One rule: unmet exactly where its field contradicts it, met exactly where its field agrees with it,
      and no verdict exactly where its predicate cannot be asked. */
  lemma {:induction false} VerdictIsWitnessed(allow: Mapping, rule: Rule, document: Mapping, python: Python)
    ensures Verdict(allow, rule, document, python) == Ok(Unmet) <==> Witnesses(allow, rule, document, python)
    ensures Verdict(allow, rule, document, python) == Ok(Met) <==> Supports(allow, rule, document, python)
    ensures Verdict(allow, rule, document, python).Error? <==> Stops(allow, rule, document, python)
  {
    if Collected(allow, rule, document) && rule.predicate_.VersionAtLeast? {
      var version := Components(Read(Object(document), rule.path).value, python);
      var floor := Components(rule.predicate_.operand, python);
      if version.Version? && floor.Version? {
        NotAtLeastIsBelow(version.components, floor.components);
      }
    }
  }

  /** Raising a version floor turns no unmet rule met: whatever is below one floor is below every floor
      at or above it. */
  lemma {:induction false} RaisingTheFloorKeepsUnmet(
    allow: Mapping, rule: Rule, document: Mapping, floor: Value, higher: Value, python: Python)
    requires rule.predicate_ == VersionAtLeast(floor) && Compared(higher, floor, python) == Yes
    requires Verdict(allow, rule, document, python) == Ok(Unmet)
    ensures Verdict(allow, rule.(predicate_ := VersionAtLeast(higher)), document, python) == Ok(Unmet)
  {
    var value := Read(Object(document), rule.path).value;
    VersionsAreOneScale(value, higher, floor, python);
  }

  type Verdicts = map<string, Outcome>

  /** The verdicts of the first `n` rules that read the section. */
  function VerdictsOf(
    rules: seq<Rule>, section: string, allow: Mapping, current: bool, document: Mapping, n: nat, python: Python): Result<Verdicts>
    requires n <= |rules|
  {
    if n == 0 then Ok(map[])
    else
      var earlier := VerdictsOf(rules, section, allow, current, document, n - 1, python);
      var rule := rules[n - 1];
      if earlier.Error? || rule.section != section then earlier
      else
        var one := if current then Verdict(allow, rule, document, python) else Ok(NotReported);
        if one.Error? then Error(one.error) else Ok(earlier.value[rule.id := one.value])
  }

  predicate Reads(rules: seq<Rule>, section: string, n: nat, id: string)
    requires n <= |rules|
  {
    exists i :: 0 <= i < n && rules[i].section == section && rules[i].id == id
  }

  /** Every rule that reads the section has a verdict and no other does; under another contract version
      each is not reported. */
  lemma {:induction false} VerdictsCoverTheRules(
    rules: seq<Rule>, section: string, allow: Mapping, current: bool, document: Mapping, n: nat, python: Python)
    requires n <= |rules|
    ensures var verdicts := VerdictsOf(rules, section, allow, current, document, n, python);
            && (verdicts.Ok? ==> forall id :: id in verdicts.value <==> Reads(rules, section, n, id))
            && (!current ==> verdicts.Ok? && forall id :: id in verdicts.value ==> verdicts.value[id] == NotReported)
  {
    if n > 0 {
      VerdictsCoverTheRules(rules, section, allow, current, document, n - 1, python);
      forall id
        ensures Reads(rules, section, n, id)
           <==> Reads(rules, section, n - 1, id) || (rules[n - 1].section == section && rules[n - 1].id == id)
      {
      }
    }
  }

  // --- the cache ---------------------------------------------------------------------------

  const CACHE_LIMIT := 4096

  datatype Spec = Spec(name: string, isList: bool, fields: Option<Mapping>)

  /** What a process holds besides the cache: the contract's sections, its version, the catalogue, and what
      Python makes of a text. */
  datatype Setting = Setting(
    sections: map<string, Spec>, contractVersion: string, rules: seq<Rule>, python: Python)

  datatype Key = Key(version: string, section: string, digest: string)
  datatype Slot = Slot(key: Key, verdicts: Verdicts)

  function Refusal(setting: Setting, section: string): Option<Failure> {
    if section !in setting.sections then Some(UnknownSection)
    else if setting.sections[section].isList then Some(ListSection)
    else None
  }

  /** The answer with no cache at all. */
  function Fresh(setting: Setting, key: Key, body: Option<Mapping>): Result<Verdicts> {
    var refusal := Refusal(setting, key.section);
    if refusal.Some? then Error(refusal.value)
    else
      VerdictsOf(setting.rules, setting.sections[key.section].name, AllowOf(setting, key.section),
                 key.version == setting.contractVersion, DocumentOf(body), |setting.rules|, setting.python)
  }

  /** The document and the allow-list a call reads. */
  function AllowOf(setting: Setting, section: string): Mapping
    requires section in setting.sections
  {
    var spec := setting.sections[section];
    if spec.fields.Some? then spec.fields.value else map[]
  }

  function DocumentOf(body: Option<Mapping>): Mapping {
    if body.Some? then body.value else map[]
  }

  /** The last of the first `n` rules that reads the section under this id: the one whose verdict a
      dictionary keeps. */
  predicate IsLast(rules: seq<Rule>, section: string, n: nat, id: string, i: nat)
    requires n <= |rules|
  {
    && i < n && rules[i].section == section && rules[i].id == id
    && forall j :: i < j < n && rules[j].section == section ==> rules[j].id != id
  }

  ghost predicate LastIsWitnessed(
    rules: seq<Rule>, section: string, allow: Mapping, document: Mapping, n: nat, id: string, python: Python)
    requires n <= |rules|
  {
    exists i: nat :: IsLast(rules, section, n, id, i) && Witnesses(allow, rules[i], document, python)
  }

  ghost predicate LastSupports(
    rules: seq<Rule>, section: string, allow: Mapping, document: Mapping, n: nat, id: string, python: Python)
    requires n <= |rules|
  {
    exists i: nat :: IsLast(rules, section, n, id, i) && Supports(allow, rules[i], document, python)
  }

  lemma {:induction false} LastOneMore(
    rules: seq<Rule>, section: string, allow: Mapping, document: Mapping, n: nat, id: string, python: Python)
    requires 0 < n <= |rules|
    ensures LastIsWitnessed(rules, section, allow, document, n, id, python) <==>
              if rules[n - 1].section == section && rules[n - 1].id == id then Witnesses(allow, rules[n - 1], document, python)
              else LastIsWitnessed(rules, section, allow, document, n - 1, id, python)
    ensures LastSupports(rules, section, allow, document, n, id, python) <==>
              if rules[n - 1].section == section && rules[n - 1].id == id then Supports(allow, rules[n - 1], document, python)
              else LastSupports(rules, section, allow, document, n - 1, id, python)
  {
    if rules[n - 1].section == section && rules[n - 1].id == id {
      assert IsLast(rules, section, n, id, n - 1);
    } else {
      forall i: nat
        ensures IsLast(rules, section, n, id, i) <==> IsLast(rules, section, n - 1, id, i)
      {
      }
    }
  }

  /** Some of the first `n` rules of the section gets as far as a predicate that cannot be asked. */
  predicate SomeStops(
    rules: seq<Rule>, section: string, allow: Mapping, document: Mapping, n: nat, python: Python)
    requires n <= |rules|
  {
    exists i :: 0 <= i < n && StopsAt(rules, section, allow, document, i, python)
  }

  predicate StopsAt(rules: seq<Rule>, section: string, allow: Mapping, document: Mapping, i: nat, python: Python)
    requires i < |rules|
  {
    rules[i].section == section && Stops(allow, rules[i], document, python)
  }

  lemma {:induction false} StopsOneMore(
    rules: seq<Rule>, section: string, allow: Mapping, document: Mapping, n: nat, python: Python)
    requires 0 < n <= |rules|
    ensures SomeStops(rules, section, allow, document, n, python)
            <==> SomeStops(rules, section, allow, document, n - 1, python)
                 || StopsAt(rules, section, allow, document, n - 1, python)
  {
  }

  lemma {:induction false} UnmetOfRules(
    rules: seq<Rule>, section: string, allow: Mapping, document: Mapping, n: nat, id: string, python: Python)
    requires n <= |rules|
    ensures var verdicts := VerdictsOf(rules, section, allow, true, document, n, python);
            && (verdicts.Error? <==> SomeStops(rules, section, allow, document, n, python))
            && (verdicts.Ok? ==>
                  && (id in verdicts.value && verdicts.value[id] == Unmet
                      <==> LastIsWitnessed(rules, section, allow, document, n, id, python))
                  && (id in verdicts.value && verdicts.value[id] == Met
                      <==> LastSupports(rules, section, allow, document, n, id, python)))
  {
    if n > 0 {
      UnmetOfRules(rules, section, allow, document, n - 1, id, python);
      VerdictIsWitnessed(allow, rules[n - 1], document, python);
      LastOneMore(rules, section, allow, document, n, id, python);
      StopsOneMore(rules, section, allow, document, n, python);
    }
  }

  /** A finding is never made up and never lost: a call answers that a rule is unmet exactly when the
      version is the contract's and the last rule of that id to read the section has a field the
      contract hashes, that the document holds, that was collected, and that contradicts its operand.
      It fails exactly when a rule that got that far has an operator it does not know, or a version on
      either side whose digits `int` refuses. */
  lemma {:induction false} UnmetIsWitnessed(setting: Setting, key: Key, body: Option<Mapping>, id: string)
    requires Refusal(setting, key.section) == None
    ensures var (answer, name) := (Fresh(setting, key, body), setting.sections[key.section].name);
            var (allow, document) := (AllowOf(setting, key.section), DocumentOf(body));
            && (answer.Error? <==>
                  && key.version == setting.contractVersion
                  && SomeStops(setting.rules, name, allow, document, |setting.rules|, setting.python))
            && (answer.Ok? ==>
                  (id in answer.value && answer.value[id] == Unmet
                   <==> key.version == setting.contractVersion
                        && LastIsWitnessed(setting.rules, name, allow, document, |setting.rules|, id, setting.python)))
  {
    var name, allow := setting.sections[key.section].name, AllowOf(setting, key.section);
    var document, python := DocumentOf(body), setting.python;
    if key.version == setting.contractVersion {
      UnmetOfRules(setting.rules, name, allow, document, |setting.rules|, id, python);
    } else {
      VerdictsCoverTheRules(setting.rules, name, allow, false, document, |setting.rules|, python);
    }
  }

  /** Nor is a pass: a call answers that a rule is met exactly when the version is the contract's and that
      last rule's field is hashed, held and collected, and agrees with its operand. Every other rule of the
      section that is not unmet is not reported. */
  lemma {:induction false} MetIsWitnessed(setting: Setting, key: Key, body: Option<Mapping>, id: string)
    requires Refusal(setting, key.section) == None && Fresh(setting, key, body).Ok?
    ensures var (answer, name) := (Fresh(setting, key, body).value, setting.sections[key.section].name);
            var (allow, document) := (AllowOf(setting, key.section), DocumentOf(body));
            var current := key.version == setting.contractVersion;
            && (id in answer && answer[id] == Met
                <==> current && LastSupports(setting.rules, name, allow, document, |setting.rules|, id, setting.python))
            && (id in answer && answer[id] == NotReported
                <==> && Reads(setting.rules, name, |setting.rules|, id)
                     && !(current && LastSupports(setting.rules, name, allow, document, |setting.rules|, id, setting.python))
                     && !(current && LastIsWitnessed(setting.rules, name, allow, document, |setting.rules|, id, setting.python)))
  {
    var name, allow := setting.sections[key.section].name, AllowOf(setting, key.section);
    var document, python := DocumentOf(body), setting.python;
    var current := key.version == setting.contractVersion;
    VerdictsCoverTheRules(setting.rules, name, allow, current, document, |setting.rules|, python);
    if current {
      UnmetOfRules(setting.rules, name, allow, document, |setting.rules|, id, python);
    }
  }

  // --- what the pieces read ------------------------------------------------------------------

  /** A path is walked from one value to another, mapping by mapping. */
  predicate IsWalk(nodes: seq<Value>, path: seq<string>) {
    && |nodes| == |path| + 1
    && forall i :: 0 <= i < |path| ==>
         nodes[i].Object? && path[i] in nodes[i].fields && nodes[i].fields[path[i]] == nodes[i + 1]
  }

  ghost predicate LeadsTo(node: Value, path: seq<string>, value: Value) {
    exists nodes :: IsWalk(nodes, path) && nodes[0] == node && nodes[|path|] == value
  }

  lemma {:induction false} ReadWalks(node: Value, path: seq<string>, value: Value)
    requires Read(node, path) == Some(value)
    ensures LeadsTo(node, path, value)
    decreases |path|
  {
    if path == [] {
      assert IsWalk([node], path);
    } else {
      var next := node.fields[path[0]];
      ReadWalks(next, path[1..], value);
      var rest :| IsWalk(rest, path[1..]) && rest[0] == next && rest[|path[1..]|] == value;
      assert IsWalk([node] + rest, path);
    }
  }

  lemma {:induction false} WalkReads(nodes: seq<Value>, path: seq<string>)
    requires IsWalk(nodes, path)
    ensures Read(nodes[0], path) == Some(nodes[|path|])
    decreases |path|
  {
    if path != [] {
      assert IsWalk(nodes[1..], path[1..]);
      WalkReads(nodes[1..], path[1..]);
    }
  }

  /** A rule's field is collected, with this value, exactly where its path leads to something the contract
      lists that is no mapping, and in the document to this value, which is not the mark of a field that was
      not collected. */
  lemma {:induction false} CollectedExactly(allow: Mapping, rule: Rule, document: Mapping, value: Value)
    ensures Collected(allow, rule, document) && Read(Object(document), rule.path).value == value
       <==> && (exists leaf :: LeadsTo(Object(allow), rule.path, leaf) && !leaf.Object?)
            && LeadsTo(Object(document), rule.path, value) && value != Text("NOT_COLLECTED")
  {
    forall node, found ensures Read(node, rule.path) == Some(found) <==> LeadsTo(node, rule.path, found) {
      ReadExactly(node, rule.path, found);
    }
    if HashedLeaf(allow, rule.path) {
      assert LeadsTo(Object(allow), rule.path, Read(Object(allow), rule.path).value);
    }
  }

  lemma {:induction false} ReadExactly(node: Value, path: seq<string>, value: Value)
    ensures Read(node, path) == Some(value) <==> LeadsTo(node, path, value)
  {
    if Read(node, path) == Some(value) {
      ReadWalks(node, path, value);
    }
    if LeadsTo(node, path, value) {
      var nodes :| IsWalk(nodes, path) && nodes[0] == node && nodes[|path|] == value;
      WalkReads(nodes, path);
    }
  }

  function Joined(parts: seq<string>): string
    requires parts != []
  {
    if |parts| == 1 then parts[0] else parts[0] + "." + Joined(parts[1..])
  }

  /** Splitting at the dots: joined again the parts are the text, and no part holds a dot. */
  lemma {:induction false} PartsSplit(text: string)
    ensures Joined(Parts(text)) == text
    ensures forall i :: 0 <= i < |Parts(text)| ==> '.' !in Parts(text)[i]
  {
    if text != [] {
      var rest, parts := Parts(text[1..]), Parts(text);
      PartsSplit(text[1..]);
      if text[0] == '.' {
        assert parts[1..] == rest;
      } else if |rest| > 1 {
        assert parts[1..] == rest[1..];
      }
    }
  }

  function SlotAt(cache: seq<Slot>, key: Key, n: nat): nat
    requires n <= |cache|
  {
    FirstWith(cache, (slot: Slot) => slot.key, key, n)
  }

  /** The newest `CACHE_LIMIT` of an ordered dictionary. */
  function Newest<T>(items: seq<T>): seq<T> {
    if |items| <= CACHE_LIMIT then items else items[|items| - CACHE_LIMIT..]
  }

  /** `move_to_end`. */
  function Moved(cache: seq<Slot>, at: nat): seq<Slot>
    requires at < |cache|
  {
    cache[..at] + cache[at + 1..] + [cache[at]]
  }

  /** One call: the answer, and the cache it leaves. */
  function Evaluated(
    setting: Setting, cache: seq<Slot>, key: Key, body: Option<Mapping>): (Result<Verdicts>, seq<Slot>) {
    var refusal := Refusal(setting, key.section);
    var at := SlotAt(cache, key, |cache|);
    if refusal.Some? then (Error(refusal.value), cache)
    else if at < |cache| then (Ok(cache[at].verdicts), Moved(cache, at))
    else
      var answer := Fresh(setting, key, body);
      if answer.Error? then (answer, cache) else (answer, Newest(cache + [Slot(key, answer.value)]))
  }

  lemma {:induction false} VerdictsFailAtRules(
    rules: seq<Rule>, section: string, allow: Mapping, current: bool, document: Mapping, n: nat, python: Python)
    requires n <= |rules|
    ensures var verdicts := VerdictsOf(rules, section, allow, current, document, n, python);
            verdicts.Error? ==> verdicts.error in {UnknownOperator, NotANumber}
  {
    if n > 0 {
      VerdictsFailAtRules(rules, section, allow, current, document, n - 1, python);
    }
  }

  /** A section the contract does not know, and one that is a list, are refused as what they are, whatever
      the cache holds, and leave it alone; no other call is refused so. */
  lemma {:induction false} RefusalsExactly(setting: Setting, cache: seq<Slot>, key: Key, body: Option<Mapping>)
    ensures var (answer, after) := Evaluated(setting, cache, key, body);
            && (answer == Error(UnknownSection) <==> key.section !in setting.sections)
            && (answer == Error(ListSection) <==> key.section in setting.sections && setting.sections[key.section].isList)
            && (answer.Error? ==> after == cache)
  {
    if Refusal(setting, key.section) == None {
      VerdictsFailAtRules(
        setting.rules, setting.sections[key.section].name, AllowOf(setting, key.section),
        key.version == setting.contractVersion, DocumentOf(body), |setting.rules|, setting.python);
    }
  }

  class Memo {
    const setting: Setting
    var cache: seq<Slot>

    constructor (setting: Setting)
      ensures this.setting == setting && cache == []
    {
      this.setting := setting;
      cache := [];
    }

    method Evaluate(version: string, section: string, digest: string, body: Option<Mapping>) returns (answer: Result<Verdicts>)
      modifies this
      ensures (answer, cache) == Evaluated(setting, old(cache), Key(version, section, digest), body)
    {
      var refusal := Refusal(setting, section);
      if refusal.Some? {
        return Error(refusal.value);
      }
      var key := Key(version, section, digest);
      var at := SlotAt(cache, key, |cache|);
      if at == |cache| {
        answer := Fresh(setting, key, body);
        if answer.Error? {
          return;
        }
        cache := cache + [Slot(key, answer.value)];
        ghost var grown := cache;
        while |cache| > CACHE_LIMIT
          invariant Newest(cache) == Newest(grown)
        {
          assert Newest(cache[1..]) == Newest(cache);
          cache := cache[1..];
        }
      } else {
        answer := Ok(cache[at].verdicts);
        cache := cache[..at] + cache[at + 1..] + [cache[at]];
      }
    }

    method ClearCache()
      modifies this
      ensures cache == []
    {
      cache := [];
    }
  }

  // --- over a trace ------------------------------------------------------------------------

  datatype Call = Evaluate(key: Key, body: Option<Mapping>) | Clear

  function CacheAfter(setting: Setting, calls: seq<Call>, n: nat): seq<Slot>
    requires n <= |calls|
  {
    if n == 0 || calls[n - 1].Clear? then []
    else Evaluated(setting, CacheAfter(setting, calls, n - 1), calls[n - 1].key, calls[n - 1].body).1
  }

  /** What the `n`-th call answers. */
  function AnswerTo(setting: Setting, calls: seq<Call>, n: nat): Result<Verdicts>
    requires n < |calls| && calls[n].Evaluate?
  {
    Evaluated(setting, CacheAfter(setting, calls, n), calls[n].key, calls[n].body).0
  }

  /** A digest names one document: calls with one key hand over one body. */
  ghost predicate BodiesAgree(calls: seq<Call>) {
    forall i, j :: 0 <= i < j < |calls| && calls[i].Evaluate? && calls[j].Evaluate? && calls[i].key == calls[j].key ==>
      calls[i].body == calls[j].body
  }

  /** Every slot is what a call so far would have been answered without a cache. */
  predicate Backed(setting: Setting, calls: seq<Call>, n: nat, slot: Slot)
    requires n <= |calls|
  {
    exists i :: 0 <= i < n && calls[i].Evaluate? && calls[i].key == slot.key
             && Fresh(setting, slot.key, calls[i].body) == Ok(slot.verdicts)
  }

  lemma {:induction false} SlotsAreBacked(setting: Setting, calls: seq<Call>, n: nat, j: nat)
    requires n <= |calls| && j < |CacheAfter(setting, calls, n)|
    ensures Backed(setting, calls, n, CacheAfter(setting, calls, n)[j])
  {
    var before, slot := CacheAfter(setting, calls, n - 1), CacheAfter(setting, calls, n)[j];
    if slot in before {
      var i :| 0 <= i < |before| && before[i] == slot;
      SlotsAreBacked(setting, calls, n - 1, i);
    }
  }

  /** The cache cannot be seen: over any trace of evaluations and clears in which a key names one
      document, every call answers what it would with no cache. */
  lemma {:induction false} CacheIsTransparent(setting: Setting, calls: seq<Call>, n: nat)
    requires n < |calls| && calls[n].Evaluate? && BodiesAgree(calls)
    ensures AnswerTo(setting, calls, n) == Fresh(setting, calls[n].key, calls[n].body)
  {
    var cache, key := CacheAfter(setting, calls, n), calls[n].key;
    var at := SlotAt(cache, key, |cache|);
    if Refusal(setting, key.section) == None && at < |cache| {
      SlotsAreBacked(setting, calls, n, at);
      var i :| 0 <= i < n && calls[i].Evaluate? && calls[i].key == key
               && Fresh(setting, key, calls[i].body) == Ok(cache[at].verdicts);
      assert calls[i].body == calls[n].body;
    }
  }
}
