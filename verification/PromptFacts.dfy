/** What an interpretation guarantees: the rules are a projection, nothing leaves the vocabulary, and
    nothing the model asked for is lost without a repair that says so. */
module PromptFacts {
  import opened Prelude
  import opened Sanitise
  import opened Serials
  import opened Texts
  import opened Prompt

  // --- the six rules are a projection ------------------------------------------------------

  /** The serial that rule 4 would fill in is one that rule 3 would keep. */
  predicate SerialIsKept(question: string, lex: Lexicon) {
    var serial := OneSerial(question, lex.isWord);
    serial.Some? ==> !IsInvented(serial.value, question, lex)
  }

  /** It is, in a question in normalisation form C. */
  lemma {:induction false} ComposedSerialIsKept(question: string, lex: Lexicon)
    requires lex.Valid() && lex.tables.IsComposed(question)
    ensures SerialIsKept(question, lex)
  {
    if OneSerial(question, lex.isWord).Some? {
      var serial := OneSerial(question, lex.isWord).value;
      SerialsStand(question, lex.isWord, 0);
      var before, after :| Stands(before, serial, after, question, lex.isWord);
      assert lex.NormalisesApart(before, serial, after);
      CompactOccurs(before, serial, after, lex.normal, lex.isAlnum);
    }
  }

  /** No rule but the third could drop it. */
  lemma {:induction false} FilledSerialStays(question: string, lex: Lexicon)
    requires lex.Valid() && OneSerial(question, lex.isWord).Some?
    ensures var serial := OneSerial(question, lex.isWord).value;
            Serialish(serial) && (forall name :: !Repeats(serial, name, lex))
  {
    SerialsStand(question, lex.isWord, 0);
  }

  /** After the first four rules none of the four has anything left to do. */
  lemma {:induction false} SearchSettles(a: Answer, question: string, vocabulary: Vocabulary, lex: Lexicon)
    requires lex.Valid() && SerialIsKept(question, lex)
    ensures var s := FillSerial(DropInvented(DropRepeat(DropKind(a, vocabulary, lex), lex), question, lex), question, lex);
            && s.filters.artifact == DropKind(a, vocabulary, lex).filters.artifact
            && (Filled(s.filters.q) ==> !IsInvented(s.filters.q.value, question, lex))
            && (Filled(s.filters.q) && Filled(s.filters.artifact) ==>
                  !Repeats(s.filters.q.value, s.filters.artifact.value, lex))
            && (s.filters.q == None ==> OneSerial(question, lex.isWord) == None)
            && s.note == a.note && s.filters.section == a.filters.section && s.filters.change == a.filters.change
  {
    if OneSerial(question, lex.isWord).Some? {
      FilledSerialStays(question, lex);
    }
  }

  /** Run again on its own result with the same question, the guard changes no filter and no note and
      adds no repair. */
  predicate Settles(question: string, a: Answer, sinceSet: bool, vocabulary: Vocabulary, lex: Lexicon) {
    var once := Guarded(question, a, sinceSet, vocabulary, lex);
    Guarded(question, once, sinceSet, vocabulary, lex) == once
  }

  lemma {:induction false} GuardSettles(
    question: string, a: Answer, sinceSet: bool, vocabulary: Vocabulary, lex: Lexicon)
    requires lex.Valid() && SerialIsKept(question, lex)
    ensures Settles(question, a, sinceSet, vocabulary, lex)
  {
    var once := Guarded(question, a, sinceSet, vocabulary, lex);
    SearchSettles(a, question, vocabulary, lex);
    assert DropKind(once, vocabulary, lex) == once;
    assert DropRepeat(once, lex) == once;
    assert DropInvented(once, question, lex) == once;
    assert FillSerial(once, question, lex) == once;
    assert DropNote(once, question, sinceSet, lex) == once;
    assert DropChange(once, vocabulary) == once;
  }

  /** A serial that rule 3 takes for invented is dropped and filled in at every run, with two repairs. */
  lemma {:induction false} InventedSerialRepeats(
    question: string, sinceSet: bool, vocabulary: Vocabulary, lex: Lexicon)
    requires lex.Valid() && !SerialIsKept(question, lex)
    ensures !Settles(question, NOTHING, sinceSet, vocabulary, lex)
  {
    FilledSerialStays(question, lex);
    var once := Guarded(question, NOTHING, sinceSet, vocabulary, lex);
    assert once.filters.q == OneSerial(question, lex.isWord) && once.filters.artifact == None && once.note == None;
    var dropped := DropInvented(once, question, lex);
    assert |dropped.repairs| == |once.repairs| + 1;
    assert |FillSerial(dropped, question, lex).repairs| == |once.repairs| + 2;
  }

  /** The guard is a projection, whatever the answer, exactly for the questions whose one serial rule 3
      keeps. A question in normalisation form C, as a sanitised one is, is among them. */
  lemma {:induction false} GuardIsProjection(question: string, sinceSet: bool, vocabulary: Vocabulary, lex: Lexicon)
    requires lex.Valid()
    ensures (forall a :: Settles(question, a, sinceSet, vocabulary, lex)) <==> SerialIsKept(question, lex)
    ensures lex.tables.IsComposed(question) ==> SerialIsKept(question, lex)
  {
    if lex.tables.IsComposed(question) {
      ComposedSerialIsKept(question, lex);
    }
    if SerialIsKept(question, lex) {
      forall a ensures Settles(question, a, sinceSet, vocabulary, lex) {
        GuardSettles(question, a, sinceSet, vocabulary, lex);
      }
    } else {
      InventedSerialRepeats(question, sinceSet, vocabulary, lex);
    }
  }

  /** The combining acute ends the word before it, and NFKC joins it to the letter. */
  ghost predicate MarkJoins(lex: Lexicon) {
    && !lex.isWord('\U{301}')
    && lex.normal("KY4QVD7A") == "ky4qvd7a" && lex.normal("KY4QVD7A\U{301}") == "ky4qvd7\U{e1}"
    && (forall c :: c in "ky4qvd7a\U{e1}" ==> lex.isAlnum(c))
  }

  /** A serial whose last letter takes an accent typed as a second character: rule 4 reads the serial, and
      rule 3 does not find it, so on such a question the guard is no projection. */
  lemma {:induction false} MarkedSerialRepeats(sinceSet: bool, vocabulary: Vocabulary, lex: Lexicon)
    requires lex.Valid() && MarkJoins(lex)
    ensures !Settles("KY4QVD7A\U{301}", NOTHING, sinceSet, vocabulary, lex)
  {
    MarkedSerialIsDropped("KY4QVD7A", "\U{301}", lex);
    assert "KY4QVD7A" + "\U{301}" == "KY4QVD7A\U{301}";
    InventedSerialRepeats("KY4QVD7A\U{301}", sinceSet, vocabulary, lex);
  }

  lemma {:induction false} NoPartOfOther(part: string, whole: string)
    requires |part| == |whole| && part != whole
    ensures !HasPart(part, whole)
  {
    assert whole[0..|whole|] == whole;
  }

  lemma {:induction false} MarkedSerialIsDropped(serial: string, mark: string, lex: Lexicon)
    requires lex.Valid() && MarkJoins(lex) && serial == "KY4QVD7A" && mark == "\U{301}"
    ensures !SerialIsKept(serial + mark, lex)
  {
    assert serial + mark == "KY4QVD7A\U{301}";
    MarkedSerialIsRead(serial, mark, lex);
    KeepAlnumAll("ky4qvd7a", lex.isAlnum);
    KeepAlnumAll("ky4qvd7\U{e1}", lex.isAlnum);
    var part, whole := "ky4qvd7a", "ky4qvd7\U{e1}";
    assert Compacted(serial, lex) == part && Compacted(serial + mark, lex) == whole;
    assert part[7] != whole[7];
    NoPartOfOther(part, whole);
  }

  lemma {:induction false} MarkedSerialIsRead(serial: string, mark: string, lex: Lexicon)
    requires lex.Valid() && |mark| == 1 && !lex.isWord(mark[0]) && serial == "KY4QVD7A"
    ensures Serialish(serial) && OneSerial(serial + mark, lex.isWord) == Some(serial)
  {
    assert Capitals("KY4QVD7A", 8) == 6 && Figures("KY4QVD7A", 8) == 2;
    WordLengthOf(serial, mark, lex.isWord);
    assert (serial + mark)[..8] == serial && (serial + mark)[8..] == mark;
    assert mark[1..] == [];
    assert SerialsOf(mark, lex.isWord) == [];
  }

  lemma {:induction false} KeepAlnumAll(text: string, isAlnum: char -> bool)
    requires forall c :: c in text ==> isAlnum(c)
    ensures KeepAlnum(text, isAlnum) == text
  {
    if text != [] {
      KeepAlnumAll(text[1..], isAlnum);
    }
  }

  // --- interpretation ----------------------------------------------------------------------

  /** The start a question's own words ask for, on the wire; `closed` when they name an end too. */
  datatype Since = Since(wire: string, closed: bool)

  datatype Interpretation = Interpretation(answer: Answer, parsed: bool, invalid: bool)

  const NOTHING := Answer(NO_FILTERS, None, [])

  /** The start put in beside what the model said. */
  function Bounded(a: Answer, start: Option<Since>): Answer {
    a.(filters := a.filters.(since := if start.Some? then Some(start.value.wire) else None))
  }

  /** A start is set and the words name no end. */
  predicate RunsOn(start: Option<Since>) {
    start.Some? && !start.value.closed
  }

  predicate HasReplyKey(reply: Reply) {
    exists key :: key in reply && key in REPLY_KEYS
  }

  /** What a reply to a question means: `reply` is the parsed object, if there was one, and `since`
      reads the start a question's words ask for. */
  function Interpreted(
    question: string, reply: Option<Reply>, since: string -> Option<Since>, vocabulary: Vocabulary,
    lex: Lexicon): Interpretation
    requires lex.Valid()
  {
    if reply.Some? && Refused(reply.value, lex) then Interpretation(NOTHING, true, true)
    else if reply == None || !HasReplyKey(reply.value) then Interpretation(NOTHING, false, false)
    else
      var asked := SanitiseQuestion(question, lex.tables);
      var start := since(asked);
      var bounded := Bounded(Coerced(reply.value, vocabulary, lex), start);
      Interpretation(Guarded(asked, bounded, RunsOn(start), vocabulary, lex), true, false)
  }

  method Interpret(
    question: string, reply: Option<Reply>, since: string -> Option<Since>, vocabulary: Vocabulary, lex: Lexicon)
    returns (meant: Interpretation)
    requires lex.Valid()
    ensures meant == Interpreted(question, reply, since, vocabulary, lex)
  {
    if reply.Some? && Refused(reply.value, lex) {
      return Interpretation(NOTHING, true, true);
    }
    if reply == None || !HasReplyKey(reply.value) {
      return Interpretation(NOTHING, false, false);
    }
    var asked := SanitiseQuestion(question, lex.tables);
    var start := since(asked);
    var coerced := Coerce(reply.value, vocabulary, lex);
    var guarded := Guard(asked, Bounded(coerced, start), RunsOn(start), vocabulary, lex);
    meant := Interpretation(guarded, true, false);
  }

  /** A caller who passes the raw question gets the answer of one who passes what was sent. */
  lemma {:induction false} RawOrSanitisedIsTheSame(
    question: string, reply: Option<Reply>, since: string -> Option<Since>, vocabulary: Vocabulary, lex: Lexicon)
    requires lex.Valid()
    ensures Interpreted(SanitiseQuestion(question, lex.tables), reply, since, vocabulary, lex)
         == Interpreted(question, reply, since, vocabulary, lex)
  {
    SanitiseExactly(question, lex.tables);
  }

  // --- what a widening repair means --------------------------------------------------------

  predicate WidensSearch(repair: Repair) {
    repair.widens && repair.control == Some(Search)
  }

  predicate SomeWidensSearch(repairs: seq<Repair>) {
    exists i :: 0 <= i < |repairs| && WidensSearch(repairs[i])
  }

  lemma {:induction false} WidensSearchJoined(a: seq<Repair>, b: seq<Repair>)
    ensures SomeWidensSearch(a + b) <==> SomeWidensSearch(a) || SomeWidensSearch(b)
  {
    if SomeWidensSearch(a) {
      var i :| 0 <= i < |a| && WidensSearch(a[i]);
      assert (a + b)[i] == a[i];
    }
    if SomeWidensSearch(b) {
      var i :| 0 <= i < |b| && WidensSearch(b[i]);
      assert (a + b)[|a| + i] == b[i];
    }
  }

  lemma {:induction false} WidensSearchInSeven(
    r0: seq<Repair>, r1: seq<Repair>, r2: seq<Repair>, r3: seq<Repair>, r4: seq<Repair>, r5: seq<Repair>,
    r6: seq<Repair>)
    ensures SomeWidensSearch(r0 + r1 + r2 + r3 + r4 + r5 + r6) ==>
              SomeWidensSearch(r0) || SomeWidensSearch(r1) || SomeWidensSearch(r2) || SomeWidensSearch(r3)
              || SomeWidensSearch(r4) || SomeWidensSearch(r5) || SomeWidensSearch(r6)
  {
    WidensSearchJoined(r0, r1);
    WidensSearchJoined(r0 + r1, r2);
    WidensSearchJoined(r0 + r1 + r2, r3);
    WidensSearchJoined(r0 + r1 + r2 + r3, r4);
    WidensSearchJoined(r0 + r1 + r2 + r3 + r4, r5);
    WidensSearchJoined(r0 + r1 + r2 + r3 + r4 + r5, r6);
  }

  lemma {:induction false} PiecesWidening(reply: Reply, vocabulary: Vocabulary, lex: Lexicon, value: Json)
    ensures !SomeWidensSearch(IgnoredKeys(reply, REPLY_KEYS, lex))
    ensures SomeWidensSearch(WhitelistedName(value, Search, lex).1) ==> WhitelistedName(value, Search, lex).0 == None
    ensures !SomeWidensSearch(WhitelistedName(value, Artifact, lex).1)
    ensures !SomeWidensSearch(NoteOf(value, lex).1)
  {
  }

  lemma {:induction false} WordsWidening(
    vocabulary: Vocabulary, lex: Lexicon, value: Json, words: set<string>, why: Why)
    ensures !SomeWidensSearch(OneOf(value, words, why, lex).1)
    ensures !SomeWidensSearch(SectionOf(value, vocabulary, lex).1)
  {
  }

  lemma {:induction false} CoercedWidening(reply: Reply, vocabulary: Vocabulary, lex: Lexicon)
    ensures var a := Coerced(reply, vocabulary, lex); SomeWidensSearch(a.repairs) ==> a.filters.q == None
  {
    PiecesWidening(reply, vocabulary, lex, Given(reply, "search"));
    PiecesWidening(reply, vocabulary, lex, Given(reply, "filter"));
    PiecesWidening(reply, vocabulary, lex, Given(reply, "unsupported"));
    WordsWidening(vocabulary, lex, Given(reply, "level"), LEVELS, UnknownLevel);
    WordsWidening(vocabulary, lex, Given(reply, "section"), LEVELS, UnknownLevel);
    WordsWidening(vocabulary, lex, Given(reply, "change"), CHANGES, UnknownChange);
    WidensSearchInSeven(
      IgnoredKeys(reply, REPLY_KEYS, lex), WhitelistedName(Given(reply, "search"), Search, lex).1,
      WhitelistedName(Given(reply, "filter"), Artifact, lex).1, OneOf(Given(reply, "level"), LEVELS, UnknownLevel, lex).1,
      SectionOf(Given(reply, "section"), vocabulary, lex).1, OneOf(Given(reply, "change"), CHANGES, UnknownChange, lex).1,
      NoteOf(Given(reply, "unsupported"), lex).1);
  }

  lemma {:induction false} GuardedWidening(
    question: string, a: Answer, sinceSet: bool, vocabulary: Vocabulary, lex: Lexicon)
    requires SomeWidensSearch(a.repairs) ==> a.filters.q == None
    ensures var g := Guarded(question, a, sinceSet, vocabulary, lex); SomeWidensSearch(g.repairs) ==> g.filters.q == None
  {
    var first := DropKind(a, vocabulary, lex);
    WidensSearchJoined(a.repairs, [Fixes(NamesAKind)]);
    var second := DropRepeat(first, lex);
    WidensSearchJoined(first.repairs, [Fixes(RepeatsTheName)]);
    var third := DropInvented(second, question, lex);
    var fourth := FillSerial(third, question, lex);
    assert !SomeWidensSearch(Unwidened(third.repairs));
    WidensSearchJoined(Unwidened(third.repairs), [Fixes(FilledSerial)]);
    var fifth := DropNote(fourth, question, sinceSet, lex);
    WidensSearchJoined(fourth.repairs, [Fixes(NoteWithoutGround)]);
    WidensSearchJoined(fifth.repairs, [Fixes(ChangeNeverRecorded)]);
  }

  predicate SearchIsAsked(a: Answer, question: string, lex: Lexicon) {
    && (SomeWidensSearch(a.repairs) ==> a.filters.q == None)
    && (Filled(a.filters.q) && Serialish(lex.upper(a.filters.q.value)) ==>
          HasPart(Compacted(a.filters.q.value, lex), Compacted(question, lex)))
  }

  lemma {:induction false} GuardedSearch(
    question: string, a: Answer, sinceSet: bool, vocabulary: Vocabulary, lex: Lexicon)
    requires lex.Valid() && SerialIsKept(question, lex) && (SomeWidensSearch(a.repairs) ==> a.filters.q == None)
    ensures SearchIsAsked(Guarded(question, a, sinceSet, vocabulary, lex), question, lex)
  {
    GuardedWidening(question, a, sinceSet, vocabulary, lex);
    SearchSettles(a, question, vocabulary, lex);
  }

  /** A repair that still widens Search stands only where Search is empty; and a serial-shaped Search is
      always one the question holds, letters and digits compared. */
  lemma {:induction false} SearchIsTheOperators(
    question: string, reply: Option<Reply>, since: string -> Option<Since>, vocabulary: Vocabulary, lex: Lexicon)
    requires lex.Valid()
    ensures SearchIsAsked(Interpreted(question, reply, since, vocabulary, lex).answer,
                          SanitiseQuestion(question, lex.tables), lex)
  {
    if reply.Some? && !Refused(reply.value, lex) && HasReplyKey(reply.value) {
      var asked := SanitiseQuestion(question, lex.tables);
      var start := since(asked);
      SanitisedIsClean(question, lex.tables);
      ComposedSerialIsKept(asked, lex);
      CoercedWidening(reply.value, vocabulary, lex);
      GuardedSearch(asked, Bounded(Coerced(reply.value, vocabulary, lex), start), RunsOn(start), vocabulary, lex);
    }
  }

  // --- the closed vocabulary ---------------------------------------------------------------

  predicate IsNameOrNone(name: Option<string>, lex: Lexicon) {
    name.Some? ==> 0 < |name.value| <= NAME_MAX_CHARS && IsName(name.value, lex)
  }

  predicate IsIn(word: Option<string>, words: set<string>) {
    word.Some? ==> word.value in words
  }

  predicate IsClosed(filters: Filters, vocabulary: Vocabulary, lex: Lexicon) {
    && IsNameOrNone(filters.q, lex) && IsNameOrNone(filters.artifact, lex)
    && IsIn(filters.level, LEVELS) && IsIn(filters.change, CHANGES) && IsIn(filters.section, vocabulary.Sections())
  }

  lemma {:induction false} CoercedIsClosed(reply: Reply, vocabulary: Vocabulary, lex: Lexicon)
    ensures IsClosed(Coerced(reply, vocabulary, lex).filters, vocabulary, lex)
  {
    assert IsNameOrNone(WhitelistedName(Given(reply, "search"), Search, lex).0, lex);
    assert IsNameOrNone(WhitelistedName(Given(reply, "filter"), Artifact, lex).0, lex);
  }

  /** `after` is `before` with controls emptied, but for `serial` filled into an empty Search. */
  predicate OnlyEmpties(before: Filters, after: Filters, serial: Option<string>) {
    && (after.q == None || after.q == before.q || after.q == serial)
    && (after.artifact == None || after.artifact == before.artifact)
    && (after.change == None || after.change == before.change)
    && after.level == before.level && after.section == before.section && after.since == before.since
  }

  lemma {:induction false} EmptiesTwice(a: Filters, b: Filters, c: Filters, serial: Option<string>)
    requires OnlyEmpties(a, b, serial) && OnlyEmpties(b, c, serial)
    ensures OnlyEmpties(a, c, serial)
  {
  }

  /** The three rules that drop a name or a Search, one by one. */
  lemma {:induction false} DropsEmpty(
    question: string, a: Answer, vocabulary: Vocabulary, lex: Lexicon, serial: Option<string>)
    ensures OnlyEmpties(a.filters, DropKind(a, vocabulary, lex).filters, serial)
    ensures OnlyEmpties(a.filters, DropRepeat(a, lex).filters, serial)
    ensures OnlyEmpties(a.filters, DropInvented(a, question, lex).filters, serial)
  {
  }

  lemma {:induction false} RestEmpties(
    question: string, a: Answer, sinceSet: bool, vocabulary: Vocabulary, lex: Lexicon)
    ensures OnlyEmpties(a.filters, FillSerial(a, question, lex).filters, OneSerial(question, lex.isWord))
    ensures DropNote(a, question, sinceSet, lex).filters == a.filters
    ensures OnlyEmpties(a.filters, DropChange(a, vocabulary).filters, OneSerial(question, lex.isWord))
  {
  }

  /** The rules only empty controls, but for the serial they fill in. */
  lemma {:induction false} GuardedFields(
    question: string, a: Answer, sinceSet: bool, vocabulary: Vocabulary, lex: Lexicon)
    ensures OnlyEmpties(a.filters, Guarded(question, a, sinceSet, vocabulary, lex).filters, OneSerial(question, lex.isWord))
  {
    var serial := OneSerial(question, lex.isWord);
    var first := DropKind(a, vocabulary, lex);
    var second := DropRepeat(first, lex);
    var third := DropInvented(second, question, lex);
    var fourth := FillSerial(third, question, lex);
    var fifth := DropNote(fourth, question, sinceSet, lex);
    DropsEmpty(question, a, vocabulary, lex, serial);
    DropsEmpty(question, first, vocabulary, lex, serial);
    DropsEmpty(question, second, vocabulary, lex, serial);
    RestEmpties(question, third, sinceSet, vocabulary, lex);
    RestEmpties(question, fourth, sinceSet, vocabulary, lex);
    RestEmpties(question, fifth, sinceSet, vocabulary, lex);
    EmptiesTwice(a.filters, first.filters, second.filters, serial);
    EmptiesTwice(a.filters, second.filters, third.filters, serial);
    EmptiesTwice(a.filters, third.filters, fourth.filters, serial);
    EmptiesTwice(a.filters, fifth.filters, DropChange(fifth, vocabulary).filters, serial);
  }

  lemma {:induction false} GuardedChange(
    question: string, a: Answer, sinceSet: bool, vocabulary: Vocabulary, lex: Lexicon)
    ensures !NeverRecorded(Guarded(question, a, sinceSet, vocabulary, lex).filters, vocabulary)
  {
  }

  lemma {:induction false} SerialIsName(question: string, lex: Lexicon)
    requires lex.Valid()
    ensures IsNameOrNone(OneSerial(question, lex.isWord), lex)
  {
    if OneSerial(question, lex.isWord).Some? {
      FilledSerialStays(question, lex);
    }
  }

  lemma {:induction false} GuardedIsClosed(
    question: string, a: Answer, sinceSet: bool, vocabulary: Vocabulary, lex: Lexicon)
    requires lex.Valid() && IsClosed(a.filters, vocabulary, lex)
    ensures var g := Guarded(question, a, sinceSet, vocabulary, lex);
            IsClosed(g.filters, vocabulary, lex) && !NeverRecorded(g.filters, vocabulary) && g.filters.since == a.filters.since
  {
    GuardedFields(question, a, sinceSet, vocabulary, lex);
    GuardedChange(question, a, sinceSet, vocabulary, lex);
    SerialIsName(question, lex);
  }

  /** Whatever a model replies, every filter is unset or one of the page's own words, or a name of at
      most 64 allowed characters; the start is never the model's; and no list section is left with
      `changed`, nor any other with an entry's change. */
  lemma {:induction false} VocabularyIsClosed(
    question: string, reply: Option<Reply>, since: string -> Option<Since>, vocabulary: Vocabulary, lex: Lexicon)
    requires lex.Valid()
    ensures var a := Interpreted(question, reply, since, vocabulary, lex).answer;
            && IsClosed(a.filters, vocabulary, lex) && !NeverRecorded(a.filters, vocabulary)
            && (a.filters.since.Some? ==>
                  var start := since(SanitiseQuestion(question, lex.tables));
                  start.Some? && a.filters.since.value == start.value.wire)
  {
    if reply.Some? && !Refused(reply.value, lex) && HasReplyKey(reply.value) {
      var asked := SanitiseQuestion(question, lex.tables);
      var start := since(asked);
      CoercedIsClosed(reply.value, vocabulary, lex);
      GuardedIsClosed(asked, Bounded(Coerced(reply.value, vocabulary, lex), start), RunsOn(start), vocabulary, lex);
    }
  }

  // --- nothing is lost without a word ------------------------------------------------------

  predicate SomeWidens(repairs: seq<Repair>) {
    exists i :: 0 <= i < |repairs| && repairs[i].widens
  }

  /** A value that says nothing: the control was meant to be left alone. */
  predicate SaysNothing(value: Json, lex: Lexicon) {
    || value == JsonNull
    || (value.JsonText? && lex.strip(value.text) == "")
    || (value.JsonInt? && lex.strip(lex.render(value)) == "")
  }

  predicate SaysAny(value: Json, lex: Lexicon) {
    Word(value, lex) in ANY
  }

  lemma {:induction false} WidensJoined(a: seq<Repair>, b: seq<Repair>)
    ensures SomeWidens(a + b) <==> SomeWidens(a) || SomeWidens(b)
  {
    if SomeWidens(a) {
      var i :| 0 <= i < |a| && a[i].widens;
      assert (a + b)[i] == a[i];
    }
    if SomeWidens(b) {
      var i :| 0 <= i < |b| && b[i].widens;
      assert (a + b)[|a| + i] == b[i];
    }
  }

  /** Coercion widens exactly when something the reply said is not in the filters: a name, level,
      section or change that was dropped, or a key the page does not use that held a value. */
  lemma {:induction false} NothingIsLostQuietly(reply: Reply, vocabulary: Vocabulary, lex: Lexicon)
    ensures var a := Coerced(reply, vocabulary, lex);
            SomeWidens(a.repairs) <==>
            || (a.filters.q == None && !SaysNothing(Given(reply, "search"), lex))
            || (a.filters.artifact == None && !SaysNothing(Given(reply, "filter"), lex))
            || (a.filters.level == None && !SaysAny(Given(reply, "level"), lex))
            || (a.filters.section == None && !SaysAny(Given(reply, "section"), lex))
            || (a.filters.change == None && !SaysAny(Given(reply, "change"), lex))
            || exists key :: key in reply && Ignored(reply, key, REPLY_KEYS, lex) && !HoldsNothing(reply[key])
  {
    NameWidens(Given(reply, "search"), Search, lex);
    NameWidens(Given(reply, "filter"), Artifact, lex);
    WordWidens(Given(reply, "level"), LEVELS, UnknownLevel, lex);
    SectionWidens(Given(reply, "section"), vocabulary, lex);
    WordWidens(Given(reply, "change"), CHANGES, UnknownChange, lex);
    OneWidens(NoteOf(Given(reply, "unsupported"), lex).1);
    IgnoredWidens(reply, lex);
    WidensInSeven(
      IgnoredKeys(reply, REPLY_KEYS, lex), WhitelistedName(Given(reply, "search"), Search, lex).1,
      WhitelistedName(Given(reply, "filter"), Artifact, lex).1, OneOf(Given(reply, "level"), LEVELS, UnknownLevel, lex).1,
      SectionOf(Given(reply, "section"), vocabulary, lex).1, OneOf(Given(reply, "change"), CHANGES, UnknownChange, lex).1,
      NoteOf(Given(reply, "unsupported"), lex).1);
  }

  lemma {:induction false} WidensInSeven(
    r0: seq<Repair>, r1: seq<Repair>, r2: seq<Repair>, r3: seq<Repair>, r4: seq<Repair>, r5: seq<Repair>,
    r6: seq<Repair>)
    ensures SomeWidens(r0 + r1 + r2 + r3 + r4 + r5 + r6) <==>
            SomeWidens(r0) || SomeWidens(r1) || SomeWidens(r2) || SomeWidens(r3)
            || SomeWidens(r4) || SomeWidens(r5) || SomeWidens(r6)
  {
    WidensJoined(r0, r1);
    WidensJoined(r0 + r1, r2);
    WidensJoined(r0 + r1 + r2, r3);
    WidensJoined(r0 + r1 + r2 + r3, r4);
    WidensJoined(r0 + r1 + r2 + r3 + r4, r5);
    WidensJoined(r0 + r1 + r2 + r3 + r4 + r5, r6);
  }

  lemma {:induction false} WordWidens(value: Json, words: set<string>, why: Why, lex: Lexicon)
    ensures var (word, repairs) := OneOf(value, words, why, lex);
            SomeWidens(repairs) <==> word == None && !SaysAny(value, lex)
  {
    OneWidens(OneOf(value, words, why, lex).1);
  }

  lemma {:induction false} SectionWidens(value: Json, vocabulary: Vocabulary, lex: Lexicon)
    ensures var (key, repairs) := SectionOf(value, vocabulary, lex);
            SomeWidens(repairs) <==> key == None && !SaysAny(value, lex)
  {
    OneWidens(SectionOf(value, vocabulary, lex).1);
  }

  lemma {:induction false} OneWidens(repairs: seq<Repair>)
    requires |repairs| <= 1
    ensures SomeWidens(repairs) <==> |repairs| == 1 && repairs[0].widens
  {
  }

  lemma {:induction false} NameWidens(value: Json, control: Control, lex: Lexicon)
    ensures var (name, repairs) := WhitelistedName(value, control, lex);
            SomeWidens(repairs) <==> name == None && !SaysNothing(value, lex)
  {
    OneWidens(WhitelistedName(value, control, lex).1);
  }

  lemma {:induction false} IgnoredWidens(reply: Reply, lex: Lexicon)
    ensures SomeWidens(IgnoredKeys(reply, REPLY_KEYS, lex))
       <==> exists key :: key in reply && Ignored(reply, key, REPLY_KEYS, lex) && !HoldsNothing(reply[key])
  {
    var held := if exists key :: key in reply && Ignored(reply, key, REPLY_KEYS, lex) && !HoldsNothing(reply[key])
                then [Widens(IgnoredHeld, None)] else [];
    var empty := if exists key :: key in reply && Ignored(reply, key, REPLY_KEYS, lex) && HoldsNothing(reply[key])
                 then [Fixes(IgnoredEmpty)] else [];
    WidensJoined(held, empty);
    OneWidens(held);
    OneWidens(empty);
  }
}
