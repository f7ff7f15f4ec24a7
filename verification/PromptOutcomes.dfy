/** Control by control, what coercion and the guard leave: when a reply's word is kept, when a rule drops
    it, and which repairs say so. */
module PromptOutcomes {
  import opened Prelude
  import opened Sanitise
  import opened Serials
  import opened Texts
  import opened Prompt
  import opened PromptFacts

  // --- coercion ------------------------------------------------------------------------------

  /** The reply gives this text for a name: as text, or as a number written out. */
  predicate Says(value: Json, text: string, lex: Lexicon) {
    || (value.JsonText? && lex.strip(value.text) == text)
    || (value.JsonInt? && lex.strip(lex.render(value)) == text)
  }

  /** What Python's `value or "any"` and `str` make of a value. */
  function Written(value: Json, lex: Lexicon): string {
    match value
    case JsonNull => "any"
    case JsonBool(flag) => if flag then lex.render(value) else "any"
    case JsonInt(number) => if number != 0 then lex.render(value) else "any"
    case JsonFloat(amount) => if amount != 0.0 then lex.render(value) else "any"
    case JsonText(text) => if |text| > 0 then text else "any"
    case JsonList(items) => if |items| > 0 then lex.render(value) else "any"
    case JsonObject(fields) => if |fields| > 0 then lex.render(value) else "any"
  }

  lemma {:induction false} WordExactly(value: Json, lex: Lexicon)
    ensures Word(value, lex) == lex.lower(lex.strip(Written(value, lex)))
  {
    if value.JsonObject? && |value.fields| == 0 {
      assert value.fields == map[];
    }
  }

  predicate MayBeName(text: string, lex: Lexicon) {
    0 < |text| <= 64 && forall c :: c in text ==> lex.isNameChar(c)
  }

  /** The reply's word for a control, where it is not one for "no filter". */
  predicate Picks(value: Json, word: string, lex: Lexicon) {
    lex.lower(lex.strip(Written(value, lex))) == word && word !in {"any", "all", "null", "none"}
  }

  /** A line cut to 300 characters, without the blanks it then ends in. */
  predicate IsCut(line: string, text: string) {
    && text <= line && |text| <= 300 && (text != [] ==> text[|text| - 1] != ' ')
    && forall i :: |text| <= i < |line| && i < 300 ==> line[i] == ' '
  }

  /** Every control holds exactly what the reply says for it, where the page allows it: a name of at most
      64 allowed characters, a word of the page's own, a section by its name or key. */
  lemma {:induction false} CoercedExactly(reply: Reply, vocabulary: Vocabulary, lex: Lexicon, text: string)
    ensures var filters := Coerced(reply, vocabulary, lex).filters;
            && (filters.q == Some(text) <==> Says(Given(reply, "search"), text, lex) && MayBeName(text, lex))
            && (filters.artifact == Some(text) <==> Says(Given(reply, "filter"), text, lex) && MayBeName(text, lex))
            && (filters.level == Some(text)
                <==> Picks(Given(reply, "level"), text, lex) && text in {"low", "normal", "high"})
            && (filters.change == Some(text)
                <==> Picks(Given(reply, "change"), text, lex) && text in {"added", "removed", "updated", "changed"})
            && (filters.section == Some(text)
                <==> exists word :: Picks(Given(reply, "section"), word, lex)
                       && word in vocabulary.sectionByWord && vocabulary.sectionByWord[word] == text)
            && filters.since == None
  {
    PickExactly(Given(reply, "level"), LEVELS, UnknownLevel, lex, text);
    PickExactly(Given(reply, "change"), CHANGES, UnknownChange, lex, text);
    NameExactly(Given(reply, "search"), Search, lex, text);
    NameExactly(Given(reply, "filter"), Artifact, lex, text);
    SectionExactly(Given(reply, "section"), vocabulary, lex, text);
  }

  lemma {:induction false} NameExactly(value: Json, control: Control, lex: Lexicon, text: string)
    ensures WhitelistedName(value, control, lex).0 == Some(text) <==> Says(value, text, lex) && MayBeName(text, lex)
  {
    if Says(value, text, lex) && IsName(text, lex) {
      assert forall c :: c in text ==> lex.isNameChar(c);
    }
  }

  lemma {:induction false} PickExactly(value: Json, words: set<string>, why: Why, lex: Lexicon, text: string)
    ensures OneOf(value, words, why, lex).0 == Some(text) <==> Picks(value, text, lex) && text in words
  {
    WordExactly(value, lex);
  }

  lemma {:induction false} SectionExactly(value: Json, vocabulary: Vocabulary, lex: Lexicon, key: string)
    ensures SectionOf(value, vocabulary, lex).0 == Some(key)
       <==> exists word :: Picks(value, word, lex)
              && word in vocabulary.sectionByWord && vocabulary.sectionByWord[word] == key
  {
    WordExactly(value, lex);
    if SectionOf(value, vocabulary, lex).0 == Some(key) {
      assert Picks(value, Word(value, lex), lex);
    }
  }

  lemma {:induction false} CutExactly(line: string, text: string)
    ensures IsCut(line, text) <==> text == StripRight(line[..Min(|line|, 300)], IsBlank)
  {
    var head := line[..Min(|line|, 300)];
    var kept := StripRight(head, IsBlank);
    var blanks := StripRightKeeps(head, IsBlank);
    StripRightIsPrefix(head, IsBlank);
    assert forall i :: |kept| <= i < |head| ==> head[i] == blanks[i - |kept|];
    if IsCut(line, text) {
      assert text == head[..|text|];
    }
  }

  /** The note is the reply's own text as one plain line, cut, unless that is empty or says there is none. */
  lemma {:induction false} NoteExactly(reply: Reply, vocabulary: Vocabulary, lex: Lexicon, note: string)
    ensures Coerced(reply, vocabulary, lex).note == Some(note) <==>
            var value := Given(reply, "unsupported");
            && value.JsonText? && IsCut(Plain(value.text, lex.tables), note)
            && lex.lower(note) !in {"", "null", "none"}
  {
    var value := Given(reply, "unsupported");
    if value.JsonText? {
      CutExactly(Plain(value.text, lex.tables), note);
    }
  }

  /** Null, or an empty text, list or object. */
  predicate IsBare(value: Json) {
    match value
    case JsonNull => true
    case JsonText(text) => |text| == 0
    case JsonList(items) => |items| == 0
    case JsonObject(fields) => |fields| == 0
    case _ => false
  }

  /** A refusal key that plainly says no. */
  predicate DeclinesToRefuse(value: Json, lex: Lexicon) {
    match value
    case JsonText(text) => lex.lower(lex.strip(text)) in {"", "false"}
    case JsonBool(flag) => !flag
    case JsonInt(number) => number == 0
    case JsonFloat(_) => false
    case _ => IsBare(value)
  }

  /** A key the page has no use for. */
  predicate IsUseless(reply: Reply, key: string, lex: Lexicon) {
    && key in reply && key !in {"search", "filter", "level", "section", "change", "unsupported"}
    && (key == "invalid" ==> !DeclinesToRefuse(reply[key], lex))
  }

  /** One repair, which widens, where some useless key held something, and one where some held nothing. */
  lemma {:induction false} UselessKeysExactly(reply: Reply, lex: Lexicon)
    ensures IgnoredKeys(reply, REPLY_KEYS, lex) ==
            (if exists key :: key in reply && IsUseless(reply, key, lex) && !IsBare(reply[key])
             then [Repair(IgnoredHeld, true, None)] else [])
            + (if exists key :: key in reply && IsUseless(reply, key, lex) && IsBare(reply[key])
               then [Repair(IgnoredEmpty, false, None)] else [])
  {
    forall key | key in reply
      ensures Ignored(reply, key, REPLY_KEYS, lex) <==> IsUseless(reply, key, lex)
      ensures HoldsNothing(reply[key]) <==> IsBare(reply[key])
    {
      BareExactly(reply[key], lex);
    }
  }

  lemma {:induction false} BareExactly(value: Json, lex: Lexicon)
    ensures HoldsNothing(value) <==> IsBare(value)
    ensures NotRefused(value, lex) <==> DeclinesToRefuse(value, lex)
  {
    if value.JsonObject? && |value.fields| == 0 {
      assert value.fields == map[];
    }
  }

  // --- the guard -----------------------------------------------------------------------------

  predicate HasText(value: Option<string>) {
    value.Some? && |value.value| > 0
  }

  /** One final s, and not two. */
  predicate IsPlural(word: string) {
    |word| > 0 && word[|word| - 1] == 's' && (|word| == 1 || word[|word| - 2] != 's')
  }

  /** The one thing a text names, whatever its case and whether or not in the plural. */
  predicate IsSingular(word: string, text: string, lex: Lexicon) {
    var bare := lex.lower(lex.strip(text));
    bare == if IsPlural(bare) then word + "s" else word
  }

  /** A text that names a section or a kind of thing rather than one thing. */
  ghost predicate NamesAKindOfThing(text: string, vocabulary: Vocabulary, lex: Lexicon) {
    exists word :: IsSingular(word, text, lex)
      && (|| word in vocabulary.generic || word in vocabulary.sectionByWord
          || exists name :: name in vocabulary.sectionByWord && IsSingular(word, name, lex))
  }

  /** A search that is the name, or a piece of it, and names no device. */
  predicate IsPieceOf(search: string, name: string, lex: Lexicon) {
    HasPart(lex.lower(search), lex.lower(name)) && !lex.isDigits(search) && !Serialish(search)
  }

  /** A serial-shaped search that the question does not hold. */
  predicate IsNotAsked(search: string, question: string, lex: Lexicon) {
    Serialish(lex.upper(search)) && !HasPart(Compacted(search, lex), Compacted(question, lex))
  }

  /** A change that the section's kind of entry never records. */
  predicate NeverHappens(section: Option<string>, change: Option<string>, vocabulary: Vocabulary) {
    HasText(section) && HasText(change) &&
    if section.value in vocabulary.entrySections then change == Some("changed")
    else change in {Some("added"), Some("removed"), Some("updated")}
  }

  /** What the rules found to do. */
  datatype Acts = Acts(kind: bool, repeats: bool, invented: bool, fills: bool, groundless: bool, never: bool)

  function If<T>(act: bool, item: T): seq<T> {
    if act then [item] else []
  }

  /** These are the rules that act on an answer, each on what the ones before it left. */
  ghost predicate AreActs(
    acts: Acts, question: string, a: Answer, sinceSet: bool, vocabulary: Vocabulary, lex: Lexicon)
  {
    var f := a.filters;
    && (acts.kind <==> HasText(f.artifact) && NamesAKindOfThing(f.artifact.value, vocabulary, lex))
    && (acts.repeats <==> HasText(f.q) && HasText(f.artifact) && !acts.kind && IsPieceOf(f.q.value, f.artifact.value, lex))
    && (acts.invented <==> HasText(f.q) && !acts.repeats && IsNotAsked(f.q.value, question, lex))
    && (acts.fills <==> (f.q == None || acts.repeats || acts.invented) && OneSerial(question, lex.isWord).Some?)
    && (acts.groundless <==> HasText(a.note) && !lex.hasOther(question) && (sinceSet || !lex.hasRange(question)))
    && (acts.never <==> NeverHappens(f.section, f.change, vocabulary))
  }

  /** What the guard leaves of an answer, the rules that acted being these. */
  predicate IsLeft(g: Answer, a: Answer, acts: Acts, serial: Option<string>) {
    && g.filters.artifact == (if acts.kind then None else a.filters.artifact)
    && g.filters.q == (if acts.fills then serial else if acts.repeats || acts.invented then None else a.filters.q)
    && g.filters.change == (if acts.never then None else a.filters.change)
    && g.note == (if acts.groundless then None else a.note)
    && g.filters.level == a.filters.level && g.filters.section == a.filters.section && g.filters.since == a.filters.since
  }

  function WhyOf(repairs: seq<Repair>): seq<Why> {
    seq(|repairs|, i requires 0 <= i < |repairs| => repairs[i].why)
  }

  /** What becomes of a repair made before the guard: it stands, but one that widened Search no longer does
      where Search is filled again. */
  function Kept(repair: Repair, fills: bool): Repair {
    if fills && repair.widens && repair.control == Some(Search) then Repair(repair.why, false, None) else repair
  }

  /** The repairs made before stand as they must, and of those the guard adds only the one for a serial not
      in the question widens, where Search stays empty. */
  predicate RepairsStand(repairs: seq<Repair>, before: seq<Repair>, fills: bool) {
    && |before| <= |repairs|
    && (forall i :: 0 <= i < |before| ==> repairs[i] == Kept(before[i], fills))
    && (forall i :: |before| <= i < |repairs| ==>
          (repairs[i].widens <==> repairs[i].why == NotInTheQuestion && !fills)
          && (repairs[i].control == if repairs[i].widens then Some(Search) else None))
  }

  lemma {:induction false} FirstRepairsStand(
    question: string, a: Answer, vocabulary: Vocabulary, lex: Lexicon, third: Answer, fourth: Answer, fills: bool)
    requires third == DropInvented(DropRepeat(DropKind(a, vocabulary, lex), lex), question, lex)
    requires fourth == FillSerial(third, question, lex) && fills == (fourth != third)
    ensures RepairsStand(fourth.repairs, a.repairs, fills)
  {
    assert RepairsStand(third.repairs, a.repairs, false);
  }

  lemma {:induction false} KindExactly(text: string, vocabulary: Vocabulary, lex: Lexicon)
    ensures IsAKind(text, vocabulary, lex) <==> NamesAKindOfThing(text, vocabulary, lex)
  {
    SingularExactly(text, lex, Singular(text, lex));
    forall word ensures IsSingular(word, text, lex) <==> word == Singular(text, lex) {
      SingularExactly(text, lex, word);
    }
    forall name, word ensures IsSingular(word, name, lex) <==> word == Singular(name, lex) {
      SingularExactly(name, lex, word);
    }
  }

  lemma {:induction false} SingularExactly(text: string, lex: Lexicon, word: string)
    ensures IsSingular(word, text, lex) <==> word == Singular(text, lex)
  {
    var bare := lex.lower(lex.strip(text));
    if IsPlural(bare) {
      assert bare == bare[..|bare| - 1] + "s";
      assert bare == word + "s" ==> word == bare[..|bare| - 1];
    }
  }

  /** The first four rules, on the name and Search. */
  lemma {:induction false} NamesAreLeft(
    question: string, a: Answer, sinceSet: bool, vocabulary: Vocabulary, lex: Lexicon, acts: Acts, fourth: Answer)
    requires AreActs(acts, question, a, sinceSet, vocabulary, lex)
    requires fourth == FillSerial(DropInvented(DropRepeat(DropKind(a, vocabulary, lex), lex), question, lex), question, lex)
    ensures fourth.filters == a.filters.(
              artifact := if acts.kind then None else a.filters.artifact,
              q := if acts.fills then OneSerial(question, lex.isWord)
                   else if acts.repeats || acts.invented then None else a.filters.q)
    ensures fourth.note == a.note
  {
    if HasText(a.filters.artifact) {
      KindExactly(a.filters.artifact.value, vocabulary, lex);
    }
  }

  lemma {:induction false} FieldsAreLeft(
    question: string, a: Answer, sinceSet: bool, vocabulary: Vocabulary, lex: Lexicon, acts: Acts)
    requires AreActs(acts, question, a, sinceSet, vocabulary, lex)
    ensures IsLeft(Guarded(question, a, sinceSet, vocabulary, lex), a, acts, OneSerial(question, lex.isWord))
  {
    NamesAreLeft(question, a, sinceSet, vocabulary, lex, acts,
                 FillSerial(DropInvented(DropRepeat(DropKind(a, vocabulary, lex), lex), question, lex), question, lex));
  }

  lemma {:induction false} WhyOfKind(a: Answer, vocabulary: Vocabulary, lex: Lexicon)
    ensures var after := DropKind(a, vocabulary, lex); WhyOf(after.repairs) == WhyOf(a.repairs) + If(after != a, NamesAKind)
  {
  }

  lemma {:induction false} WhyOfRepeat(a: Answer, lex: Lexicon)
    ensures var after := DropRepeat(a, lex); WhyOf(after.repairs) == WhyOf(a.repairs) + If(after != a, RepeatsTheName)
  {
  }

  lemma {:induction false} WhyOfInvented(question: string, a: Answer, lex: Lexicon)
    ensures var after := DropInvented(a, question, lex);
            WhyOf(after.repairs) == WhyOf(a.repairs) + If(after != a, NotInTheQuestion)
  {
  }

  lemma {:induction false} WhyOfFill(question: string, a: Answer, lex: Lexicon)
    ensures var after := FillSerial(a, question, lex); WhyOf(after.repairs) == WhyOf(a.repairs) + If(after != a, FilledSerial)
  {
  }

  lemma {:induction false} WhyOfNote(question: string, a: Answer, sinceSet: bool, lex: Lexicon)
    ensures var after := DropNote(a, question, sinceSet, lex);
            WhyOf(after.repairs) == WhyOf(a.repairs) + If(after != a, NoteWithoutGround)
  {
  }

  lemma {:induction false} WhyOfChange(a: Answer, vocabulary: Vocabulary)
    ensures var after := DropChange(a, vocabulary);
            WhyOf(after.repairs) == WhyOf(a.repairs) + If(after != a, ChangeNeverRecorded)
  {
  }

  /** Step by step, which rules change anything. */
  lemma {:induction false} NameActsChange(
    question: string, a: Answer, sinceSet: bool, vocabulary: Vocabulary, lex: Lexicon, acts: Acts,
    first: Answer, second: Answer, third: Answer)
    requires AreActs(acts, question, a, sinceSet, vocabulary, lex)
    requires first == DropKind(a, vocabulary, lex) && second == DropRepeat(first, lex)
    requires third == DropInvented(second, question, lex)
    ensures acts.kind == (first != a) && acts.repeats == (second != first) && acts.invented == (third != second)
    ensures (third.filters.q == None) == (a.filters.q == None || acts.repeats || acts.invented)
    ensures third.note == a.note && third.filters.section == a.filters.section && third.filters.change == a.filters.change
  {
    if HasText(a.filters.artifact) {
      KindExactly(a.filters.artifact.value, vocabulary, lex);
    }
  }

  lemma {:induction false} OtherActsChange(
    question: string, a: Answer, sinceSet: bool, vocabulary: Vocabulary, lex: Lexicon, acts: Acts,
    third: Answer, fourth: Answer, fifth: Answer)
    requires AreActs(acts, question, a, sinceSet, vocabulary, lex)
    requires (third.filters.q == None) == (a.filters.q == None || acts.repeats || acts.invented)
    requires third.note == a.note && third.filters.section == a.filters.section && third.filters.change == a.filters.change
    requires fourth == FillSerial(third, question, lex) && fifth == DropNote(fourth, question, sinceSet, lex)
    ensures acts.fills == (fourth != third) && acts.groundless == (fifth != fourth)
    ensures acts.never == (DropChange(fifth, vocabulary) != fifth)
  {
  }

  /** The guard drops a name, a Search, a note or a change exactly where its rule has a ground in the
      question or the page, fills a serial in exactly where Search is then empty, leaves every other control
      alone, and adds exactly one repair for each rule that acted, in order, after those it was given. */
  lemma {:induction false} GuardedExactly(
    question: string, a: Answer, sinceSet: bool, vocabulary: Vocabulary, lex: Lexicon, acts: Acts)
    requires AreActs(acts, question, a, sinceSet, vocabulary, lex)
    ensures IsLeft(Guarded(question, a, sinceSet, vocabulary, lex), a, acts, OneSerial(question, lex.isWord))
    ensures WhyOf(Guarded(question, a, sinceSet, vocabulary, lex).repairs)
         == WhyOf(a.repairs) + If(acts.kind, NamesAKind) + If(acts.repeats, RepeatsTheName)
            + If(acts.invented, NotInTheQuestion) + If(acts.fills, FilledSerial)
            + If(acts.groundless, NoteWithoutGround) + If(acts.never, ChangeNeverRecorded)
    ensures RepairsStand(Guarded(question, a, sinceSet, vocabulary, lex).repairs, a.repairs, acts.fills)
  {
    FieldsAreLeft(question, a, sinceSet, vocabulary, lex, acts);
    WhysOfActs(question, a, sinceSet, vocabulary, lex, acts);
    RepairsOfActs(question, a, sinceSet, vocabulary, lex, acts);
  }

  lemma {:induction false} RepairsOfActs(
    question: string, a: Answer, sinceSet: bool, vocabulary: Vocabulary, lex: Lexicon, acts: Acts)
    requires AreActs(acts, question, a, sinceSet, vocabulary, lex)
    ensures RepairsStand(Guarded(question, a, sinceSet, vocabulary, lex).repairs, a.repairs, acts.fills)
  {
    var first := DropKind(a, vocabulary, lex);
    var second := DropRepeat(first, lex);
    var third := DropInvented(second, question, lex);
    var fourth := FillSerial(third, question, lex);
    var fifth := DropNote(fourth, question, sinceSet, lex);
    NameActsChange(question, a, sinceSet, vocabulary, lex, acts, first, second, third);
    OtherActsChange(question, a, sinceSet, vocabulary, lex, acts, third, fourth, fifth);
    FirstRepairsStand(question, a, vocabulary, lex, third, fourth, acts.fills);
  }

  lemma {:induction false} WhysOfActs(
    question: string, a: Answer, sinceSet: bool, vocabulary: Vocabulary, lex: Lexicon, acts: Acts)
    requires AreActs(acts, question, a, sinceSet, vocabulary, lex)
    ensures WhyOf(Guarded(question, a, sinceSet, vocabulary, lex).repairs)
         == WhyOf(a.repairs) + If(acts.kind, NamesAKind) + If(acts.repeats, RepeatsTheName)
            + If(acts.invented, NotInTheQuestion) + If(acts.fills, FilledSerial)
            + If(acts.groundless, NoteWithoutGround) + If(acts.never, ChangeNeverRecorded)
  {
    var first := DropKind(a, vocabulary, lex);
    var second := DropRepeat(first, lex);
    var third := DropInvented(second, question, lex);
    var fourth := FillSerial(third, question, lex);
    var fifth := DropNote(fourth, question, sinceSet, lex);
    NameActsChange(question, a, sinceSet, vocabulary, lex, acts, first, second, third);
    OtherActsChange(question, a, sinceSet, vocabulary, lex, acts, third, fourth, fifth);
    WhyOfKind(a, vocabulary, lex);
    WhyOfRepeat(first, lex);
    WhyOfInvented(question, second, lex);
    WhyOfFill(question, third, lex);
    WhyOfNote(question, fourth, sinceSet, lex);
    WhyOfChange(fifth, vocabulary);
  }

  // --- the reading of a reply ----------------------------------------------------------------

  /** The reply says that the question is not about changes. */
  predicate SaysInvalid(reply: Reply, lex: Lexicon) {
    && "invalid" in reply
    && (|| reply["invalid"] == JsonBool(true)
        || (reply["invalid"].JsonText? && lex.lower(lex.strip(reply["invalid"].text)) == "true"))
  }

  predicate AnswersSomething(reply: Reply) {
    || "search" in reply || "filter" in reply || "level" in reply || "section" in reply || "change" in reply
    || "unsupported" in reply
  }

  /** The start that the sanitised question's words ask for is set beside what the model said, and counts as
      grounds against a note exactly where the words name no end; the guard's outcome on that is the
      answer. */
  lemma {:induction false} ReadExactly(
    question: string, reply: Reply, since: string -> Option<Since>, vocabulary: Vocabulary, lex: Lexicon, a: Answer,
    acts: Acts)
    requires lex.Valid() && !SaysInvalid(reply, lex) && AnswersSomething(reply)
    requires var start := since(SanitiseQuestion(question, lex.tables));
             var coerced := Coerced(reply, vocabulary, lex);
             a == Answer(coerced.filters.(since := if start.Some? then Some(start.value.wire) else None),
                         coerced.note, coerced.repairs)
    requires var asked := SanitiseQuestion(question, lex.tables);
             AreActs(acts, asked, a, since(asked).Some? && !since(asked).value.closed, vocabulary, lex)
    ensures IsLeft(Interpreted(question, Some(reply), since, vocabulary, lex).answer, a, acts,
                   OneSerial(SanitiseQuestion(question, lex.tables), lex.isWord))
  {
    assert HasReplyKey(reply) by {
      var key :| key in REPLY_KEYS && key in reply;
    }
    var asked := SanitiseQuestion(question, lex.tables);
    FieldsAreLeft(asked, a, RunsOn(since(asked)), vocabulary, lex, acts);
  }

  /** A refusal and a reply with none of the six keys leave everything unset and say which they are; only
      another reply is read. */
  lemma {:induction false} InterpretedExactly(
    question: string, reply: Option<Reply>, since: string -> Option<Since>, vocabulary: Vocabulary, lex: Lexicon)
    requires lex.Valid()
    ensures var meant := Interpreted(question, reply, since, vocabulary, lex);
            && (meant.invalid <==> reply.Some? && SaysInvalid(reply.value, lex))
            && (meant.parsed <==> reply.Some? && (SaysInvalid(reply.value, lex) || AnswersSomething(reply.value)))
            && (meant.invalid || !meant.parsed ==> meant.answer == Answer(NO_FILTERS, None, []))
  {
    if reply.Some? {
      assert HasReplyKey(reply.value) <==> AnswersSomething(reply.value) by {
        if AnswersSomething(reply.value) {
          var key :| key in REPLY_KEYS && key in reply.value;
        }
      }
    }
  }
}
