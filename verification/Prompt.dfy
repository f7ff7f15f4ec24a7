/** The way back from a model: a reply object forced into the page's closed vocabulary, the six rules
    after it, and the whole interpretation. What a character is, and the marker words, are parameters. */
module Prompt {
  import opened Prelude
  import opened Sanitise
  import opened Serials
  import opened Texts

  /** A parsed reply, as JSON. */
  datatype Json =
    | JsonNull
    | JsonBool(flag: bool)
    | JsonInt(number: int)
    | JsonFloat(amount: real)
    | JsonText(text: string)
    | JsonList(items: seq<Json>)
    | JsonObject(fields: map<string, Json>)

  type Reply = map<string, Json>

  datatype Control = Search | Artifact

  datatype Repair = Repair(why: Why, widens: bool, control: Option<Control>)

  datatype Why =
    | IgnoredHeld | IgnoredEmpty | NotText | TooLong | NotAName | UnknownLevel | UnknownSection | UnknownChange
    | NoteNotText | NamesAKind | RepeatsTheName | NotInTheQuestion | FilledSerial | NoteWithoutGround | ChangeNeverRecorded

  function Widens(why: Why, control: Option<Control>): Repair {
    Repair(why, true, control)
  }

  function Fixes(why: Why): Repair {
    Repair(why, false, None)
  }

  datatype Filters = Filters(
    q: Option<string>, artifact: Option<string>, level: Option<string>, section: Option<string>,
    change: Option<string>, since: Option<string>)

  const NO_FILTERS := Filters(None, None, None, None, None, None)

  /** The filters, the note and the repairs, as the rules hand them on. */
  datatype Answer = Answer(filters: Filters, note: Option<string>, repairs: seq<Repair>)

  // --- the vocabulary ----------------------------------------------------------------------

  const REPLY_KEYS := {"search", "filter", "level", "section", "change", "unsupported"}
  const REFUSAL_KEY := "invalid"
  const LEVELS := {"low", "normal", "high"}
  const CHANGES := {"added", "removed", "updated", "changed"}
  const ENTRY_CHANGES := {"added", "removed", "updated"}
  const ANY := {"any", "all", "null", "none"}
  const NAME_MAX_CHARS := 64
  const NOTE_MAX_CHARS := 300

  /** The sections by display name and by key, and which hold entries rather than fields. */
  datatype Vocabulary = Vocabulary(sectionByWord: map<string, string>, entrySections: set<string>, generic: set<string>) {
    function Sections(): set<string> {
      sectionByWord.Values
    }
  }

  /** What the program asks of characters and words. */
  datatype Lexicon = Lexicon(
    tables: Tables, lower: string -> string, upper: string -> string, strip: string -> string,
    normal: string -> string, isAlnum: char -> bool, isWord: char -> bool, isNameChar: char -> bool,
    isDigits: string -> bool, toInt: string -> Option<nat>, render: Json -> string,
    hasRange: string -> bool, hasOther: string -> bool)
  {
    /** A serial-shaped word of composed text normalises by itself: no letter of it takes a mark. */
    predicate NormalisesApart(before: string, word: string, after: string) {
      var text := before + word + after;
      tables.IsComposed(text) && Serialish(word) && Stands(before, word, after, text, isWord)
      ==> NormalApart(before, word, after, normal)
    }

    ghost predicate Valid() {
      && tables.Valid()
      && SerialsAreWords(isWord)
      && (forall word :: Serialish(word) ==> upper(word) == word)
      && (forall c :: IsCapital(c) || IsFigure(c) ==> isNameChar(c))
      && (forall before, word, after :: NormalisesApart(before, word, after))
    }
  }

  // --- coercion ----------------------------------------------------------------------------

  predicate HoldsNothing(value: Json) {
    value == JsonNull || value == JsonText("") || value == JsonList([]) || value == JsonObject(map[])
  }

  predicate Refused(reply: Reply, lex: Lexicon) {
    REFUSAL_KEY in reply &&
    var value := reply[REFUSAL_KEY];
    value == JsonBool(true) || (value.JsonText? && lex.lower(lex.strip(value.text)) == "true")
  }

  predicate NotRefused(value: Json, lex: Lexicon) {
    if value.JsonText? then lex.lower(lex.strip(value.text)) in {"", "false"}
    else
      || value == JsonNull || value == JsonBool(false) || value == JsonInt(0)
      || value == JsonList([]) || value == JsonObject(map[])
  }

  /** A key the page does not use. */
  predicate Ignored(reply: Reply, key: string, keys: set<string>, lex: Lexicon) {
    key in reply && key !in keys && !(key == REFUSAL_KEY && NotRefused(reply[key], lex))
  }

  function IgnoredKeys(reply: Reply, keys: set<string>, lex: Lexicon): seq<Repair> {
    (if exists key :: key in reply && Ignored(reply, key, keys, lex) && !HoldsNothing(reply[key])
     then [Widens(IgnoredHeld, None)] else []) +
    (if exists key :: key in reply && Ignored(reply, key, keys, lex) && HoldsNothing(reply[key])
     then [Fixes(IgnoredEmpty)] else [])
  }

  function Given(reply: Reply, key: string): Json {
    if key in reply then reply[key] else JsonNull
  }

  predicate IsName(text: string, lex: Lexicon) {
    forall i :: 0 <= i < |text| ==> lex.isNameChar(text[i])
  }

  /** `whitelisted_name`: the name, or nothing and why. */
  function WhitelistedName(value: Json, control: Control, lex: Lexicon): (Option<string>, seq<Repair>) {
    if value == JsonNull then (None, [])
    else if !value.JsonText? && !value.JsonInt? then (None, [Widens(NotText, Some(control))])
    else
      var text := lex.strip(if value.JsonText? then value.text else lex.render(value));
      if text == "" then (None, [])
      else if |text| > NAME_MAX_CHARS then (None, [Widens(TooLong, Some(control))])
      else if !IsName(text, lex) then (None, [Widens(NotAName, Some(control))])
      else (Some(text), [])
  }

  predicate Falsy(value: Json) {
    HoldsNothing(value) || value == JsonBool(false) || value == JsonFloat(0.0) || value == JsonInt(0)
  }

  /** `str(value or "any").strip().lower()`. */
  function Word(value: Json, lex: Lexicon): string {
    lex.lower(lex.strip(if Falsy(value) then "any" else if value.JsonText? then value.text else lex.render(value)))
  }

  function OneOf(value: Json, words: set<string>, why: Why, lex: Lexicon): (Option<string>, seq<Repair>) {
    var word := Word(value, lex);
    if word in ANY then (None, [])
    else if word in words then (Some(word), [])
    else (None, [Widens(why, None)])
  }

  function SectionOf(value: Json, vocabulary: Vocabulary, lex: Lexicon): (Option<string>, seq<Repair>) {
    var word := Word(value, lex);
    if word in ANY then (None, [])
    else if word in vocabulary.sectionByWord then (Some(vocabulary.sectionByWord[word]), [])
    else (None, [Widens(UnknownSection, None)])
  }

  function NoteOf(value: Json, lex: Lexicon): (Option<string>, seq<Repair>) {
    if value == JsonNull then (None, [])
    else if !value.JsonText? then (None, [Fixes(NoteNotText)])
    else
      var line := Plain(value.text, lex.tables);
      var text := StripRight(line[..Min(|line|, NOTE_MAX_CHARS)], IsBlank);
      if lex.lower(text) in {"", "null", "none"} then (None, []) else (Some(text), [])
  }

  method Coerce(reply: Reply, vocabulary: Vocabulary, lex: Lexicon) returns (answer: Answer)
    ensures answer == Coerced(reply, vocabulary, lex)
  {
    var repairs := IgnoredKeys(reply, REPLY_KEYS, lex);
    var (q, r1) := WhitelistedName(Given(reply, "search"), Search, lex);
    repairs := repairs + r1;
    var (artifact, r2) := WhitelistedName(Given(reply, "filter"), Artifact, lex);
    repairs := repairs + r2;
    var (level, r3) := OneOf(Given(reply, "level"), LEVELS, UnknownLevel, lex);
    repairs := repairs + r3;
    var (section, r4) := SectionOf(Given(reply, "section"), vocabulary, lex);
    repairs := repairs + r4;
    var (change, r5) := OneOf(Given(reply, "change"), CHANGES, UnknownChange, lex);
    repairs := repairs + r5;
    var (note, r6) := NoteOf(Given(reply, "unsupported"), lex);
    repairs := repairs + r6;
    answer := Answer(Filters(q, artifact, level, section, change, None), note, repairs);
  }

  function Coerced(reply: Reply, vocabulary: Vocabulary, lex: Lexicon): Answer {
    var (q, r1) := WhitelistedName(Given(reply, "search"), Search, lex);
    var (artifact, r2) := WhitelistedName(Given(reply, "filter"), Artifact, lex);
    var (level, r3) := OneOf(Given(reply, "level"), LEVELS, UnknownLevel, lex);
    var (section, r4) := SectionOf(Given(reply, "section"), vocabulary, lex);
    var (change, r5) := OneOf(Given(reply, "change"), CHANGES, UnknownChange, lex);
    var (note, r6) := NoteOf(Given(reply, "unsupported"), lex);
    Answer(Filters(q, artifact, level, section, change, None), note,
           IgnoredKeys(reply, REPLY_KEYS, lex) + r1 + r2 + r3 + r4 + r5 + r6)
  }

  // --- the six rules -----------------------------------------------------------------------

  predicate Filled(value: Option<string>) {
    value.Some? && value.value != ""
  }

  function Singular(text: string, lex: Lexicon): string {
    var word := lex.lower(lex.strip(text));
    if |word| > 0 && word[|word| - 1] == 's' && !(|word| > 1 && word[|word| - 2] == 's') then word[..|word| - 1] else word
  }

  predicate IsAKind(text: string, vocabulary: Vocabulary, lex: Lexicon) {
    var word := Singular(text, lex);
    || word in vocabulary.generic || word in vocabulary.sectionByWord
    || exists name :: name in vocabulary.sectionByWord && Singular(name, lex) == word
  }

  predicate Repeats(search: string, name: string, lex: Lexicon) {
    !lex.isDigits(search) && !Serialish(search) && HasPart(lex.lower(search), lex.lower(name))
  }

  function Compacted(text: string, lex: Lexicon): string {
    Compact(text, lex.normal, lex.isAlnum)
  }

  /** A serial-shaped Search that the question does not hold, letters and digits compared. */
  predicate IsInvented(search: string, question: string, lex: Lexicon) {
    Serialish(lex.upper(search)) && !HasPart(Compacted(search, lex), Compacted(question, lex))
  }

  function Unwidened(repairs: seq<Repair>): seq<Repair> {
    seq(|repairs|, i requires 0 <= i < |repairs| =>
      if repairs[i].widens && repairs[i].control == Some(Search) then Fixes(repairs[i].why) else repairs[i])
  }

  predicate NeverRecorded(filters: Filters, vocabulary: Vocabulary) {
    Filled(filters.section) && Filled(filters.change) &&
    if filters.section.value in vocabulary.entrySections then filters.change.value == "changed"
    else filters.change.value in ENTRY_CHANGES
  }

  function DropKind(a: Answer, vocabulary: Vocabulary, lex: Lexicon): Answer {
    if Filled(a.filters.artifact) && IsAKind(a.filters.artifact.value, vocabulary, lex)
    then a.(filters := a.filters.(artifact := None), repairs := a.repairs + [Fixes(NamesAKind)]) else a
  }

  function DropRepeat(a: Answer, lex: Lexicon): Answer {
    if Filled(a.filters.q) && Filled(a.filters.artifact) && Repeats(a.filters.q.value, a.filters.artifact.value, lex)
    then a.(filters := a.filters.(q := None), repairs := a.repairs + [Fixes(RepeatsTheName)]) else a
  }

  function DropInvented(a: Answer, question: string, lex: Lexicon): Answer {
    if Filled(a.filters.q) && IsInvented(a.filters.q.value, question, lex)
    then a.(filters := a.filters.(q := None), repairs := a.repairs + [Widens(NotInTheQuestion, Some(Search))]) else a
  }

  function FillSerial(a: Answer, question: string, lex: Lexicon): Answer {
    var serial := OneSerial(question, lex.isWord);
    if a.filters.q == None && serial.Some?
    then a.(filters := a.filters.(q := serial), repairs := Unwidened(a.repairs) + [Fixes(FilledSerial)]) else a
  }

  function DropNote(a: Answer, question: string, sinceSet: bool, lex: Lexicon): Answer {
    if Filled(a.note) && !lex.hasOther(question) && (sinceSet || !lex.hasRange(question))
    then a.(note := None, repairs := a.repairs + [Fixes(NoteWithoutGround)]) else a
  }

  function DropChange(a: Answer, vocabulary: Vocabulary): Answer {
    if NeverRecorded(a.filters, vocabulary)
    then a.(filters := a.filters.(change := None), repairs := a.repairs + [Fixes(ChangeNeverRecorded)]) else a
  }

  function Guarded(question: string, a: Answer, sinceSet: bool, vocabulary: Vocabulary, lex: Lexicon): Answer {
    DropChange(DropNote(FillSerial(DropInvented(DropRepeat(DropKind(a, vocabulary, lex), lex), question, lex),
                                   question, lex), question, sinceSet, lex), vocabulary)
  }

  /** The six rules, in the order they run, on copies. */
  method Guard(
    question: string, given: Answer, sinceSet: bool, vocabulary: Vocabulary, lex: Lexicon) returns (answer: Answer)
    ensures answer == Guarded(question, given, sinceSet, vocabulary, lex)
  {
    var filters, note, repairs := given.filters, given.note, given.repairs;
    if Filled(filters.artifact) && IsAKind(filters.artifact.value, vocabulary, lex) {
      repairs := repairs + [Fixes(NamesAKind)];
      filters := filters.(artifact := None);
    }
    ghost var first := DropKind(given, vocabulary, lex);
    assert Answer(filters, note, repairs) == first;
    if Filled(filters.q) && Filled(filters.artifact) && Repeats(filters.q.value, filters.artifact.value, lex) {
      repairs := repairs + [Fixes(RepeatsTheName)];
      filters := filters.(q := None);
    }
    ghost var second := DropRepeat(first, lex);
    assert Answer(filters, note, repairs) == second;
    if Filled(filters.q) && IsInvented(filters.q.value, question, lex) {
      repairs := repairs + [Widens(NotInTheQuestion, Some(Search))];
      filters := filters.(q := None);
    }
    ghost var third := DropInvented(second, question, lex);
    assert Answer(filters, note, repairs) == third;
    if filters.q == None {
      var serial := OneSerial(question, lex.isWord);
      if serial.Some? {
        repairs := Unwidened(repairs) + [Fixes(FilledSerial)];
        filters := filters.(q := serial);
      }
    }
    ghost var fourth := FillSerial(third, question, lex);
    assert Answer(filters, note, repairs) == fourth;
    if Filled(note) {
      var datesStand := !sinceSet && lex.hasRange(question);
      if !(lex.hasOther(question) || datesStand) {
        repairs := repairs + [Fixes(NoteWithoutGround)];
        note := None;
      }
    }
    ghost var fifth := DropNote(fourth, question, sinceSet, lex);
    assert Answer(filters, note, repairs) == fifth;
    if Filled(filters.section) && Filled(filters.change) {
      if filters.section.value in vocabulary.entrySections && filters.change.value == "changed" {
        repairs := repairs + [Fixes(ChangeNeverRecorded)];
        filters := filters.(change := None);
      } else if filters.section.value !in vocabulary.entrySections && filters.change.value in ENTRY_CHANGES {
        repairs := repairs + [Fixes(ChangeNeverRecorded)];
        filters := filters.(change := None);
      }
    }
    assert Answer(filters, note, repairs) == DropChange(fifth, vocabulary);
    answer := Answer(filters, note, repairs);
  }
}
