/** The way in: a typed question made one plain line, without a model's control tokens, and short.
    The character tables are a parameter. */
module Sanitise {
  import opened Prelude
  import opened OnePass
  import opened Texts

  /** What the program asks of Unicode: is a character whitespace, is it one of the dropped categories
      (control, format, surrogate), which letter does it stand for when case is ignored; and how is a
      text written in normalisation form C. */
  datatype Tables = Tables(
    isSpace: char -> bool, isDropped: char -> bool, fold: char -> char, compose: string -> string) {

    predicate IsVisible(text: string) {
      forall i :: 0 <= i < |text| ==> !isDropped(text[i]) && (isSpace(text[i]) ==> text[i] == ' ')
    }

    predicate IsComposed(text: string) {
      compose(text) == text
    }

    /** The form is one, makes no hidden character and no other whitespace of visible text. */
    predicate ComposesVisible(text: string) {
      IsComposed(compose(text)) && (IsVisible(text) ==> IsVisible(compose(text)))
    }

    /** Parts of composed text are composed, and what a space parts is composed apart. */
    predicate ComposesParts(a: string, b: string) {
      && (IsComposed(a + b) ==> IsComposed(a) && IsComposed(b))
      && compose(a + [' '] + b) == compose(a) + [' '] + compose(b)
    }

    /** The space is whitespace, is never dropped, and is no letter's other case. */
    ghost predicate Valid() {
      && isSpace(' ') && !isDropped(' ')
      && (forall c :: fold(c) == fold(' ') ==> c == ' ')
      && (forall text :: ComposesVisible(text))
      && (forall a, b :: ComposesParts(a, b))
    }
  }

  const MAX_QUESTION_CHARS := 500

  // --- one plain line ----------------------------------------------------------------------

  /** The first `n` characters as `_plain` keeps them: whitespace as a space, dropped ones gone. */
  function Visible(text: string, tables: Tables, n: nat): string
    requires n <= |text|
  {
    if n == 0 then []
    else
      var earlier, c := Visible(text, tables, n - 1), text[n - 1];
      if tables.isSpace(c) then earlier + [' '] else if tables.isDropped(c) then earlier else earlier + [c]
  }

  function Plain(text: string, tables: Tables): string {
    Tidy(tables.compose(Visible(text, tables, |text|)), false, false)
  }

  method PlainLine(text: string, tables: Tables) returns (line: string)
    ensures line == Plain(text, tables)
  {
    var kept: string := [];
    for i := 0 to |text|
      invariant kept == Visible(text, tables, i)
    {
      if tables.isSpace(text[i]) {
        kept := kept + [' '];
      } else if !tables.isDropped(text[i]) {
        kept := kept + [text[i]];
      }
    }
    line := Tidy(tables.compose(kept), false, false);
  }

  lemma {:induction false} VisibleOfPrefix(text: string, more: string, tables: Tables, n: nat)
    requires n <= |text|
    ensures Visible(text + more, tables, n) == Visible(text, tables, n)
  {
    if n > 0 {
      VisibleOfPrefix(text, more, tables, n - 1);
    }
  }

  lemma {:induction false} VisibleJoins(text: string, more: string, tables: Tables, n: nat)
    requires n <= |more|
    ensures Visible(text + more, tables, |text| + n) == Visible(text, tables, |text|) + Visible(more, tables, n)
  {
    if n == 0 {
      VisibleOfPrefix(text, more, tables, |text|);
    } else {
      VisibleJoins(text, more, tables, n - 1);
    }
  }

  lemma {:induction false} VisibleOfThree(text: string, before: string, c: char, after: string, tables: Tables)
    requires text == before + [c] + after
    ensures Visible(text, tables, |text|)
         == Visible(before, tables, |before|) + Visible([c], tables, 1) + Visible(after, tables, |after|)
  {
    VisibleJoins(before + [c], after, tables, |after|);
    VisibleJoins(before, [c], tables, 1);
  }

  /** Whatever whitespace parts two texts, a tab or a line end as much as a space, they stay parted, by one
      space, where both hold a word; and a dropped character leaves nothing behind. */
  lemma {:induction false} WhitespaceParts(before: string, c: char, after: string, tables: Tables)
    requires tables.Valid()
    ensures tables.isSpace(c) ==>
              Plain(before + [c] + after, tables) == Glued(Plain(before, tables), Plain(after, tables))
    ensures !tables.isSpace(c) && tables.isDropped(c) ==> Plain(before + [c] + after, tables) == Plain(before + after, tables)
  {
    var text := before + [c] + after;
    VisibleOfThree(text, before, c, after, tables);
    assert Visible([c], tables, 0) == [];
    var first, second := Visible(before, tables, |before|), Visible(after, tables, |after|);
    if tables.isSpace(c) {
      assert Visible([c], tables, 1) == [' '];
      assert Visible(text, tables, |text|) == first + [' '] + second;
      assert tables.ComposesParts(first, second);
      TidyGlues(tables.compose(first), tables.compose(second));
    } else if tables.isDropped(c) {
      VisibleJoins(before, after, tables, |after|);
      assert first + [] + second == first + second;
    }
  }

  // --- control tokens ----------------------------------------------------------------------

  const BARS := {'|', '\U{FF5C}'}

  /** The tokens that are fixed strings, letters in any case. */
  const FIXED: seq<string> := [
    "[INST]", "[/INST]", "<<SYS>>", "<</SYS>>", "<s>", "</s>", "<think>", "</think>", "<start_of_turn>", "<end_of_turn>"
  ]

  predicate Begins(text: string, fixed: string, tables: Tables) {
    |fixed| <= |text| && forall i :: 0 <= i < |fixed| ==> tables.fold(text[i]) == tables.fold(fixed[i])
  }

  /** The length of the first of the fixed tokens, from the `k`-th on, that begins a text; 0 for none. */
  function FixedLength(text: string, tables: Tables, k: nat): (length: nat)
    requires k <= |FIXED|
    ensures length <= |text|
    decreases |FIXED| - k
  {
    if k == |FIXED| then 0
    else if Begins(text, FIXED[k], tables) then |FIXED[k]|
    else FixedLength(text, tables, k + 1)
  }

  /** How many characters from `i` on are neither whitespace nor one a token is bounded by. */
  function InnerLength(text: string, tables: Tables, i: nat): (length: nat)
    requires i <= |text|
    ensures i + length <= |text|
    decreases |text| - i
  {
    if i < |text| && !tables.isSpace(text[i]) && text[i] !in BARS + {'<', '>'} then 1 + InnerLength(text, tables, i + 1) else 0
  }

  /** The length of a token between bars, `<|...|>`, that begins a text; 0 for none. */
  function BarredLength(text: string, tables: Tables): (length: nat)
    ensures length <= |text|
  {
    if |text| < 2 || text[0] != '<' || text[1] !in BARS then 0
    else
      var end := 2 + InnerLength(text, tables, 2);
      if end + 1 < |text| && text[end] in BARS && text[end + 1] == '>' then end + 2 else 0
  }

  /** The length of the control token that begins a text; 0 for none. */
  function TokenLength(text: string, tables: Tables): (length: nat)
    ensures length <= |text|
  {
    var barred := BarredLength(text, tables);
    if barred > 0 then barred else FixedLength(text, tables, 0)
  }

  function Scanner(tables: Tables): Scan {
    (text: string) => TokenLength(text, tables)
  }

  function PlainText(text: string, tables: Tables): string
    requires tables.Valid()
  {
    ScannerScans(tables);
    Tidy(Without(Plain(text, tables), Scanner(tables)), false, false)
  }

  predicate IsBlank(c: char) {
    c == ' '
  }

  function SanitiseQuestion(text: string, tables: Tables): string
    requires tables.Valid()
  {
    var plain := PlainText(text, tables);
    StripRight(plain[..Min(|plain|, MAX_QUESTION_CHARS)], IsBlank)
  }

  // --- what a clean line is ----------------------------------------------------------------

  /** Visible text in normalisation form C. */
  function Plainness(tables: Tables): string -> bool {
    (text: string) => tables.IsVisible(text) && tables.IsComposed(text)
  }

  predicate IsClean(text: string, tables: Tables) {
    && tables.IsVisible(text) && tables.IsComposed(text)
    && IsTidy(text) && NoTokens(text, Scanner(tables)) && |text| <= MAX_QUESTION_CHARS
  }

  // --- tokens hold no space ----------------------------------------------------------------

  lemma {:induction false} InnerIsSpaceless(text: string, tables: Tables, i: nat)
    requires i <= |text| && tables.Valid()
    ensures Spaceless(text[i..i + InnerLength(text, tables, i)])
    decreases |text| - i
  {
    if i < |text| && InnerLength(text, tables, i) > 0 {
      InnerIsSpaceless(text, tables, i + 1);
      var length := InnerLength(text, tables, i + 1);
      assert text[i..i + 1 + length] == [text[i]] + text[i + 1..i + 1 + length];
    }
  }

  /** The same stretch measures the same in any text that goes on from it. */
  lemma {:induction false} InnerOfPrefix(short: string, long: string, tables: Tables, i: nat)
    requires short <= long && i <= |short|
    requires i + InnerLength(short, tables, i) < |short|
    ensures InnerLength(long, tables, i) == InnerLength(short, tables, i)
    decreases |short| - i
  {
    assert long[i] == short[i];
    if InnerLength(short, tables, i) > 0 {
      InnerOfPrefix(short, long, tables, i + 1);
    }
  }

  lemma {:induction false} BarredIsSpaceless(text: string, tables: Tables)
    requires tables.Valid()
    ensures Spaceless(text[..BarredLength(text, tables)])
  {
    if BarredLength(text, tables) > 0 {
      InnerIsSpaceless(text, tables, 2);
      var end := 2 + InnerLength(text, tables, 2);
      assert text[..end + 2] == text[..2] + text[2..end] + text[end..end + 2];
    }
  }

  lemma {:induction false} FixedIsSpaceless(text: string, tables: Tables, k: nat)
    requires k <= |FIXED| && tables.Valid()
    ensures Spaceless(text[..FixedLength(text, tables, k)])
    decreases |FIXED| - k
  {
    if k < |FIXED| {
      var fixed := FIXED[k];
      if Begins(text, fixed, tables) {
        assert Spaceless(fixed);
        forall i | 0 <= i < |fixed| ensures text[i] != ' ' {
          assert fixed[i] != ' ' && tables.fold(text[i]) == tables.fold(fixed[i]);
        }
      } else {
        FixedIsSpaceless(text, tables, k + 1);
      }
    }
  }

  lemma {:induction false} TokenIsSpaceless(text: string, tables: Tables)
    requires tables.Valid()
    ensures Spaceless(text[..TokenLength(text, tables)])
  {
    BarredIsSpaceless(text, tables);
    FixedIsSpaceless(text, tables, 0);
  }

  lemma {:induction false} FixedOfPrefix(short: string, long: string, tables: Tables, k: nat)
    requires short <= long && k <= |FIXED| && FixedLength(short, tables, k) > 0
    ensures FixedLength(long, tables, k) > 0
    decreases |FIXED| - k
  {
    if k < |FIXED| {
      assert FIXED[k] != [];
      if Begins(short, FIXED[k], tables) {
        assert Begins(long, FIXED[k], tables);
      } else if !Begins(long, FIXED[k], tables) {
        FixedOfPrefix(short, long, tables, k + 1);
      }
    }
  }

  lemma {:induction false} BarredOfPrefix(short: string, long: string, tables: Tables)
    requires short <= long && BarredLength(short, tables) > 0
    ensures BarredLength(long, tables) > 0
  {
    InnerOfPrefix(short, long, tables, 2);
    assert forall i :: 0 <= i < |short| ==> long[i] == short[i];
  }

  /** What begins with a token still does, however the text goes on. */
  lemma {:induction false} TokenOfPrefix(short: string, long: string, tables: Tables)
    requires short <= long && TokenLength(short, tables) > 0
    ensures TokenLength(long, tables) > 0
  {
    if BarredLength(short, tables) > 0 {
      BarredOfPrefix(short, long, tables);
    } else {
      FixedOfPrefix(short, long, tables, 0);
    }
  }

  /** A token is itself a token with nothing after it. */
  lemma {:induction false} TokenAlone(text: string, tables: Tables)
    requires TokenLength(text, tables) > 0
    ensures TokenLength(text[..TokenLength(text, tables)], tables) > 0
  {
    var barred := BarredLength(text, tables);
    if barred > 0 {
      BarredAlone(text, tables);
    } else {
      FixedAlone(text, tables, 0);
    }
  }

  lemma {:induction false} InnerAlone(text: string, tables: Tables, i: nat, n: nat)
    requires i <= |text| && i + InnerLength(text, tables, i) < n <= |text|
    ensures InnerLength(text[..n], tables, i) == InnerLength(text, tables, i)
    decreases |text| - i
  {
    if InnerLength(text, tables, i) > 0 {
      InnerAlone(text, tables, i + 1, n);
    }
  }

  lemma {:induction false} BarredAlone(text: string, tables: Tables)
    requires BarredLength(text, tables) > 0
    ensures TokenLength(text[..BarredLength(text, tables)], tables) > 0
  {
    var length := BarredLength(text, tables);
    InnerAlone(text, tables, 2, length);
    var token := text[..length];
    assert BarredLength(token, tables) == length;
  }

  lemma {:induction false} FixedAlone(text: string, tables: Tables, k: nat)
    requires k <= |FIXED| && FixedLength(text, tables, k) > 0
    ensures FixedLength(text[..FixedLength(text, tables, k)], tables, k) > 0
    decreases |FIXED| - k
  {
    var length := FixedLength(text, tables, k);
    if k < |FIXED| {
      assert FIXED[k] != [];
      if Begins(text, FIXED[k], tables) {
        assert Begins(text[..length], FIXED[k], tables);
      } else if !Begins(text[..length], FIXED[k], tables) {
        FixedAlone(text, tables, k + 1);
      }
    }
  }

  /** The scanner for control tokens finds what one pass can take out. */
  lemma {:induction false} ScannerScans(tables: Tables)
    requires tables.Valid()
    ensures Scans(Scanner(tables))
  {
    var scan := Scanner(tables);
    forall text ensures ScansAt(scan, text) {
      TokenIsSpaceless(text, tables);
      if scan(text) > 0 {
        TokenAlone(text, tables);
      }
    }
    forall short, long ensures Extends(scan, short, long) {
      if short <= long && scan(short) > 0 {
        TokenOfPrefix(short, long, tables);
      }
    }
  }

  // --- which tokens there are ----------------------------------------------------------------

  /** A character a barred token may hold between its bars. */
  predicate IsInner(c: char, tables: Tables) {
    !tables.isSpace(c) && c !in {'|', '\U{FF5C}', '<', '>'}
  }

  /** `<|...|>`, with either bar on either side. */
  predicate IsBarred(token: string, tables: Tables) {
    && |token| >= 4 && token[0] == '<' && token[1] in {'|', '\U{FF5C}'}
    && token[|token| - 2] in {'|', '\U{FF5C}'} && token[|token| - 1] == '>'
    && forall i :: 2 <= i < |token| - 2 ==> IsInner(token[i], tables)
  }

  const TEN: set<string> := {
    "[INST]", "[/INST]", "<<SYS>>", "<</SYS>>", "<s>", "</s>", "<think>", "</think>", "<start_of_turn>", "<end_of_turn>"
  }

  /** One of the ten fixed tokens, letters in any case. */
  ghost predicate IsFixed(token: string, tables: Tables) {
    exists fixed :: fixed in TEN && Spells(token, fixed, tables)
  }

  predicate Spells(token: string, fixed: string, tables: Tables) {
    |token| == |fixed| && forall i :: 0 <= i < |fixed| ==> tables.fold(token[i]) == tables.fold(fixed[i])
  }

  lemma {:induction false} InnerExactly(text: string, tables: Tables, i: nat)
    requires i <= |text|
    ensures forall k :: i <= k < i + InnerLength(text, tables, i) ==> IsInner(text[k], tables)
    ensures var end := i + InnerLength(text, tables, i); end < |text| ==> !IsInner(text[end], tables)
    decreases |text| - i
  {
    if i < |text| && InnerLength(text, tables, i) > 0 {
      InnerExactly(text, tables, i + 1);
    }
  }

  lemma {:induction false} BarredExactly(text: string, tables: Tables, n: nat)
    requires n <= |text|
    ensures IsBarred(text[..n], tables) <==> n > 0 && BarredLength(text, tables) == n
  {
    if |text| >= 2 {
      InnerExactly(text, tables, 2);
      var end, token := 2 + InnerLength(text, tables, 2), text[..n];
      if IsBarred(token, tables) {
        assert forall i :: 2 <= i < n - 2 ==> IsInner(text[i], tables) by {
          assert forall i :: 2 <= i < n - 2 ==> text[i] == token[i];
        }
        assert text[n - 2] == token[n - 2] && text[n - 1] == token[n - 1];
        assert !IsInner(text[n - 2], tables);
        assert end == n - 2;
      }
    }
  }

  lemma {:induction false} FixedExactly(text: string, tables: Tables, k: nat)
    requires k <= |FIXED|
    ensures var n := FixedLength(text, tables, k);
            if n == 0 then forall j :: k <= j < |FIXED| ==> !Begins(text, FIXED[j], tables)
            else exists j :: k <= j < |FIXED| && Begins(text, FIXED[j], tables) && n == |FIXED[j]|
    decreases |FIXED| - k
  {
    if k < |FIXED| {
      assert FIXED[k] != [];
      FixedExactly(text, tables, k + 1);
    }
  }

  lemma {:induction false} FixedAreTen()
    ensures forall fixed :: fixed in TEN <==> exists j :: 0 <= j < |FIXED| && FIXED[j] == fixed
  {
    assert FIXED[0] in TEN && FIXED[1] in TEN && FIXED[2] in TEN && FIXED[3] in TEN && FIXED[4] in TEN;
    assert FIXED[5] in TEN && FIXED[6] in TEN && FIXED[7] in TEN && FIXED[8] in TEN && FIXED[9] in TEN;
  }

  lemma {:induction false} FixedIsListed(text: string, tables: Tables, n: nat)
    requires n <= |text| && forall fixed :: fixed in TEN <==> exists j :: 0 <= j < |FIXED| && FIXED[j] == fixed
    ensures IsFixed(text[..n], tables) <==> exists j :: 0 <= j < |FIXED| && |FIXED[j]| == n && Begins(text, FIXED[j], tables)
  {
    forall fixed ensures Spells(text[..n], fixed, tables) <==> |fixed| == n && Begins(text, fixed, tables) {
    }
    if IsFixed(text[..n], tables) {
      var fixed :| fixed in TEN && Spells(text[..n], fixed, tables);
      var j :| 0 <= j < |FIXED| && FIXED[j] == fixed;
      assert Begins(text, FIXED[j], tables);
    }
    if j :| 0 <= j < |FIXED| && |FIXED[j]| == n && Begins(text, FIXED[j], tables) {
      assert FIXED[j] in TEN && Spells(text[..n], FIXED[j], tables);
    }
  }

  /** A text begins with a control token exactly when some first part of it is one, barred or fixed; and
      what is taken out is such a part. */
  lemma {:induction false} TokensExactly(text: string, tables: Tables)
    ensures var n := TokenLength(text, tables);
            if n == 0 then forall m: nat :: m <= |text| ==> !IsBarred(text[..m], tables) && !IsFixed(text[..m], tables)
            else IsBarred(text[..n], tables) || IsFixed(text[..n], tables)
  {
    var n := TokenLength(text, tables);
    FixedExactly(text, tables, 0);
    FixedAreTen();
    forall m: nat | m <= |text|
      ensures IsBarred(text[..m], tables) <==> m > 0 && BarredLength(text, tables) == m
      ensures IsFixed(text[..m], tables) <==> exists j :: 0 <= j < |FIXED| && |FIXED[j]| == m && Begins(text, FIXED[j], tables)
    {
      BarredExactly(text, tables, m);
      FixedIsListed(text, tables, m);
    }
  }

  // --- the whole way in --------------------------------------------------------------------

  lemma {:induction false} VisibleIsVisible(text: string, tables: Tables, n: nat)
    requires tables.Valid() && n <= |text|
    ensures tables.IsVisible(Visible(text, tables, n))
    ensures tables.IsVisible(text) ==> Visible(text, tables, n) == text[..n]
  {
    if n > 0 {
      VisibleIsVisible(text, tables, n - 1);
      assert text[..n] == text[..n - 1] + [text[n - 1]];
    }
  }

  lemma {:induction false} PlainnessCarries(tables: Tables)
    requires tables.Valid()
    ensures Carries(Plainness(tables))
  {
    forall a, b ensures CarriesAt(Plainness(tables), a, b) {
      assert tables.ComposesParts(a, b);
      VisibleParts(a, b, tables);
    }
  }

  lemma {:induction false} VisibleParts(a: string, b: string, tables: Tables)
    requires tables.Valid()
    ensures tables.IsVisible(a + b) ==> tables.IsVisible(a) && tables.IsVisible(b)
    ensures tables.IsVisible(a) && tables.IsVisible(b) ==> tables.IsVisible(a + " " + b)
  {
    assert forall i :: 0 <= i < |a| ==> a[i] == (a + b)[i];
    assert forall i :: 0 <= i < |b| ==> b[i] == (a + b)[|a| + i];
  }

  lemma {:induction false} PlainTextIsPlain(text: string, tables: Tables)
    requires tables.Valid()
    ensures var plain := PlainText(text, tables);
            Plainness(tables)(plain) && IsTidy(plain) && NoTokens(plain, Scanner(tables))
  {
    var visible, scan := Visible(text, tables, |text|), Scanner(tables);
    ScannerScans(tables);
    PlainnessCarries(tables);
    VisibleIsVisible(text, tables, |text|);
    assert tables.ComposesVisible(visible);
    TidyCarries(tables.compose(visible), Plainness(tables));
    var line := Plain(text, tables);
    assert [] + line == line;
    WithoutCarries([], line, scan, Plainness(tables));
    WithoutHasNone(line, scan);
    TidyCarries(Without(line, scan), Plainness(tables));
    TidyMakesNone(Without(line, scan), false, false, scan);
    TidyExactly(Without(line, scan));
  }

  /** What begins a plain text and does not end in a space is plain too. */
  lemma {:induction false} PlainPrefix(plain: string, n: nat, tables: Tables)
    requires tables.Valid() && n <= |plain| && (n > 0 ==> plain[n - 1] != ' ')
    requires Plainness(tables)(plain) && IsTidy(plain) && NoTokens(plain, Scanner(tables))
    ensures Plainness(tables)(plain[..n]) && IsTidy(plain[..n]) && NoTokens(plain[..n], Scanner(tables))
  {
    PlainnessCarries(tables);
    assert plain == plain[..n] + plain[n..];
    CarriesParts(Plainness(tables), plain[..n], plain[n..]);
    ScannerScans(tables);
    NoTokensOfPrefix(plain, n, Scanner(tables));
  }

  /** Whatever was typed, what leaves is one tidy line of visible text in normalisation form C, holds no
      control token of any family, and is at most 500 characters. */
  lemma {:induction false} SanitisedIsClean(text: string, tables: Tables)
    requires tables.Valid()
    ensures IsClean(SanitiseQuestion(text, tables), tables) && |SanitiseQuestion(text, tables)| <= 500
  {
    PlainTextIsPlain(text, tables);
    var plain := PlainText(text, tables);
    var cut := plain[..Min(|plain|, MAX_QUESTION_CHARS)];
    StripRightIsPrefix(cut, IsBlank);
    var r := StripRight(cut, IsBlank);
    assert r == plain[..|r|];
    PlainPrefix(plain, |r|, tables);
  }

  /** A question is left as it is exactly when it is clean already, so sanitising twice changes nothing
      the second time. */
  lemma {:induction false} SanitiseExactly(text: string, tables: Tables)
    requires tables.Valid()
    ensures SanitiseQuestion(text, tables) == text <==> IsClean(text, tables)
    ensures SanitiseQuestion(SanitiseQuestion(text, tables), tables) == SanitiseQuestion(text, tables)
  {
    SanitisedIsClean(text, tables);
    CleanStays(SanitiseQuestion(text, tables), tables);
    if IsClean(text, tables) {
      CleanStays(text, tables);
    }
  }

  lemma {:induction false} CleanStays(text: string, tables: Tables)
    requires tables.Valid() && IsClean(text, tables)
    ensures SanitiseQuestion(text, tables) == text
  {
    VisibleIsVisible(text, tables, |text|);
    assert text[..|text|] == text;
    TidyExactly(text);
    ScannerScans(tables);
    WithoutNothing(text, Scanner(tables));
    StripRightIsPrefix(text, IsBlank);
  }
}
