/** Serial-number-shaped words, and comparing them by letters and digits alone. */
module Serials {
  import opened Prelude
  import opened Texts

  function Capitals(word: string, n: nat): nat
    requires n <= |word|
  {
    if n == 0 then 0 else Capitals(word, n - 1) + if IsCapital(word[n - 1]) then 1 else 0
  }

  function Figures(word: string, n: nat): nat
    requires n <= |word|
  {
    if n == 0 then 0 else Figures(word, n - 1) + if IsFigure(word[n - 1]) then 1 else 0
  }

  /** Eight to fourteen capitals and digits, at least two of each. */
  predicate Serialish(word: string) {
    && 8 <= |word| <= 14
    && (forall i :: 0 <= i < |word| ==> IsCapital(word[i]) || IsFigure(word[i]))
    && Capitals(word, |word|) >= 2 && Figures(word, |word|) >= 2
  }

  /** Two characters, at least, from `low` to `high`. */
  predicate HasTwo(word: string, low: char, high: char) {
    exists i, j :: 0 <= i < j < |word| && low <= word[i] <= high && low <= word[j] <= high
  }

  lemma {:induction false} TwoCapitals(word: string, n: nat)
    requires n <= |word|
    ensures Capitals(word, n) == 0 <==> forall i :: 0 <= i < n ==> !IsCapital(word[i])
    ensures Capitals(word, n) >= 2 <==> exists i, j :: 0 <= i < j < n && IsCapital(word[i]) && IsCapital(word[j])
  {
    if n > 0 {
      TwoCapitals(word, n - 1);
    }
  }

  lemma {:induction false} TwoFigures(word: string, n: nat)
    requires n <= |word|
    ensures Figures(word, n) == 0 <==> forall i :: 0 <= i < n ==> !IsFigure(word[i])
    ensures Figures(word, n) >= 2 <==> exists i, j :: 0 <= i < j < n && IsFigure(word[i]) && IsFigure(word[j])
  {
    if n > 0 {
      TwoFigures(word, n - 1);
    }
  }

  /** A serial-shaped word has from 8 to 14 characters, each a capital or a figure, two of either at least. */
  lemma {:induction false} SerialishExactly(word: string)
    ensures Serialish(word) <==>
            && 8 <= |word| <= 14 && (forall c :: c in word ==> 'A' <= c <= 'Z' || '0' <= c <= '9')
            && HasTwo(word, 'A', 'Z') && HasTwo(word, '0', '9')
  {
    TwoCapitals(word, |word|);
    TwoFigures(word, |word|);
    assert forall i :: 0 <= i < |word| ==> word[i] in word;
  }

  // --- the words of a question -------------------------------------------------------------

  /** How many word characters a text begins with. */
  function WordLength(text: string, isWord: char -> bool): (length: nat)
    ensures length <= |text|
  {
    if text == [] || !isWord(text[0]) then 0 else 1 + WordLength(text[1..], isWord)
  }

  /** The serial-shaped words of a text: each longest run of word characters, in order. */
  function SerialsOf(text: string, isWord: char -> bool): seq<string>
    decreases |text|
  {
    if text == [] then []
    else
      var length := WordLength(text, isWord);
      if length == 0 then SerialsOf(text[1..], isWord)
      else (if Serialish(text[..length]) then [text[..length]] else []) + SerialsOf(text[length..], isWord)
  }

  /** The one serial-shaped word of a question, if there is exactly one. */
  function OneSerial(question: string, isWord: char -> bool): Option<string> {
    var found := SerialsOf(question, isWord);
    if |found| == 1 then Some(found[0]) else None
  }

  predicate Starts(text: string, isWord: char -> bool) {
    text != [] && isWord(text[0])
  }

  predicate Ends(text: string, isWord: char -> bool) {
    text != [] && isWord(text[|text| - 1])
  }

  /** The word stands in the text between two word boundaries. */
  predicate Stands(before: string, word: string, after: string, text: string, isWord: char -> bool) {
    text == before + word + after && !Ends(before, isWord) && !Starts(after, isWord)
  }

  ghost predicate HasWord(text: string, word: string, isWord: char -> bool) {
    exists before, after :: Stands(before, word, after, text, isWord)
  }

  ghost predicate SerialsAreWords(isWord: char -> bool) {
    forall c :: IsCapital(c) || IsFigure(c) ==> isWord(c)
  }

  lemma {:induction false} WordLengthStops(text: string, isWord: char -> bool)
    ensures forall i :: 0 <= i < WordLength(text, isWord) ==> isWord(text[i])
    ensures !Starts(text[WordLength(text, isWord)..], isWord)
  {
    if text != [] && isWord(text[0]) {
      WordLengthStops(text[1..], isWord);
      assert text[1..][WordLength(text[1..], isWord)..] == text[WordLength(text, isWord)..];
    }
  }

  lemma {:induction false} HasWordAfter(head: string, rest: string, word: string, isWord: char -> bool)
    requires HasWord(rest, word, isWord) && word != [] && isWord(word[0])
    requires Ends(head, isWord) ==> !Starts(rest, isWord)
    ensures HasWord(head + rest, word, isWord)
  {
    var before, after :| Stands(before, word, after, rest, isWord);
    assert head + rest == (head + before) + word + after;
    if before == [] {
      assert rest[0] == word[0];
      assert head + before == head;
    } else {
      assert (head + before)[|head + before| - 1] == before[|before| - 1];
    }
    assert Stands(head + before, word, after, head + rest, isWord);
  }

  lemma {:induction false} HeadStands(text: string, head: string, rest: string, isWord: char -> bool)
    requires text == head + rest && head != [] && !Starts(rest, isWord)
    requires forall i :: 0 <= i < |head| ==> isWord(head[i])
    ensures HasWord(text, head, isWord)
  {
    assert text == [] + head + rest;
    assert Stands([], head, rest, text, isWord);
  }

  /** What is found is serial-shaped and stands in the text as a word. */
  lemma {:induction false} SerialsStand(text: string, isWord: char -> bool, i: nat)
    requires i < |SerialsOf(text, isWord)| && SerialsAreWords(isWord)
    ensures Serialish(SerialsOf(text, isWord)[i]) && HasWord(text, SerialsOf(text, isWord)[i], isWord)
    decreases |text|
  {
    var length, found := WordLength(text, isWord), SerialsOf(text, isWord)[i];
    WordLengthStops(text, isWord);
    var head, rest := SplitOff(text, if length == 0 then 1 else length);
    var first := if Serialish(head) then [head] else [];
    if length == 0 {
      SerialsStand(rest, isWord, i);
      HasWordAfter(head, rest, found, isWord);
    } else if i < |first| {
      HeadStands(text, head, rest, isWord);
    } else {
      SerialsStand(rest, isWord, i - |first|);
      HasWordAfter(head, rest, found, isWord);
    }
  }

  lemma {:induction false} SplitOff(text: string, k: nat) returns (head: string, rest: string)
    requires k <= |text|
    ensures head == text[..k] && rest == text[k..] && text == head + rest
  {
    head, rest := text[..k], text[k..];
  }

  lemma {:induction false} WordLengthOf(word: string, after: string, isWord: char -> bool)
    requires forall i :: 0 <= i < |word| ==> isWord(word[i])
    requires !Starts(after, isWord)
    ensures WordLength(word + after, isWord) == |word|
  {
    if word == [] {
      assert word + after == after;
    } else {
      WordLengthOf(word[1..], after, isWord);
      assert (word + after)[1..] == word[1..] + after;
    }
  }

  lemma {:induction false} SplitsAfter(before: string, word: string, after: string, k: nat)
    requires k <= |before|
    ensures (before + word + after)[k..] == before[k..] + word + after
  {
    assert before + word + after == before[..k] + (before[k..] + word + after);
  }

  /** Every serial-shaped word that stands in the text is found. */
  lemma {:induction false} StandingSerialsAreFound(
    before: string, word: string, after: string, text: string, isWord: char -> bool)
    requires SerialsAreWords(isWord) && Serialish(word) && Stands(before, word, after, text, isWord)
    ensures word in SerialsOf(text, isWord)
    decreases |text|
  {
    var length := WordLength(text, isWord);
    WordLengthStops(text, isWord);
    if before == [] {
      assert text == word + after;
      WordLengthOf(word, after, isWord);
      assert text[..length] == word;
    } else {
      assert text[|before| - 1] == before[|before| - 1];
      assert length < |before|;
      var skipped := if length == 0 then 1 else length;
      SplitsAfter(before, word, after, skipped);
      StandingSerialsAreFound(before[skipped..], word, after, text[skipped..], isWord);
    }
  }

  // --- letters and digits only -------------------------------------------------------------

  function KeepAlnum(text: string, isAlnum: char -> bool): string {
    if text == [] then [] else (if isAlnum(text[0]) then [text[0]] else []) + KeepAlnum(text[1..], isAlnum)
  }

  /** The letters and digits of the normalised text. */
  function Compact(text: string, normal: string -> string, isAlnum: char -> bool): string {
    KeepAlnum(normal(text), isAlnum)
  }

  /** The word normalises by itself where it stands. */
  predicate NormalApart(before: string, word: string, after: string, normal: string -> string) {
    normal(before + word + after) == normal(before) + normal(word) + normal(after)
  }

  lemma {:induction false} JoinsAssociate(a: string, b: string, c: string)
    ensures a + (b + c) == (a + b) + c
  {
  }

  lemma {:induction false} KeepAlnumJoins(a: string, b: string, isAlnum: char -> bool)
    ensures KeepAlnum(a + b, isAlnum) == KeepAlnum(a, isAlnum) + KeepAlnum(b, isAlnum)
  {
    if a == [] {
      assert a + b == b;
    } else {
      var first: string, rest := if isAlnum(a[0]) then [a[0]] else [], KeepAlnum(a[1..], isAlnum);
      assert (a + b)[1..] == a[1..] + b && (a + b)[0] == a[0];
      assert KeepAlnum(a[1..] + b, isAlnum) == rest + KeepAlnum(b, isAlnum) by {
        KeepAlnumJoins(a[1..], b, isAlnum);
      }
      JoinsAssociate(first, rest, KeepAlnum(b, isAlnum));
    }
  }

  /** A word that normalises by itself is a part of its text when only letters and digits are compared. */
  lemma {:induction false} CompactOccurs(
    before: string, word: string, after: string, normal: string -> string, isAlnum: char -> bool)
    requires NormalApart(before, word, after, normal)
    ensures HasPart(Compact(word, normal, isAlnum), Compact(before + word + after, normal, isAlnum))
  {
    KeepAlnumJoins(normal(before) + normal(word), normal(after), isAlnum);
    KeepAlnumJoins(normal(before), normal(word), isAlnum);
    PartStands(Compact(before, normal, isAlnum), Compact(word, normal, isAlnum), Compact(after, normal, isAlnum));
  }
}
