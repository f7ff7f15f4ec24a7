/** What is asked of plain texts in more than one place: letters and figures, parts, white space, and the
    numbers Python reads in them. */
module Texts {
  import opened Prelude

  predicate IsCapital(c: char) {
    'A' <= c <= 'Z'
  }

  predicate IsFigure(c: char) {
    '0' <= c <= '9'
  }

  // --- parts -------------------------------------------------------------------------------

  predicate PartAt(part: string, whole: string, i: nat) {
    i + |part| <= |whole| && part == whole[i..i + |part|]
  }

  predicate HasPart(part: string, whole: string) {
    exists i: nat :: i <= |whole| && PartAt(part, whole, i)
  }

  lemma {:induction false} PartStands(before: string, part: string, after: string)
    ensures HasPart(part, before + part + after)
  {
    assert PartAt(part, before + part + after, |before|);
  }

  // --- the ends ----------------------------------------------------------------------------

  function StripLeft(text: string, isSpace: char -> bool): string {
    if text != [] && isSpace(text[0]) then StripLeft(text[1..], isSpace) else text
  }

  function StripRight(text: string, isSpace: char -> bool): string {
    if text != [] && isSpace(text[|text| - 1]) then StripRight(text[..|text| - 1], isSpace) else text
  }

  function Strip(text: string, isSpace: char -> bool): string {
    StripRight(StripLeft(text, isSpace), isSpace)
  }

  lemma {:induction false} StripRightIsPrefix(text: string, isSpace: char -> bool)
    ensures var stripped := StripRight(text, isSpace);
            stripped <= text && (stripped != [] ==> !isSpace(stripped[|stripped| - 1]))
    ensures (text != [] ==> !isSpace(text[|text| - 1])) ==> StripRight(text, isSpace) == text
  {
    if text != [] && isSpace(text[|text| - 1]) {
      StripRightIsPrefix(text[..|text| - 1], isSpace);
    }
  }

  predicate AreSpaces(text: string, isSpace: char -> bool) {
    forall i :: 0 <= i < |text| ==> isSpace(text[i])
  }

  lemma {:induction false} StripLeftKeeps(text: string, isSpace: char -> bool) returns (lead: string)
    ensures AreSpaces(lead, isSpace) && text == lead + StripLeft(text, isSpace)
    ensures var rest := StripLeft(text, isSpace); rest != [] ==> !isSpace(rest[0])
  {
    lead := [];
    if text != [] && isSpace(text[0]) {
      var more := StripLeftKeeps(text[1..], isSpace);
      lead := [text[0]] + more;
    }
  }

  lemma {:induction false} StripRightKeeps(text: string, isSpace: char -> bool) returns (trail: string)
    ensures AreSpaces(trail, isSpace) && text == StripRight(text, isSpace) + trail
  {
    trail := [];
    if text != [] && isSpace(text[|text| - 1]) {
      var more := StripRightKeeps(text[..|text| - 1], isSpace);
      trail := more + [text[|text| - 1]];
    }
  }

  /** Stripping takes white space from both ends, and all of it. */
  lemma {:induction false} StripKeeps(text: string, isSpace: char -> bool) returns (lead: string, trail: string)
    ensures AreSpaces(lead, isSpace) && AreSpaces(trail, isSpace) && text == lead + Strip(text, isSpace) + trail
    ensures var kept := Strip(text, isSpace); kept != [] ==> !isSpace(kept[0]) && !isSpace(kept[|kept| - 1])
  {
    lead := StripLeftKeeps(text, isSpace);
    trail := StripRightKeeps(StripLeft(text, isSpace), isSpace);
    StripRightIsPrefix(StripLeft(text, isSpace), isSpace);
  }

  // --- numbers -----------------------------------------------------------------------------

  /** What Python makes of a text: which characters are white space, which are digits, and the number
      `int` reads in a run of digits. Some characters are digits that `int` refuses. */
  datatype Python = Python(isSpace: char -> bool, isDigit: char -> bool, toInt: string -> Option<nat>)
  {
    /** `str.isdigit`. */
    predicate AllDigits(text: string) {
      text != [] && forall i :: 0 <= i < |text| ==> isDigit(text[i])
    }

    /** A run of digits that `int` refuses. */
    predicate Refuses(text: string) {
      AllDigits(text) && toInt(text) == None
    }
  }
}
