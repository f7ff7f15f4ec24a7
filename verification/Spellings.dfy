/** What placeholders look like: which values some number of a kind spells, and that a kind which
    spells its number out never spells two alike. */
module Spellings {
  import opened Numerals
  import opened Scrub

  predicate Makes(kind: Kind, n: nat, original: Scalar, value: Scalar, rules: Rules) {
    n > 0 && !IsShape(kind, original) && Placeholder(kind, n, original, rules) == value
  }

  /** A value that looks like one of the first `limit` placeholders of some kind. */
  ghost predicate LooksMade(value: Scalar, limit: nat, rules: Rules) {
    exists kind, n: nat, original :: n <= limit && Makes(kind, n, original, value, rules)
  }

  /** A value that looks like a placeholder some kind has made, by the numbers they have reached. */
  ghost predicate MadeWithin(value: Scalar, counts: map<Kind, nat>, rules: Rules) {
    exists kind, n: nat, original :: n <= Count(counts, kind) && Makes(kind, n, original, value, rules)
  }

  // --- kinds that spell their number out -----------------------------------------------------

  /** A position has one placeholder, and digits and hex cut theirs to a width. */
  predicate Spells(kind: Kind) {
    kind != Geo && kind != Digits && kind != Hex
  }

  function Head(kind: Kind): string {
    match kind
    case Uuid => "A1B2C3D4-0000-4000-8000-"
    case Mac => "02:00:00:00:00:"
    case Ipv4 => "203.0.113."
    case Ipv6 => "fe80::"
    case Serial => "LOONMOBILE"
    case Email => "loonuser"
    case User => "loonuser"
    case Person => "Loon User "
    case Phone => "+1-555-01"
    case Secret => "redacted-secret-"
    case _ => "Redacted "
  }

  function Foot(kind: Kind): string {
    if kind == Email then "@example.com" else ""
  }

  function NumberText(kind: Kind, n: nat): string {
    match kind
    case Uuid => Padded(Hexadecimal(n, CAPITALS), 12)
    case Mac => Padded(Hexadecimal(n, CAPITALS), 2)
    case Ipv6 => Hexadecimal(n, NUMERALS)
    case Serial => Padded(Decimal(n), 2)
    case Phone => Padded(Decimal(n), 2)
    case _ => Decimal(n)
  }

  lemma {:induction false} SpelledAs(kind: Kind, n: nat, original: Scalar, rules: Rules)
    requires Spells(kind)
    ensures Placeholder(kind, n, original, rules) == Text(Spelling(kind, n))
  {
    if kind != Email {
      assert Head(kind) + NumberText(kind, n) + "" == Head(kind) + NumberText(kind, n);
    }
  }

  lemma {:induction false} NumberTextTells(kind: Kind, m: nat, n: nat)
    requires NumberText(kind, m) == NumberText(kind, n)
    ensures m == n
  {
    match kind
    case Uuid =>
      PaddedReads(m, Sixteen, CAPITALS, 12);
      PaddedReads(n, Sixteen, CAPITALS, 12);
    case Mac =>
      PaddedReads(m, Sixteen, CAPITALS, 2);
      PaddedReads(n, Sixteen, CAPITALS, 2);
    case Ipv6 =>
      WrittenReads(m, Sixteen, NUMERALS);
      WrittenReads(n, Sixteen, NUMERALS);
    case Serial =>
      PaddedReads(m, Ten, NUMERALS, 2);
      PaddedReads(n, Ten, NUMERALS, 2);
    case Phone =>
      PaddedReads(m, Ten, NUMERALS, 2);
      PaddedReads(n, Ten, NUMERALS, 2);
    case _ =>
      WrittenReads(m, Ten, NUMERALS);
      WrittenReads(n, Ten, NUMERALS);
  }

  lemma {:induction false} SameMiddle(head: string, foot: string, a: string, b: string)
    requires head + a + foot == head + b + foot
    ensures a == b
  {
    assert (head + a + foot)[|head|..|head| + |a|] == a;
    assert (head + b + foot)[|head|..|head| + |b|] == b;
  }

  function Spelling(kind: Kind, n: nat): string {
    Head(kind) + NumberText(kind, n) + Foot(kind)
  }

  /** A kind's first two characters. */
  function Mark(kind: Kind): (char, char) {
    match kind
    case Uuid => ('A', '1')
    case Mac => ('0', '2')
    case Ipv4 => ('2', '0')
    case Ipv6 => ('f', 'e')
    case Serial => ('L', 'O')
    case Email => ('l', 'o')
    case User => ('l', 'o')
    case Person => ('L', 'o')
    case Phone => ('+', '1')
    case Secret => ('r', 'e')
    case _ => ('R', 'e')
  }

  lemma {:induction false} HeadHasMark(kind: Kind)
    ensures |Head(kind)| >= 2 && Mark(kind) == (Head(kind)[0], Head(kind)[1])
  {
  }

  lemma {:induction false} SpellingHasMark(kind: Kind, n: nat)
    ensures |Spelling(kind, n)| >= 2 && Mark(kind) == (Spelling(kind, n)[0], Spelling(kind, n)[1])
  {
    HeadHasMark(kind);
    assert Spelling(kind, n)[0] == Head(kind)[0] && Spelling(kind, n)[1] == Head(kind)[1];
  }

  /** No two kinds share their mark but addresses and user names. */
  lemma {:induction false} MarksTell(kind: Kind, other: Kind)
    requires Spells(kind) && Spells(other) && Mark(kind) == Mark(other)
    ensures kind == other || (kind in {Email, User} && other in {Email, User})
  {
  }

  lemma {:induction false} AddressIsNoUser(m: nat, n: nat)
    ensures Spelling(Email, m) != Spelling(User, n)
  {
    var address, user := Spelling(Email, m), Spelling(User, n);
    WrittenInFigures(n, Ten);
    assert user == Head(User) + Decimal(n);
    assert IsFigure(user[|user| - 1], Ten);
    assert address[|address| - 1] == 'm';
  }

  lemma {:induction false} SpellingTellsKind(kind: Kind, m: nat, other: Kind, n: nat)
    requires Spells(kind) && Spells(other) && Spelling(kind, m) == Spelling(other, n)
    ensures kind == other
  {
    assert Mark(kind) == Mark(other) by {
      SpellingHasMark(kind, m);
      SpellingHasMark(other, n);
    }
    MarksTell(kind, other);
    AddressIsNoUser(m, n);
    AddressIsNoUser(n, m);
  }

  /** A spelled placeholder tells its kind and its number. */
  lemma {:induction false} SpellingTells(
    kind: Kind, m: nat, one: Scalar, other: Kind, n: nat, another: Scalar, rules: Rules)
    requires Spells(kind) && Spells(other)
    requires Placeholder(kind, m, one, rules) == Placeholder(other, n, another, rules)
    ensures kind == other && m == n
  {
    assert Spelling(kind, m) == Spelling(other, n) by {
      SpelledAs(kind, m, one, rules);
      SpelledAs(other, n, another, rules);
    }
    SpellingTellsKind(kind, m, other, n);
    SameMiddle(Head(kind), Foot(kind), NumberText(kind, m), NumberText(kind, n));
    NumberTextTells(kind, m, n);
  }

  /** A position has one placeholder, of the record's own type: a text for a text, a number for a number. */
  lemma {:induction false} PositionsKeepTheirType(n: nat, original: Scalar, rules: Rules)
    ensures original.Text? ==> Placeholder(Geo, n, original, rules) == Text("0.0")
    ensures !original.Text? ==> Placeholder(Geo, n, original, rules) == Number(0.0)
  {
  }

  // --- kinds that do not ---------------------------------------------------------------------

  predicate KeepsWidth(kind: Kind) {
    kind == Digits || kind == Hex
  }

  function BaseOf(kind: Kind): Base
    requires KeepsWidth(kind)
  {
    if kind == Digits then Ten else Sixteen
  }

  /** What digits and hex make: the last figures of their number, as many as the original is wide. */
  lemma {:induction false} WidePlaceholder(kind: Kind, n: nat, original: Scalar, rules: Rules)
    requires KeepsWidth(kind)
    ensures Placeholder(kind, n, original, rules).Text? && Placeholder(kind, n, original, rules).text != ""
    ensures AreFigures(Placeholder(kind, n, original, rules).text, BaseOf(kind))
    ensures rules.render(original) != "" ==>
              Placeholder(kind, n, original, rules).text == Last(n, BaseOf(kind), |rules.render(original)|)
  {
    var width := |rules.render(original)|;
    if width > 0 {
      FittedIsLast(n, BaseOf(kind), width);
      LastAreFigures(n, BaseOf(kind), width);
    } else {
      WrittenInFigures(n, BaseOf(kind));
    }
  }

  /** Where a spelled placeholder has a character that is no figure. */
  function NoFigureAt(kind: Kind): nat {
    match kind
    case Mac => 2
    case Ipv4 => 3
    case Ipv6 => 4
    case _ => 0
  }

  lemma {:induction false} HeadHasNoFigure(kind: Kind)
    requires Spells(kind)
    ensures NoFigureAt(kind) < |Head(kind)| && !IsFigure(Head(kind)[NoFigureAt(kind)], Sixteen)
  {
  }

  lemma {:induction false} SpelledHasNoFigure(kind: Kind, n: nat, original: Scalar, rules: Rules)
    requires Spells(kind)
    ensures Placeholder(kind, n, original, rules).Text?
    ensures !AreFigures(Placeholder(kind, n, original, rules).text, Sixteen)
  {
    HeadHasNoFigure(kind);
    SpelledAs(kind, n, original, rules);
    assert Spelling(kind, n)[NoFigureAt(kind)] == Head(kind)[NoFigureAt(kind)];
  }

  lemma {:induction false} SpelledIsNoOther(
    kind: Kind, m: nat, one: Scalar, other: Kind, n: nat, another: Scalar, rules: Rules)
    requires Spells(kind) && !Spells(other)
    ensures Placeholder(kind, m, one, rules) != Placeholder(other, n, another, rules)
  {
    SpelledHasNoFigure(kind, m, one, rules);
    if KeepsWidth(other) {
      WidePlaceholder(other, n, another, rules);
    } else {
      SpelledAs(kind, m, one, rules);
      SpellingHasMark(kind, m);
      assert "0.0"[1] == '.';
    }
  }

  /** No other kind or number makes a placeholder that spells its number out. */
  lemma {:induction false} SpelledOnce(
    kind: Kind, m: nat, one: Scalar, other: Kind, n: nat, another: Scalar, value: Scalar, rules: Rules)
    requires Spells(kind) && Makes(kind, m, one, value, rules) && Makes(other, n, another, value, rules)
    ensures kind == other && m == n
  {
    if Spells(other) {
      SpellingTells(kind, m, one, other, n, another, rules);
    } else {
      SpelledIsNoOther(kind, m, one, other, n, another, rules);
    }
  }

  /** Digits, or hex, make one placeholder of two numbers exactly when the originals are as wide as one
      another and the numbers agree in as many last figures: each width repeats, and no sooner. */
  lemma {:induction false} WidthsRepeatExactly(kind: Kind, m: nat, one: Scalar, n: nat, another: Scalar, rules: Rules)
    requires KeepsWidth(kind) && rules.render(one) != "" && rules.render(another) != ""
    ensures var width := |rules.render(one)|;
            Placeholder(kind, m, one, rules) == Placeholder(kind, n, another, rules) <==>
            width == |rules.render(another)|
            && m % Power(BaseOf(kind), width) == n % Power(BaseOf(kind), width)
  {
    WidePlaceholder(kind, m, one, rules);
    WidePlaceholder(kind, n, another, rules);
    LastAgreesExactly(m, n, BaseOf(kind), |rules.render(one)|);
  }

  /** A digits placeholder is a hex one exactly when, read as hex, its figures are the last of the hex
      number. */
  lemma {:induction false} DigitsMeetHexExactly(m: nat, one: Scalar, n: nat, another: Scalar, rules: Rules)
    requires rules.render(one) != "" && rules.render(another) != ""
    ensures var width := |rules.render(one)|;
            Placeholder(Digits, m, one, rules) == Placeholder(Hex, n, another, rules) <==>
            width == |rules.render(another)| && Value(Last(m, Ten, width), Sixteen) == n % Power(Sixteen, width)
  {
    var width := |rules.render(one)|;
    WidePlaceholder(Digits, m, one, rules);
    WidePlaceholder(Hex, n, another, rules);
    LastAreFigures(m, Ten, width);
    LastAreFigures(n, Sixteen, width);
    LastReads(n, Sixteen, width);
    FiguresAreOwnLast(Last(m, Ten, width), Sixteen);
    FiguresAreOwnLast(Last(n, Sixteen, width), Sixteen);
  }

  lemma {:induction false} LastOfOne(base: Base)
    ensures Last(1, base, 2) == "01"
  {
    LastOfNone(base, 1);
    assert base.Front(1) == 0 && base.Unit(1) == 1;
    assert Last(1, base, 2) == Zeros(1) + ['1'];
  }

  /** The first number of two figures and the first hex value as wide, "12" and "ab" say, both become "01". */
  lemma {:induction false} FirstPlaceholdersMeet(one: Scalar, another: Scalar, rules: Rules)
    requires |rules.render(one)| == |rules.render(another)| == 2
    ensures Placeholder(Digits, 1, one, rules) == Placeholder(Hex, 1, another, rules) == Text("01")
  {
    WidePlaceholder(Digits, 1, one, rules);
    WidePlaceholder(Hex, 1, another, rules);
    LastOfOne(Ten);
    LastOfOne(Sixteen);
  }
}
