/** Numbers as the scrubber writes them: figures of a base, padded with zeros, or cut to a width; and
    what a text of figures says. */
module Numerals {
  const NUMERALS := "0123456789abcdef"
  const CAPITALS := "0123456789ABCDEF"

  datatype Base = Ten | Sixteen
  {
    function Size(): nat {
      match this
      case Ten => 10
      case Sixteen => 16
    }

    function Times(n: nat): nat {
      match this
      case Ten => 10 * n
      case Sixteen => 16 * n
    }

    /** A number without its last figure, and that figure. */
    function Front(n: nat): (front: nat)
      ensures n > 0 ==> front < n
      ensures n == Times(front) + Unit(n)
      ensures n < Size() ==> front == 0
    {
      match this
      case Ten => n / 10
      case Sixteen => n / 16
    }

    function Unit(n: nat): (unit: nat)
      ensures unit < Size()
      ensures n < Size() ==> unit == n
    {
      match this
      case Ten => n % 10
      case Sixteen => n % 16
    }
  }

  predicate AreDigits(figures: string) {
    figures == NUMERALS || figures == CAPITALS
  }

  /** A number in a base, without leading zeros. */
  function Written(n: nat, base: Base, figures: string): (text: string)
    requires AreDigits(figures)
    ensures text != []
  {
    if n < base.Size() then [figures[n]] else Written(base.Front(n), base, figures) + [figures[base.Unit(n)]]
  }

  function Decimal(n: nat): string {
    Written(n, Ten, NUMERALS)
  }

  function Hexadecimal(n: nat, figures: string): string
    requires AreDigits(figures)
  {
    Written(n, Sixteen, figures)
  }

  function Zeros(width: nat): (text: string)
    ensures |text| == width && forall i :: 0 <= i < width ==> text[i] == '0'
  {
    seq(width, _ => '0')
  }

  function Padded(text: string, width: nat): string {
    if |text| >= width then text else Zeros(width - |text|) + text
  }

  /** Padded to a width and cut to its last characters; a width of zero cuts nothing. */
  function Fitted(text: string, width: nat): string {
    var padded := Padded(text, width);
    if width == 0 then padded else padded[|padded| - width..]
  }

  // --- what a text of figures says -----------------------------------------------------------

  function FigureValue(c: char): nat {
    if '0' <= c <= '9' then c as nat - '0' as nat
    else if 'a' <= c <= 'f' then c as nat - 'a' as nat + 10
    else if 'A' <= c <= 'F' then c as nat - 'A' as nat + 10
    else 0
  }

  predicate IsFigure(c: char, base: Base) {
    '0' <= c <= '9' || (base == Sixteen && 'a' <= c <= 'f')
  }

  predicate AreFigures(text: string, base: Base) {
    forall i :: 0 <= i < |text| ==> IsFigure(text[i], base)
  }

  /** A text read as a number in a base. */
  function Value(text: string, base: Base): nat {
    if text == [] then 0 else base.Times(Value(text[..|text| - 1], base)) + FigureValue(text[|text| - 1])
  }

  lemma {:induction false} ValueOneMore(front: string, c: char, base: Base)
    ensures Value(front + [c], base) == base.Times(Value(front, base)) + FigureValue(c)
  {
    assert (front + [c])[..|front + [c]| - 1] == front;
  }

  lemma {:induction false} FigureTells(n: nat, base: Base, figures: string)
    requires AreDigits(figures) && n < base.Size()
    ensures FigureValue(figures[n]) == n
    ensures figures == NUMERALS ==> IsFigure(figures[n], base)
  {
    if n < 8 {
      assert n == 0 || n == 1 || n == 2 || n == 3 || n == 4 || n == 5 || n == 6 || n == 7;
    } else {
      assert n == 8 || n == 9 || n == 10 || n == 11 || n == 12 || n == 13 || n == 14 || n == 15;
    }
  }

  lemma {:induction false} FigureIsOfValue(c: char, base: Base)
    requires IsFigure(c, base)
    ensures FigureValue(c) < base.Size() && NUMERALS[FigureValue(c)] == c
  {
    var n := FigureValue(c);
    if n < 8 {
      assert n == 0 || n == 1 || n == 2 || n == 3 || n == 4 || n == 5 || n == 6 || n == 7;
    } else {
      assert n == 8 || n == 9 || n == 10 || n == 11 || n == 12 || n == 13 || n == 14 || n == 15;
    }
  }

  lemma {:induction false} ReadsMore(front: string, c: char, base: Base, q: nat, r: nat)
    requires Value(front, base) == q && FigureValue(c) == r
    ensures Value(front + [c], base) == base.Times(q) + r
  {
    ValueOneMore(front, c, base);
  }

  /** What is written reads as the number. */
  lemma {:induction false} WrittenReads(n: nat, base: Base, figures: string)
    requires AreDigits(figures)
    ensures Value(Written(n, base, figures), base) == n
  {
    var q, r := base.Front(n), base.Unit(n);
    FigureTells(r, base, figures);
    if n < base.Size() {
      ReadsMore([], figures[n], base, 0, n);
      assert [] + [figures[n]] == [figures[n]];
    } else {
      WrittenReads(q, base, figures);
      ReadsMore(Written(q, base, figures), figures[r], base, q, r);
    }
  }

  lemma {:induction false} WrittenInFigures(n: nat, base: Base)
    ensures AreFigures(Written(n, base, NUMERALS), base)
  {
    if n < base.Size() {
      FigureTells(n, base, NUMERALS);
    } else {
      WrittenInFigures(base.Front(n), base);
      FigureTells(base.Unit(n), base, NUMERALS);
    }
  }

  lemma {:induction false} ZerosSayNothing(width: nat, text: string, base: Base)
    ensures Value(Zeros(width) + text, base) == Value(text, base)
    decreases |text|, width
  {
    if text != [] {
      var front, last := text[..|text| - 1], text[|text| - 1];
      ZerosSayNothing(width, front, base);
      ValueOneMore(Zeros(width) + front, last, base);
      assert Zeros(width) + text == (Zeros(width) + front) + [last];
    } else if width > 0 {
      ZerosSayNothing(width - 1, [], base);
      ValueOneMore(Zeros(width - 1), '0', base);
      assert Zeros(width) + [] == Zeros(width - 1) + ['0'] && Zeros(width - 1) + [] == Zeros(width - 1);
    } else {
      assert Zeros(0) + [] == [];
    }
  }

  lemma {:induction false} PaddedReads(n: nat, base: Base, figures: string, width: nat)
    requires AreDigits(figures)
    ensures Value(Padded(Written(n, base, figures), width), base) == n
  {
    var text := Written(n, base, figures);
    WrittenReads(n, base, figures);
    if |text| < width {
      ZerosSayNothing(width - |text|, text, base);
    }
  }

  // --- the last figures ----------------------------------------------------------------------

  /** The last `width` figures of a number. */
  function Last(n: nat, base: Base, width: nat): (text: string)
    ensures |text| == width
  {
    if width == 0 then [] else Last(base.Front(n), base, width - 1) + [NUMERALS[base.Unit(n)]]
  }

  lemma {:induction false} LastOfNone(base: Base, width: nat)
    ensures Last(0, base, width) == Zeros(width)
  {
    if width > 0 {
      LastOfNone(base, width - 1);
      assert Zeros(width) == Zeros(width - 1) + ['0'];
    }
  }

  lemma {:induction false} PaddedOneMore(text: string, c: char, width: nat)
    ensures Padded(text + [c], width + 1) == Padded(text, width) + [c]
  {
    if |text| < width {
      var zeros := Zeros(width - |text|);
      assert zeros + (text + [c]) == (zeros + text) + [c];
    }
  }

  lemma {:induction false} DropOfMore(text: string, c: char, n: nat)
    requires n <= |text|
    ensures (text + [c])[n..] == text[n..] + [c]
  {
  }

  lemma {:induction false} FittedOneMore(text: string, c: char, width: nat)
    requires width > 0
    ensures Fitted(text + [c], width + 1) == Fitted(text, width) + [c]
  {
    var padded := Padded(text, width);
    PaddedOneMore(text, c, width);
    DropOfMore(padded, c, |padded| - width);
  }

  lemma {:induction false} FittedOneFigure(c: char, width: nat)
    requires width > 0
    ensures Fitted([c], width) == Zeros(width - 1) + [c]
  {
    if width == 1 {
      assert Zeros(0) + [c] == [c];
    }
  }

  lemma {:induction false} FittedToOne(text: string, c: char)
    ensures Fitted(text + [c], 1) == [c]
  {
  }

  /** Fitting a number to a width keeps its last figures. */
  lemma {:induction false} FittedIsLast(n: nat, base: Base, width: nat)
    requires width > 0
    ensures Fitted(Written(n, base, NUMERALS), width) == Last(n, base, width)
    decreases width
  {
    if n < base.Size() {
      FittedOneFigure(NUMERALS[n], width);
      LastOfNone(base, width - 1);
    } else {
      var rest, c := Written(base.Front(n), base, NUMERALS), NUMERALS[base.Unit(n)];
      if width == 1 {
        FittedToOne(rest, c);
        assert [] + [c] == [c];
      } else {
        FittedIsLast(base.Front(n), base, width - 1);
        FittedOneMore(rest, c, width - 1);
      }
    }
  }

  lemma {:induction false} LastAreFigures(n: nat, base: Base, width: nat)
    ensures AreFigures(Last(n, base, width), base)
  {
    if width > 0 {
      LastAreFigures(base.Front(n), base, width - 1);
      FigureTells(base.Unit(n), base, NUMERALS);
    }
  }

  function Power(base: Base, width: nat): (power: nat)
    ensures power > 0
  {
    if width == 0 then 1 else base.Times(Power(base, width - 1))
  }

  lemma {:induction false} PartsOf(q: nat, r: nat, base: Base)
    requires r < base.Size()
    ensures base.Front(base.Times(q) + r) == q && base.Unit(base.Times(q) + r) == r
  {
  }

  lemma {:induction false} LastSplits(q: nat, r: nat, base: Base, width: nat)
    requires r < base.Size()
    ensures Last(base.Times(q) + r, base, width + 1) == Last(q, base, width) + [NUMERALS[r]]
  {
    PartsOf(q, r, base);
  }

  lemma {:induction false} OwnLastOneMore(front: string, c: char, base: Base, q: nat)
    requires IsFigure(c, base) && q == Value(front, base) && Last(q, base, |front|) == front
    ensures Last(Value(front + [c], base), base, |front| + 1) == front + [c]
  {
    FigureIsOfValue(c, base);
    ReadsMore(front, c, base, q, FigureValue(c));
    LastSplits(q, FigureValue(c), base, |front|);
  }

  /** A text of figures is the last figures of the number it says. */
  lemma {:induction false} FiguresAreOwnLast(text: string, base: Base)
    requires AreFigures(text, base)
    ensures Last(Value(text, base), base, |text|) == text
  {
    if text != [] {
      var front, last := text[..|text| - 1], text[|text| - 1];
      FiguresAreOwnLast(front, base);
      OwnLastOneMore(front, last, base, Value(front, base));
      assert text == front + [last];
    }
  }

  lemma {:induction false} ValueIsBelow(text: string, base: Base)
    requires AreFigures(text, base)
    ensures Value(text, base) < Power(base, |text|)
  {
    if text != [] {
      ValueIsBelow(text[..|text| - 1], base);
      FigureIsOfValue(text[|text| - 1], base);
    }
  }

  lemma {:induction false} Multiple(e: int, d: int)
    requires d >= 0
    ensures e >= 1 ==> e * d >= d
    ensures e <= -1 ==> e * d <= -d
  {
  }

  lemma {:induction false} OneRemainder(n: nat, d: nat, q: nat, r: nat)
    requires n == q * d + r && r < d
    ensures n % d == r
  {
    var k, s := n / d, n % d;
    assert n == k * d + s;
    assert (k - q) * d == r - s;
    Multiple(k - q, d);
  }

  lemma {:induction false} Regroup(base: Base, k: nat, p: nat, s: nat)
    ensures base.Times(k * p + s) == k * base.Times(p) + base.Times(s)
  {
  }

  lemma {:induction false} RemainderStep(n: nat, base: Base, p: nat)
    requires p > 0
    ensures n % base.Times(p) == base.Times(base.Front(n) % p) + base.Unit(n)
  {
    var q := base.Front(n);
    var k, s := q / p, q % p;
    assert q == k * p + s;
    Regroup(base, k, p, s);
    OneRemainder(n, base.Times(p), k, base.Times(s) + base.Unit(n));
  }

  /** The last figures of a number say what is left of it beyond the powers they leave out. */
  lemma {:induction false} LastReads(n: nat, base: Base, width: nat)
    ensures Value(Last(n, base, width), base) == n % Power(base, width)
  {
    if width > 0 {
      LastReads(base.Front(n), base, width - 1);
      FigureTells(base.Unit(n), base, NUMERALS);
      ValueOneMore(Last(base.Front(n), base, width - 1), NUMERALS[base.Unit(n)], base);
      RemainderStep(n, base, Power(base, width - 1));
    }
  }

  /** Two numbers agree in their last figures exactly when they leave the same beyond that power. */
  lemma {:induction false} LastAgreesExactly(m: nat, n: nat, base: Base, width: nat)
    ensures Last(m, base, width) == Last(n, base, width) <==> m % Power(base, width) == n % Power(base, width)
  {
    LastReads(m, base, width);
    LastReads(n, base, width);
    LastAreFigures(m, base, width);
    LastAreFigures(n, base, width);
    FiguresAreOwnLast(Last(m, base, width), base);
    FiguresAreOwnLast(Last(n, base, width), base);
  }

  lemma {:induction false} OwnRemainder(power: nat)
    requires power > 0
    ensures power % power == 0 && 0 % power == 0
  {
  }

  /** A power leaves nothing but zeros. */
  lemma {:induction false} LastOfPower(base: Base, width: nat)
    ensures Last(Power(base, width), base, width) == Last(0, base, width)
  {
    OwnRemainder(Power(base, width));
    LastAgreesExactly(Power(base, width), 0, base, width);
  }

  /** Decimal figures read in the larger base say no less. */
  lemma {:induction false} SixteenSaysMore(text: string)
    ensures Value(text, Ten) <= Value(text, Sixteen)
  {
    if text != [] {
      SixteenSaysMore(text[..|text| - 1]);
    }
  }

  lemma {:induction false} PowersCompare(width: nat)
    ensures Power(Ten, width) <= Power(Sixteen, width)
  {
    if width > 0 {
      PowersCompare(width - 1);
    }
  }
}
