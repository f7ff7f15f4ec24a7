/** Taking tokens out of a line in one pass, for any scanner whose tokens hold no space: why one pass
    leaves none, and why closing up the gaps afterwards makes none. */
module OnePass {

  /** How long a token begins a text; 0 for none. */
  type Scan = string -> nat

  predicate Spaceless(text: string) {
    forall i :: 0 <= i < |text| ==> text[i] != ' '
  }

  /** A token lies within the text, holds no space, and is a token alone. */
  predicate ScansAt(scan: Scan, text: string) {
    && scan(text) <= |text|
    && Spaceless(text[..scan(text)])
    && (scan(text) > 0 ==> scan(text[..scan(text)]) > 0)
  }

  /** What begins with a token still does, however the text goes on. */
  predicate Extends(scan: Scan, short: string, long: string) {
    short <= long && scan(short) > 0 ==> scan(long) > 0
  }

  ghost predicate Scans(scan: Scan) {
    && (forall text :: ScansAt(scan, text))
    && (forall short, long :: Extends(scan, short, long))
  }

  /** `" ".join(text.split())`, where the only whitespace is the space: a gap is written when the next
      word begins. */
  function Tidy(text: string, begun: bool, gap: bool): string {
    if text == [] then []
    else if text[0] == ' ' then Tidy(text[1..], begun, true)
    else (if begun && gap then [' ', text[0]] else [text[0]]) + Tidy(text[1..], true, false)
  }

  /** Every control token, leftmost first and without overlaps, as a space. */
  function Without(text: string, scan: Scan): string
    requires Scans(scan)
    decreases |text|
  {
    if text == [] then []
    else
      assert ScansAt(scan, text);
      var length := scan(text);
      if length > 0 then [' '] + Without(text[length..], scan) else [text[0]] + Without(text[1..], scan)
  }

  /** Single spaces between words, none at either end. */
  predicate IsTidy(text: string) {
    && (text != [] ==> text[0] != ' ' && text[|text| - 1] != ' ')
    && NoDoubleSpace(text)
  }

  predicate NoDoubleSpace(text: string) {
    forall i :: 0 < i < |text| ==> text[i] != ' ' || text[i - 1] != ' '
  }

  predicate NoTokens(text: string, scan: Scan) {
    forall i :: 0 <= i < |text| ==> scan(text[i..]) == 0
  }

  // --- what both keep ----------------------------------------------------------------------

  predicate CarriesAt(p: string -> bool, a: string, b: string) {
    (p(a + b) ==> p(a) && p(b)) && (p(a) && p(b) ==> p(a + " " + b))
  }

  /** What holds of a text holds of its parts, and of two parts with a space between. */
  ghost predicate Carries(p: string -> bool) {
    forall a, b :: CarriesAt(p, a, b)
  }

  lemma {:induction false} CarriesParts(p: string -> bool, a: string, b: string)
    requires Carries(p) && p(a + b)
    ensures p(a) && p(b)
  {
    assert CarriesAt(p, a, b);
  }

  lemma {:induction false} CarriesSpace(p: string -> bool, a: string, b: string)
    requires Carries(p) && p(a) && p(b)
    ensures p(a + [' '] + b)
  {
    assert CarriesAt(p, a, b);
  }

  lemma {:induction false} TidyCarries(text: string, p: string -> bool)
    requires Carries(p) && p(text)
    ensures p(Tidy(text, false, false))
  {
    TidyStart(text);
    if text != [] {
      assert text == [text[0]] + text[1..];
      CarriesParts(p, [text[0]], text[1..]);
      if text[0] == ' ' {
        TidyStart(text[1..]);
        TidyCarries(text[1..], p);
      } else {
        WordCarries([text[0]], text[1..], p);
      }
    }
  }

  lemma {:induction false} WordCarries(head: string, text: string, p: string -> bool)
    requires Carries(p) && p(head + text)
    ensures p(head + Tidy(text, true, false))
    decreases |text|, 1
  {
    if text != [] {
      CarriesParts(p, head, text);
      assert head + text == (head + [text[0]]) + text[1..];
      if text[0] == ' ' {
        assert text == [' '] + text[1..];
        CarriesParts(p, [' '], text[1..]);
        GapCarries(head, text[1..], p);
      } else {
        WordCarries(head + [text[0]], text[1..], p);
        assert (head + [text[0]]) + Tidy(text[1..], true, false) == head + Tidy(text, true, false);
      }
    }
  }

  lemma {:induction false} GapCarries(head: string, text: string, p: string -> bool)
    requires Carries(p) && p(head) && p(text)
    ensures p(head + Tidy(text, true, true))
    decreases |text|, 0
  {
    if text == [] {
      assert head + [] == head;
    } else {
      assert text == [text[0]] + text[1..];
      CarriesParts(p, [text[0]], text[1..]);
      if text[0] == ' ' {
        GapCarries(head, text[1..], p);
      } else {
        var word := [text[0]] + Tidy(text[1..], true, false);
        WordCarries([text[0]], text[1..], p);
        CarriesSpace(p, head, word);
        assert head + [' '] + word == head + Tidy(text, true, true);
      }
    }
  }

  lemma {:induction false} WithoutCarries(head: string, text: string, scan: Scan, p: string -> bool)
    requires Scans(scan) && Carries(p) && p(head + text)
    ensures p(head + Without(text, scan))
    ensures head == [] ==> p(Without(text, scan))
    decreases |text|
  {
    if text != [] {
      assert ScansAt(scan, text);
      var length := scan(text);
      if length > 0 {
        var rest := Without(text[length..], scan);
        assert head + text == head + (text[..length] + text[length..]);
        CarriesParts(p, head, text[..length] + text[length..]);
        CarriesParts(p, text[..length], text[length..]);
        assert [] + text[length..] == text[length..];
        WithoutCarries([], text[length..], scan, p);
        CarriesSpace(p, head, rest);
        assert head + [' '] + rest == head + Without(text, scan);
      } else {
        assert head + text == (head + [text[0]]) + text[1..];
        WithoutCarries(head + [text[0]], text[1..], scan, p);
        assert (head + [text[0]]) + Without(text[1..], scan) == head + Without(text, scan);
      }
    }
    assert [] + Without(text, scan) == Without(text, scan);
  }

  // --- tidying -----------------------------------------------------------------------------

  predicate EndsWell(text: string) {
    (text != [] ==> text[|text| - 1] != ' ') && NoDoubleSpace(text)
  }

  lemma {:induction false} EndsWellJoined(c: char, rest: string)
    requires EndsWell(rest) && (c == ' ' ==> rest != [] && rest[0] != ' ')
    ensures EndsWell([c] + rest)
  {
    var text := [c] + rest;
    forall i | 0 < i < |text| ensures text[i] != ' ' || text[i - 1] != ' ' {
      assert text[i] == rest[i - 1];
      if i > 1 {
        assert text[i - 1] == rest[i - 2];
      }
    }
  }

  lemma {:induction false} TidyEndsWell(text: string, begun: bool, gap: bool)
    ensures EndsWell(Tidy(text, begun, gap))
    ensures begun && gap && Tidy(text, begun, gap) != [] ==> Tidy(text, begun, gap)[0] == ' '
  {
    if text != [] {
      if text[0] == ' ' {
        TidyEndsWell(text[1..], begun, true);
      } else {
        var rest := Tidy(text[1..], true, false);
        TidyEndsWell(text[1..], true, false);
        EndsWellJoined(text[0], rest);
        EndsWellJoined(' ', [text[0]] + rest);
        assert [' ', text[0]] + rest == [' '] + ([text[0]] + rest);
      }
    }
  }

  lemma {:induction false} TidyKeepsTidy(text: string)
    requires EndsWell(text)
    ensures Tidy(text, true, false) == text
    ensures text != [] && text[0] != ' ' ==> Tidy(text, false, false) == text && Tidy(text, true, true) == [' '] + text
    ensures text == [] ==> Tidy(text, false, false) == text
  {
    if text != [] {
      var rest := text[1..];
      assert text == [text[0]] + rest;
      assert EndsWell(rest) by {
        assert forall i :: 0 < i < |rest| ==> rest[i] == text[i + 1] && rest[i - 1] == text[i];
      }
      TidyKeepsTidy(rest);
      if text[0] == ' ' {
        assert rest != [] && text[1] != ' ';
      }
    }
  }

  /** Tidying leaves a line alone exactly when it is tidy. */
  lemma {:induction false} TidyExactly(text: string)
    ensures Tidy(text, false, false) == text <==> IsTidy(text)
    ensures IsTidy(Tidy(text, false, false))
  {
    TidyEndsWell(text, false, false);
    if IsTidy(text) {
      TidyKeepsTidy(text);
    }
    TidyStart(text);
  }

  lemma {:induction false} TidyStart(text: string)
    ensures Tidy(text, false, false) != [] ==> Tidy(text, false, false)[0] != ' '
    ensures Tidy(text, false, true) == Tidy(text, false, false)
  {
    if text != [] {
      TidyStart(text[1..]);
    }
  }

  /** Two tidy lines as one, parted by a space where neither is empty. */
  function Glued(first: string, second: string): string {
    if first == [] then second else if second == [] then first else first + [' '] + second
  }

  lemma {:induction false} TidyGoesOn(text: string, more: string, begun: bool, gap: bool)
    ensures Tidy(text + [' '] + more, begun, gap)
         == Tidy(text, begun, gap) + Tidy(more, begun || Tidy(text, false, false) != [], true)
  {
    TidyStart(text);
    if text == [] {
      assert text + [' '] + more == [' '] + more;
      assert ([' '] + more)[1..] == more;
    } else {
      assert (text + [' '] + more)[1..] == text[1..] + [' '] + more;
      TidyGoesOn(text[1..], more, begun, true);
      TidyGoesOn(text[1..], more, true, false);
      TidyStart(text[1..]);
    }
  }

  lemma {:induction false} TidyAfterWord(text: string)
    ensures Tidy(text, true, true) == if Tidy(text, false, false) == [] then [] else [' '] + Tidy(text, false, false)
  {
    if text != [] && text[0] == ' ' {
      TidyStart(text[1..]);
      TidyAfterWord(text[1..]);
    }
  }

  /** What a space parts is tidied apart. */
  lemma {:induction false} TidyGlues(text: string, more: string)
    ensures Tidy(text + [' '] + more, false, false) == Glued(Tidy(text, false, false), Tidy(more, false, false))
  {
    TidyGoesOn(text, more, false, false);
    TidyAfterWord(more);
    TidyStart(more);
  }

  // --- nothing is left to take out ---------------------------------------------------------

  /** A token that a character and the output after it make is one in the source already, when what
      the output holds before its first space is copied. */
  lemma {:induction false} TokenWasThere(c: char, source: string, output: string, scan: Scan)
    requires Scans(scan) && 0 < scan([c] + output) <= |output| + 1
    requires var k := scan([c] + output) - 1;
             Spaceless(output[..k]) ==> k <= |source| && source[..k] == output[..k]
    ensures scan([c] + source) > 0
  {
    var length := scan([c] + output);
    assert ScansAt(scan, [c] + output);
    var token := ([c] + output)[..length];
    assert token == [c] + output[..length - 1];
    assert Spaceless(output[..length - 1]) by {
      assert forall i :: 0 <= i < length - 1 ==> output[i] == token[i + 1];
    }
    assert [c] + source == token + source[length - 1..];
    assert Extends(scan, token, [c] + source);
  }

  lemma {:induction false} NoTokenAtSpace(text: string, scan: Scan)
    requires Scans(scan) && text != [] && text[0] == ' '
    ensures scan(text) == 0
  {
    assert forall n :: 0 < n <= |text| ==> text[..n][0] == ' ';
    assert ScansAt(scan, text);
  }

  lemma {:induction false} NoTokensJoined(first: char, rest: string, scan: Scan)
    requires scan([first] + rest) == 0 && NoTokens(rest, scan)
    ensures NoTokens([first] + rest, scan)
  {
    var text := [first] + rest;
    forall i | 0 <= i < |text| ensures scan(text[i..]) == 0 {
      if i == 0 {
        assert text[0..] == text;
      } else {
        assert text[i..] == rest[i - 1..];
      }
    }
  }

  lemma {:induction false} SpacelessTail(c: char, rest: string, k: nat)
    requires 0 < k <= |rest| + 1 && Spaceless(([c] + rest)[..k])
    ensures c != ' ' && Spaceless(rest[..k - 1])
  {
    var head := ([c] + rest)[..k];
    assert head[0] == c;
    assert forall i :: 0 <= i < k - 1 ==> rest[i] == head[i + 1];
  }

  lemma {:induction false} CopiedTail(c: char, source: string, rest: string, k: nat)
    requires 0 < k <= |rest| + 1 && k <= |source| + 1 && source[..k - 1] == rest[..k - 1]
    ensures ([c] + source)[..k] == ([c] + rest)[..k]
  {
    assert ([c] + source)[..k] == [c] + source[..k - 1];
    assert ([c] + rest)[..k] == [c] + rest[..k - 1];
  }

  /** What the output holds before its first space is copied from the text. */
  lemma {:induction false} WithoutCopies(text: string, scan: Scan, k: nat)
    requires Scans(scan) && k <= |Without(text, scan)| && Spaceless(Without(text, scan)[..k])
    ensures k <= |text| && text[..k] == Without(text, scan)[..k]
    decreases |text|
  {
    if k > 0 {
      assert ScansAt(scan, text);
      if scan(text) > 0 {
        SpacelessTail(' ', Without(text[scan(text)..], scan), k);
        assert false;
      } else {
        var rest := Without(text[1..], scan);
        assert Without(text, scan) == [text[0]] + rest;
        SpacelessTail(text[0], rest, k);
        assert k - 1 <= |text[1..]| && text[1..][..k - 1] == rest[..k - 1] by {
          WithoutCopies(text[1..], scan, k - 1);
        }
        CopiedTail(text[0], text[1..], rest, k);
        assert text == [text[0]] + text[1..];
      }
    }
  }

  lemma {:induction false} CopiedHasNone(text: string, scan: Scan)
    requires Scans(scan) && text != [] && scan(text) == 0
    requires NoTokens(Without(text[1..], scan), scan)
    ensures NoTokens([text[0]] + Without(text[1..], scan), scan)
  {
    var rest := Without(text[1..], scan);
    assert ScansAt(scan, [text[0]] + rest);
    if scan([text[0]] + rest) > 0 {
      var k := scan([text[0]] + rest) - 1;
      if Spaceless(rest[..k]) {
        WithoutCopies(text[1..], scan, k);
      }
      assert text == [text[0]] + text[1..];
      TokenWasThere(text[0], text[1..], rest, scan);
      assert false;
    }
    NoTokensJoined(text[0], rest, scan);
  }

  /** One pass is enough: what taking the tokens out leaves holds none. */
  lemma {:induction false} WithoutHasNone(text: string, scan: Scan)
    requires Scans(scan)
    ensures NoTokens(Without(text, scan), scan)
    decreases |text|
  {
    if text != [] {
      assert ScansAt(scan, text);
      var length := scan(text);
      if length > 0 {
        var rest := Without(text[length..], scan);
        WithoutHasNone(text[length..], scan);
        NoTokenAtSpace([' '] + rest, scan);
        NoTokensJoined(' ', rest, scan);
      } else {
        WithoutHasNone(text[1..], scan);
        CopiedHasNone(text, scan);
      }
    }
  }

  lemma {:induction false} TidyCopies(text: string, k: nat)
    requires k <= |Tidy(text, true, false)| && Spaceless(Tidy(text, true, false)[..k])
    ensures k <= |text| && text[..k] == Tidy(text, true, false)[..k]
  {
    if k > 0 {
      assert Tidy(text, true, false)[..k][0] == Tidy(text, true, false)[0];
      if text[0] == ' ' {
        TidyEndsWell(text[1..], true, true);
        assert false;
      }
      var rest := Tidy(text[1..], true, false);
      SpacelessTail(text[0], rest, k);
      TidyCopies(text[1..], k - 1);
      CopiedTail(text[0], text[1..], rest, k);
      assert text == [text[0]] + text[1..];
    }
  }

  lemma {:induction false} NoTokensAfterFirst(text: string, scan: Scan)
    requires text != [] && NoTokens(text, scan)
    ensures NoTokens(text[1..], scan) && scan([text[0]] + text[1..]) == 0
  {
    assert text[0..] == text == [text[0]] + text[1..];
    forall i | 0 <= i < |text[1..]| ensures scan(text[1..][i..]) == 0 {
      assert text[1..][i..] == text[i + 1..];
    }
  }

  lemma {:induction false} TidiedHasNone(text: string, scan: Scan)
    requires Scans(scan) && text != [] && text[0] != ' ' && scan([text[0]] + text[1..]) == 0
    requires NoTokens(Tidy(text[1..], true, false), scan)
    ensures var word := [text[0]] + Tidy(text[1..], true, false);
            NoTokens(word, scan) && NoTokens([' '] + word, scan)
  {
    var rest := Tidy(text[1..], true, false);
    assert ScansAt(scan, [text[0]] + rest);
    if scan([text[0]] + rest) > 0 {
      var k := scan([text[0]] + rest) - 1;
      if Spaceless(rest[..k]) {
        TidyCopies(text[1..], k);
      }
      TokenWasThere(text[0], text[1..], rest, scan);
      assert false;
    }
    NoTokensJoined(text[0], rest, scan);
    NoTokenAtSpace([' '] + ([text[0]] + rest), scan);
    NoTokensJoined(' ', [text[0]] + rest, scan);
  }

  /** Closing up the gaps makes no token. */
  lemma {:induction false} TidyMakesNone(text: string, begun: bool, gap: bool, scan: Scan)
    requires Scans(scan) && NoTokens(text, scan)
    ensures NoTokens(Tidy(text, begun, gap), scan)
    decreases |text|
  {
    if text != [] {
      NoTokensAfterFirst(text, scan);
      if text[0] == ' ' {
        TidyMakesNone(text[1..], begun, true, scan);
      } else {
        var rest := Tidy(text[1..], true, false);
        TidyMakesNone(text[1..], true, false, scan);
        TidiedHasNone(text, scan);
        assert [' ', text[0]] + rest == [' '] + ([text[0]] + rest);
      }
    }
  }

  lemma {:induction false} NoTokensOfPrefix(text: string, n: nat, scan: Scan)
    requires Scans(scan) && n <= |text| && NoTokens(text, scan)
    ensures NoTokens(text[..n], scan)
  {
    forall i | 0 <= i < n ensures scan(text[..n][i..]) == 0 {
      assert text[i..] == text[..n][i..] + text[n..];
      assert Extends(scan, text[..n][i..], text[i..]);
    }
  }

  lemma {:induction false} WithoutFirst(text: string, scan: Scan)
    requires Scans(scan) && text != [] && scan(text) == 0
    ensures Without(text, scan) == [text[0]] + Without(text[1..], scan)
  {
  }

  lemma {:induction false} WithoutNothing(text: string, scan: Scan)
    requires Scans(scan) && NoTokens(text, scan)
    ensures Without(text, scan) == text
    decreases |text|
  {
    if text != [] {
      assert text[0..] == text;
      NoTokensAfterFirst(text, scan);
      WithoutNothing(text[1..], scan);
      WithoutFirst(text, scan);
    }
  }
}
