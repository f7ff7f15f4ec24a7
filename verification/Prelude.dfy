/** Shared values: optional results, and the instants every clock in the model is read in. */
module Prelude {

  datatype Option<+T> = None | Some(value: T)

  /** An instant, in whole microseconds: the resolution of the program's clocks. */
  type Instant = int

  const SECOND: int := 1_000_000
  const DAY: int := 86_400 * SECOND

  function Min(a: int, b: int): int {
    if a <= b then a else b
  }

  function Max(a: int, b: int): int {
    if a <= b then b else a
  }

  /** Where the first of the first `n` items with this key stands, or `n`. */
  function FirstWith<T, K(==)>(items: seq<T>, keyOf: T -> K, key: K, n: nat): (at: nat)
    requires n <= |items|
    ensures at <= n
    ensures at < n ==> keyOf(items[at]) == key
    ensures forall i :: 0 <= i < at ==> keyOf(items[i]) != key
  {
    if n == 0 then 0
    else
      var at := FirstWith(items, keyOf, key, n - 1);
      if at == n - 1 && keyOf(items[n - 1]) != key then n else at
  }

  /** How many of the first `n` items there are of a sort. */
  function CountWhere<T>(items: seq<T>, isOne: T -> bool, n: nat): (count: nat)
    requires n <= |items|
    ensures count <= n
  {
    if n == 0 then 0 else CountWhere(items, isOne, n - 1) + if isOne(items[n - 1]) then 1 else 0
  }

  lemma {:induction false} CountWhereJoined<T>(left: seq<T>, right: seq<T>, isOne: T -> bool, n: nat)
    requires n <= |left| + |right|
    ensures CountWhere(left + right, isOne, n) ==
            if n <= |left| then CountWhere(left, isOne, n)
            else CountWhere(left, isOne, |left|) + CountWhere(right, isOne, n - |left|)
  {
    if n > 0 {
      CountWhereJoined(left, right, isOne, n - 1);
    }
  }

  lemma {:induction false} CountWhereOneMore<T>(items: seq<T>, last: T, isOne: T -> bool)
    ensures CountWhere(items + [last], isOne, |items| + 1)
         == CountWhere(items, isOne, |items|) + if isOne(last) then 1 else 0
  {
    CountWhereJoined(items, [last], isOne, |items|);
  }

  /** All but the item at `i`. */
  function DropAt<T>(items: seq<T>, i: nat): (rest: seq<T>)
    requires i < |items|
    ensures |rest| == |items| - 1
    ensures forall k :: 0 <= k < |rest| ==> rest[k] == items[if k < i then k else k + 1]
  {
    items[..i] + items[i + 1..]
  }

  lemma {:induction false} DropsOne<T>(items: seq<T>, i: nat)
    requires i < |items|
    ensures multiset(DropAt(items, i)) == multiset(items) - multiset{items[i]}
  {
    assert items == items[..i] + [items[i]] + items[i + 1..];
    assert multiset(items) == multiset(items[..i]) + multiset{items[i]} + multiset(items[i + 1..]);
  }

  lemma {:induction false} DropCounts<T>(items: seq<T>, i: nat, isOne: T -> bool)
    requires i < |items|
    ensures CountWhere(items, isOne, |items|)
         == CountWhere(DropAt(items, i), isOne, |items| - 1) + if isOne(items[i]) then 1 else 0
  {
    var left, right := items[..i], items[i + 1..];
    assert items == (left + [items[i]]) + right;
    CountWhereOneMore(left, items[i], isOne);
    CountWhereJoined(left + [items[i]], right, isOne, |items|);
    CountWhereJoined(left, right, isOne, |items| - 1);
  }

  /** Order does not matter to a count. */
  lemma {:induction false} CountWherePermuted<T>(a: seq<T>, b: seq<T>, isOne: T -> bool)
    requires multiset(a) == multiset(b)
    ensures |a| == |b| && CountWhere(a, isOne, |a|) == CountWhere(b, isOne, |b|)
  {
    assert |multiset(a)| == |multiset(b)|;
    if a != [] {
      assert a[0] in multiset(b);
      var i :| 0 <= i < |b| && b[i] == a[0];
      DropsOne(a, 0);
      DropsOne(b, i);
      DropCounts(a, 0, isOne);
      DropCounts(b, i, isOne);
      CountWherePermuted(DropAt(a, 0), DropAt(b, i), isOne);
    }
  }

  lemma {:induction false} CountOneMore<T>(items: seq<T>, last: T, one: T)
    ensures multiset(items + [last])[one] == multiset(items)[one] + if last == one then 1 else 0
  {
    assert multiset(items + [last]) == multiset(items) + multiset{last};
  }

  /** A length that none of some texts reaches. */
  ghost function Longest(texts: set<string>): (bound: nat)
    ensures forall text :: text in texts ==> |text| < bound
  {
    if texts == {} then 0
    else
      var text :| text in texts;
      Max(Longest(texts - {text}), |text| + 1)
  }
}
