/** Sorting by a key of a rank and a text, as `list.sort(key=...)` does: every item with its key. */
module StableSort {
  import opened Documents

  datatype Keyed<T> = Keyed(rank: nat, text: string, value: T)

  predicate Precedes<T>(a: Keyed<T>, b: Keyed<T>) {
    a.rank < b.rank || (a.rank == b.rank && Less(a.text, b.text))
  }

  predicate InOrder<T>(items: seq<Keyed<T>>) {
    forall i, j :: 0 <= i < j < |items| ==> !Precedes(items[j], items[i])
  }

  /** Where one more item goes: after everything it does not precede. */
  function Seat<T>(sorted: seq<Keyed<T>>, one: Keyed<T>, n: nat): (seat: nat)
    requires n <= |sorted|
    ensures seat <= n
    ensures seat > 0 ==> !Precedes(one, sorted[seat - 1])
    ensures forall i :: seat <= i < n ==> Precedes(one, sorted[i])
  {
    if n == 0 || !Precedes(one, sorted[n - 1]) then n else Seat(sorted, one, n - 1)
  }

  function Seated<T>(sorted: seq<Keyed<T>>, one: Keyed<T>): (more: seq<Keyed<T>>)
    ensures |more| == |sorted| + 1
  {
    var seat := Seat(sorted, one, |sorted|);
    sorted[..seat] + [one] + sorted[seat..]
  }

  function SortFirst<T>(items: seq<Keyed<T>>, n: nat): (sorted: seq<Keyed<T>>)
    requires n <= |items|
    ensures |sorted| == n
  {
    if n == 0 then [] else Seated(SortFirst(items, n - 1), items[n - 1])
  }

  function Sort<T>(items: seq<Keyed<T>>): seq<Keyed<T>> {
    SortFirst(items, |items|)
  }

  lemma {:induction false} PrecedesIsWeakOrder<T>(a: Keyed<T>, b: Keyed<T>, c: Keyed<T>)
    ensures !(Precedes(a, b) && Precedes(b, a))
    ensures !Precedes(a, b) && !Precedes(b, c) ==> !Precedes(a, c)
  {
    LessIsStrict(a.text, b.text);
    LessIsStrict(a.text, c.text);
    LessIsTotal(a.text, b.text);
    LessIsTotal(b.text, c.text);
    if Less(c.text, b.text) && Less(b.text, a.text) {
      LessIsTransitive(c.text, b.text, a.text);
    }
  }

  lemma {:induction false} SeatedIsInOrder<T>(sorted: seq<Keyed<T>>, one: Keyed<T>)
    requires InOrder(sorted)
    ensures InOrder(Seated(sorted, one))
  {
    var seat := Seat(sorted, one, |sorted|);
    forall i | 0 <= i < seat ensures !Precedes(one, sorted[i]) {
      PrecedesIsWeakOrder(one, sorted[seat - 1], sorted[i]);
    }
    forall i | seat <= i < |sorted| ensures !Precedes(sorted[i], one) {
      PrecedesIsWeakOrder(sorted[i], one, one);
    }
  }

  lemma {:induction false} SeatedKeepsAll<T>(sorted: seq<Keyed<T>>, one: Keyed<T>)
    ensures multiset(Seated(sorted, one)) == multiset(sorted) + multiset{one}
  {
    var seat := Seat(sorted, one, |sorted|);
    assert sorted == sorted[..seat] + sorted[seat..];
  }

  lemma {:induction false} SortFirstIsInOrder<T>(items: seq<Keyed<T>>, n: nat)
    requires n <= |items|
    ensures InOrder(SortFirst(items, n))
  {
    if n > 0 {
      SortFirstIsInOrder(items, n - 1);
      SeatedIsInOrder(SortFirst(items, n - 1), items[n - 1]);
    }
  }

  lemma {:induction false} SeatedKeepsPrefix<T>(sorted: seq<Keyed<T>>, items: seq<Keyed<T>>, n: nat)
    requires 0 < n <= |items| && multiset(sorted) == multiset(items[..n - 1])
    ensures multiset(Seated(sorted, items[n - 1])) == multiset(items[..n])
  {
    SeatedKeepsAll(sorted, items[n - 1]);
    assert items[..n] == items[..n - 1] + [items[n - 1]];
  }

  lemma {:induction false} SortFirstKeepsAll<T>(items: seq<Keyed<T>>, n: nat)
    requires n <= |items|
    ensures multiset(SortFirst(items, n)) == multiset(items[..n])
  {
    if n > 0 {
      SortFirstKeepsAll(items, n - 1);
      SeatedKeepsPrefix(SortFirst(items, n - 1), items, n);
    }
  }

  predicate SameKey<T>(a: Keyed<T>, b: Keyed<T>) {
    a.rank == b.rank && a.text == b.text
  }

  /** The items that share a key with `one`, in the order given. */
  function Ties<T>(items: seq<Keyed<T>>, one: Keyed<T>, n: nat): seq<Keyed<T>>
    requires n <= |items|
  {
    if n == 0 then []
    else
      var earlier := Ties(items, one, n - 1);
      if SameKey(items[n - 1], one) then earlier + [items[n - 1]] else earlier
  }

  lemma {:induction false} TiesOfPrefix<T>(a: seq<Keyed<T>>, b: seq<Keyed<T>>, one: Keyed<T>, n: nat)
    requires n <= |a| && n <= |b| && forall i :: 0 <= i < n ==> a[i] == b[i]
    ensures Ties(a, one, n) == Ties(b, one, n)
  {
    if n > 0 {
      TiesOfPrefix(a, b, one, n - 1);
    }
  }

  lemma {:induction false} TiesOfSeated<T>(sorted: seq<Keyed<T>>, more: Keyed<T>, one: Keyed<T>, n: nat)
    requires Seat(sorted, more, |sorted|) <= n <= |sorted|
    ensures Ties(Seated(sorted, more), one, n + 1) ==
            if SameKey(more, one) then Ties(sorted, one, n) + [more] else Ties(sorted, one, n)
    decreases n
  {
    var seat := Seat(sorted, more, |sorted|);
    if n == seat {
      TiesOfPrefix(Seated(sorted, more), sorted, one, n);
    } else {
      TiesOfSeated(sorted, more, one, n - 1);
      LessIsStrict(more.text, more.text);
      assert Precedes(more, sorted[n - 1]);
    }
  }

  lemma {:induction false} SortFirstIsStable<T>(items: seq<Keyed<T>>, one: Keyed<T>, n: nat)
    requires n <= |items|
    ensures Ties(SortFirst(items, n), one, n) == Ties(items, one, n)
  {
    if n > 0 {
      SortFirstIsStable(items, one, n - 1);
      TiesOfSeated(SortFirst(items, n - 1), items[n - 1], one, n - 1);
    }
  }

  /** The sort is a permutation in key order that keeps the order of items with one key. */
  lemma {:induction false} SortIsStable<T>(items: seq<Keyed<T>>)
    ensures InOrder(Sort(items)) && multiset(Sort(items)) == multiset(items)
    ensures forall one: Keyed<T> {:trigger Ties(items, one, |items|)} ::
              Ties(Sort(items), one, |items|) == Ties(items, one, |items|)
  {
    SortFirstIsInOrder(items, |items|);
    SortFirstKeepsAll(items, |items|);
    assert items[..|items|] == items;
    forall one: Keyed<T> ensures Ties(Sort(items), one, |items|) == Ties(items, one, |items|) {
      SortFirstIsStable(items, one, |items|);
    }
  }

  // --- one sorted list ---------------------------------------------------------------------

  lemma {:induction false} TiesOfLast<T>(items: seq<Keyed<T>>, one: Keyed<T>, n: nat)
    requires n <= |items|
    ensures forall i :: 0 <= i < n && SameKey(items[i], one) ==> Ties(items, one, n) != []
    ensures Ties(items, one, n) != [] ==> exists i :: 0 <= i < n && SameKey(items[i], one)
  {
    if n > 0 {
      TiesOfLast(items, one, n - 1);
    }
  }

  lemma {:induction false} NeitherIsSame<T>(a: Keyed<T>, b: Keyed<T>)
    requires !Precedes(a, b) && !Precedes(b, a)
    ensures SameKey(a, b)
  {
    LessIsTotal(a.text, b.text);
  }

  /** Where an item's key is found in an ordered list, its last item does not precede it. */
  lemma {:induction false} LastIsNotBefore<T>(items: seq<Keyed<T>>, one: Keyed<T>)
    requires InOrder(items) && Ties(items, one, |items|) != []
    ensures items != [] && !Precedes(items[|items| - 1], one)
  {
    TiesOfLast(items, one, |items|);
    var i :| 0 <= i < |items| && SameKey(items[i], one);
    LessIsStrict(items[i].text, items[i].text);
    assert i < |items| - 1 ==> !Precedes(items[|items| - 1], items[i]);
  }

  lemma {:induction false} SameLast<T>(a: seq<Keyed<T>>, b: seq<Keyed<T>>)
    requires InOrder(a) && InOrder(b) && a != [] && b != []
    requires forall one: Keyed<T> {:trigger Ties(a, one, |a|)} :: Ties(a, one, |a|) == Ties(b, one, |b|)
    ensures a[|a| - 1] == b[|b| - 1]
  {
    var x, y := a[|a| - 1], b[|b| - 1];
    assert Ties(a, x, |a|) == Ties(b, x, |b|) && Ties(a, y, |a|) == Ties(b, y, |b|);
    LastIsNotBefore(b, x);
    LastIsNotBefore(a, y);
    NeitherIsSame(x, y);
    assert Ties(a, x, |a|)[|Ties(a, x, |a|)| - 1] == x;
    assert Ties(b, x, |b|)[|Ties(b, x, |b|)| - 1] == y;
  }

  lemma {:induction false} TiesOfFront<T>(items: seq<Keyed<T>>, one: Keyed<T>)
    requires items != []
    ensures var front := items[..|items| - 1];
            Ties(items, one, |items|)
            == Ties(front, one, |front|) + if SameKey(items[|items| - 1], one) then [items[|items| - 1]] else []
  {
    TiesOfPrefix(items[..|items| - 1], items, one, |items| - 1);
  }

  lemma {:induction false} SameTies<T>(a: seq<Keyed<T>>, b: seq<Keyed<T>>, one: Keyed<T>)
    requires a != [] && b != [] && a[|a| - 1] == b[|b| - 1] && Ties(a, one, |a|) == Ties(b, one, |b|)
    ensures Ties(a[..|a| - 1], one, |a| - 1) == Ties(b[..|b| - 1], one, |b| - 1)
  {
    TiesOfFront(a, one);
    TiesOfFront(b, one);
    SameFront(Ties(a[..|a| - 1], one, |a| - 1), Ties(b[..|b| - 1], one, |b| - 1),
              if SameKey(a[|a| - 1], one) then [a[|a| - 1]] else []);
  }

  lemma {:induction false} SameFront<T>(a: seq<T>, b: seq<T>, tail: seq<T>)
    requires a + tail == b + tail
    ensures a == b
  {
    assert |a| == |b| && (a + tail)[..|a|] == a && (b + tail)[..|b|] == b;
  }

  lemma {:induction false} LastIsTie<T>(items: seq<Keyed<T>>)
    ensures items != [] ==> Ties(items, items[|items| - 1], |items|) != []
  {
  }

  /** Two ordered lists that keep the same items of every key, in the same order, are one. */
  lemma {:induction false} OrderedByTies<T>(a: seq<Keyed<T>>, b: seq<Keyed<T>>)
    requires InOrder(a) && InOrder(b)
    requires forall one: Keyed<T> {:trigger Ties(a, one, |a|)} :: Ties(a, one, |a|) == Ties(b, one, |b|)
    ensures a == b
    decreases |a|
  {
    LastIsTie(a);
    LastIsTie(b);
    assert b != [] ==> Ties(a, b[|b| - 1], |a|) == Ties(b, b[|b| - 1], |b|);
    if a != [] {
      SameLast(a, b);
      var fewer, others := a[..|a| - 1], b[..|b| - 1];
      forall one: Keyed<T> ensures Ties(fewer, one, |fewer|) == Ties(others, one, |others|) {
        assert Ties(a, one, |a|) == Ties(b, one, |b|);
        SameTies(a, b, one);
      }
      OrderedByTies(fewer, others);
      assert a == fewer + [a[|a| - 1]] && b == others + [b[|b| - 1]];
    }
  }
}
