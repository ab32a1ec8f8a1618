/** Sorted permutations, and counting in them. `Sort` stands for the library sorts the
    programs call (`sort_unstable`): a sorted permutation is unique, so nothing else
    about the library's algorithm can be observed. */
module Sorting {
  import opened Sequences

  ghost predicate TotalOrder<T(!new)>(leq: (T, T) -> bool) {
    && (forall x, y :: leq(x, y) || leq(y, x))
    && (forall x, y :: leq(x, y) && leq(y, x) ==> x == y)
    && (forall x, y, z :: leq(x, y) && leq(y, z) ==> leq(x, z))
  }

  predicate NatLeq(a: nat, b: nat) {
    a <= b
  }

  lemma NatOrder()
    ensures TotalOrder(NatLeq)
  {
  }

  ghost predicate Sorted<T>(leq: (T, T) -> bool, s: seq<T>) {
    forall i, j | 0 <= i < j < |s| :: leq(s[i], s[j])
  }

  function Insert<T>(leq: (T, T) -> bool, x: T, s: seq<T>): (r: seq<T>)
    ensures multiset(r) == multiset(s) + multiset{x}
  {
    if s == [] || leq(x, s[0]) then
      [x] + s
    else
      assert s == [s[0]] + s[1..];
      [s[0]] + Insert(leq, x, s[1..])
  }

  function Sort<T>(leq: (T, T) -> bool, s: seq<T>): (r: seq<T>)
    ensures multiset(r) == multiset(s)
  {
    if s == [] then [] else
      assert s == s[..|s| - 1] + [s[|s| - 1]];
      Insert(leq, s[|s| - 1], Sort(leq, s[..|s| - 1]))
  }

  lemma {:induction false} InsertSorted<T(!new)>(leq: (T, T) -> bool, x: T, s: seq<T>)
    requires TotalOrder(leq) && Sorted(leq, s)
    ensures Sorted(leq, Insert(leq, x, s))
  {
    if s != [] && !leq(x, s[0]) {
      InsertSorted(leq, x, s[1..]);
      var rest := Insert(leq, x, s[1..]);
      forall y | y in rest ensures leq(s[0], y) {
        assert y in multiset(rest);
        assert y in s[1..] || y == x;
      }
    }
  }

  lemma {:induction false} SortSorted<T(!new)>(leq: (T, T) -> bool, s: seq<T>)
    requires TotalOrder(leq)
    ensures Sorted(leq, Sort(leq, s))
  {
    if s != [] {
      SortSorted(leq, s[..|s| - 1]);
      InsertSorted(leq, s[|s| - 1], Sort(leq, s[..|s| - 1]));
    }
  }

  lemma LastApart<T>(s: seq<T>)
    requires s != []
    ensures multiset(s[..|s| - 1]) == multiset(s) - multiset{s[|s| - 1]}
  {
    assert s == s[..|s| - 1] + [s[|s| - 1]];
  }

  lemma SnocEqual<T>(a: seq<T>, b: seq<T>)
    requires a != [] && b != [] && a[|a| - 1] == b[|b| - 1]
    requires a[..|a| - 1] == b[..|b| - 1]
    ensures a == b
  {
    assert a == a[..|a| - 1] + [a[|a| - 1]];
    assert b == b[..|b| - 1] + [b[|b| - 1]];
  }

  lemma SortedInit<T>(leq: (T, T) -> bool, s: seq<T>)
    requires Sorted(leq, s) && s != []
    ensures Sorted(leq, s[..|s| - 1])
  {
  }

  lemma SameLast<T(!new)>(leq: (T, T) -> bool, a: seq<T>, b: seq<T>)
    requires TotalOrder(leq) && Sorted(leq, a) && Sorted(leq, b)
    requires multiset(a) == multiset(b) && a != []
    ensures b != [] && a[|a| - 1] == b[|b| - 1]
  {
    var x := a[|a| - 1];
    assert x in multiset(b);
    var y := b[|b| - 1];
    assert y in multiset(a);
    assert leq(x, y) && leq(y, x);
  }

  /** A multiset has one sorted arrangement only. */
  lemma {:induction false} SortedUnique<T(!new)>(leq: (T, T) -> bool, a: seq<T>, b: seq<T>)
    requires TotalOrder(leq) && Sorted(leq, a) && Sorted(leq, b)
    requires multiset(a) == multiset(b)
    ensures a == b
  {
    if a == [] {
      assert |multiset(b)| == 0;
    } else {
      SameLast(leq, a, b);
      LastApart(a);
      LastApart(b);
      SortedInit(leq, a);
      SortedInit(leq, b);
      SortedUnique(leq, a[..|a| - 1], b[..|b| - 1]);
      SnocEqual(a, b);
    }
  }

  // ---- counting ----

  function CountIf<T>(p: T -> bool, s: seq<T>): (n: nat)
    ensures n <= |s|
  {
    if s == [] then 0 else CountIf(p, s[..|s| - 1]) + if p(s[|s| - 1]) then 1 else 0
  }

  /** Where the elements of the class stand. */
  ghost function Positions<T>(p: T -> bool, s: seq<T>): (at: set<nat>) {
    set i: nat | i < |s| && p(s[i])
  }

  /** `CountIf` is the number of positions. */
  lemma {:induction false} CountMeaning<T>(p: T -> bool, s: seq<T>)
    ensures CountIf(p, s) == |Positions(p, s)|
  {
    if s == [] {
      assert Positions(p, s) == {};
    } else {
      var n := |s| - 1;
      CountMeaning(p, s[..n]);
      assert Positions(p, s) == Positions(p, s[..n]) + if p(s[n]) then {n} else {};
    }
  }

  function AtMost(v: nat): nat -> bool {
    (x: nat) => x <= v
  }

  function LessThan(v: nat): nat -> bool {
    (x: nat) => x < v
  }

  lemma CountSnoc<T>(p: T -> bool, s: seq<T>, x: T)
    ensures CountIf(p, s + [x]) == CountIf(p, s) + if p(x) then 1 else 0
  {
    assert (s + [x])[..|s|] == s;
  }

  lemma {:induction false} CountConcat<T>(p: T -> bool, a: seq<T>, b: seq<T>)
    ensures CountIf(p, a + b) == CountIf(p, a) + CountIf(p, b)
  {
    if b == [] {
      assert a + b == a;
    } else {
      var (c, x) := (b[..|b| - 1], b[|b| - 1]);
      CountConcat(p, a, c);
      CountSnoc(p, a + c, x);
      assert a + b == a + c + [x];
    }
  }

  lemma CountPrefix<T>(p: T -> bool, s: seq<T>, k: nat)
    requires k < |s|
    ensures CountIf(p, s[..k + 1]) == CountIf(p, s[..k]) + if p(s[k]) then 1 else 0
  {
    assert s[..k + 1] == s[..k] + [s[k]];
    CountSnoc(p, s[..k], s[k]);
  }

  lemma {:induction false} CountAll<T>(p: T -> bool, s: seq<T>)
    ensures (forall x | x in s :: p(x)) ==> CountIf(p, s) == |s|
    ensures (forall x | x in s :: !p(x)) <==> CountIf(p, s) == 0
  {
    if s != [] {
      CountAll(p, s[..|s| - 1]);
      assert s == s[..|s| - 1] + [s[|s| - 1]];
    }
  }

  /** Counting sees only the multiset. */
  lemma {:induction false} CountPermutation<T>(p: T -> bool, a: seq<T>, b: seq<T>)
    requires multiset(a) == multiset(b)
    ensures CountIf(p, a) == CountIf(p, b)
  {
    if a == [] {
      assert |multiset(b)| == 0;
    } else {
      var (c, x) := (a[..|a| - 1], a[|a| - 1]);
      assert a == c + [x];
      var l, r := TakeOut(c, x, b);
      CountPermutation(p, c, l + r);
      CountConcat(p, l, r);
      CountSnoc(p, l, x);
      CountConcat(p, l + [x], r);
    }
  }

  ghost predicate DownClosed<T(!new)>(leq: (T, T) -> bool, p: T -> bool) {
    forall x, y :: leq(x, y) && p(y) ==> p(x)
  }

  /** In a sorted list the elements of a downward-closed class are the first
      `CountIf` ones. */
  lemma {:induction false} CountSorted<T(!new)>(leq: (T, T) -> bool, p: T -> bool, s: seq<T>, k: nat)
    requires TotalOrder(leq) && Sorted(leq, s) && DownClosed(leq, p) && k < |s|
    ensures p(s[k]) <==> k < CountIf(p, s)
  {
    assert s == s[..k] + [s[k]] + s[k + 1..];
    CountConcat(p, s[..k] + [s[k]], s[k + 1..]);
    CountSnoc(p, s[..k], s[k]);
    if p(s[k]) {
      forall x | x in s[..k] ensures p(x) {
        assert leq(x, s[k]);
      }
      CountAll(p, s[..k]);
    } else {
      forall x | x in s[k + 1..] ensures !p(x) {
        assert leq(s[k], x);
      }
      CountAll(p, s[k + 1..]);
    }
  }

  /** Around position `i` of a sorted list. */
  lemma CountAround(sorted: seq<nat>, i: nat, v: nat)
    requires Sorted(NatLeq, sorted) && i < |sorted| && v == sorted[i]
    ensures CountIf(AtMost(v), sorted) > i && CountIf(LessThan(v), sorted) <= i
  {
    NatOrder();
    CountSorted(NatLeq, AtMost(v), sorted, i);
    CountSorted(NatLeq, LessThan(v), sorted, i);
  }
}
