/** Sequence functions and facts shared by the models. */
module Sequences {

  datatype Option<+T> = None | Some(value: T)

  function Concat<T>(parts: seq<seq<T>>): (s: seq<T>) {
    if parts == [] then [] else Concat(parts[..|parts| - 1]) + parts[|parts| - 1]
  }

  lemma ConcatSnoc<T>(parts: seq<seq<T>>, last: seq<T>)
    ensures Concat(parts + [last]) == Concat(parts) + last
  {
    assert (parts + [last])[..|parts|] == parts;
  }

  lemma Rejoin<T>(s: seq<T>, lo: nat, hi: nat)
    requires lo <= hi <= |s|
    ensures s[..lo] + s[lo..hi] + s[hi..] == s
  {
  }

  lemma SameMembers<T>(a: seq<T>, b: seq<T>)
    requires multiset(a) == multiset(b)
    ensures forall x :: x in a <==> x in b
    ensures |a| == |b|
  {
    assert forall x :: x in a <==> x in multiset(a);
    assert forall x :: x in b <==> x in multiset(b);
    assert |a| == |multiset(a)| == |multiset(b)| == |b|;
  }

  lemma CancelOne<T>(a: multiset<T>, b: multiset<T>, x: T)
    requires a + multiset{x} == b + multiset{x}
    ensures a == b
  {
    forall y ensures a[y] == b[y] {
      assert (a + multiset{x})[y] == (b + multiset{x})[y];
    }
  }

  /** One occurrence of `x` can be taken out of any arrangement of `c + [x]`. */
  lemma TakeOut<T>(c: seq<T>, x: T, b: seq<T>) returns (l: seq<T>, r: seq<T>)
    requires multiset(c + [x]) == multiset(b)
    ensures b == l + [x] + r && multiset(c) == multiset(l + r)
  {
    assert x in multiset(b);
    var j :| 0 <= j < |b| && b[j] == x;
    l, r := b[..j], b[j + 1..];
    assert b == l + [x] + r;
    CancelOne(multiset(c), multiset(l + r), x);
  }

  function FlatMap<T, U>(f: T -> seq<U>, s: seq<T>): (r: seq<U>) {
    if s == [] then [] else FlatMap(f, s[..|s| - 1]) + f(s[|s| - 1])
  }

  lemma FlatMapSnoc<T, U>(f: T -> seq<U>, s: seq<T>, x: T)
    ensures FlatMap(f, s + [x]) == FlatMap(f, s) + f(x)
  {
    assert (s + [x])[..|s|] == s;
  }

  lemma Associative<T>(a: seq<T>, b: seq<T>, c: seq<T>)
    ensures a + (b + c) == a + b + c
  {
  }

  lemma {:induction false} FlatMapConcat<T, U>(f: T -> seq<U>, a: seq<T>, b: seq<T>)
    ensures FlatMap(f, a + b) == FlatMap(f, a) + FlatMap(f, b)
  {
    if b == [] {
      assert a + b == a;
    } else {
      var (c, x) := (b[..|b| - 1], b[|b| - 1]);
      assert b == c + [x];
      calc {
        FlatMap(f, a + b);
        { Associative(a, c, [x]); }
        FlatMap(f, a + c + [x]);
        { FlatMapSnoc(f, a + c, x); }
        FlatMap(f, a + c) + f(x);
        { FlatMapConcat(f, a, c); }
        FlatMap(f, a) + FlatMap(f, c) + f(x);
        { Associative(FlatMap(f, a), FlatMap(f, c), f(x)); }
        FlatMap(f, a) + (FlatMap(f, c) + f(x));
        { FlatMapSnoc(f, c, x); }
        FlatMap(f, a) + FlatMap(f, b);
      }
    }
  }

  lemma FlatMapPrefix<T, U>(f: T -> seq<U>, a: seq<T>, b: seq<T>)
    requires a <= b
    ensures FlatMap(f, a) <= FlatMap(f, b)
  {
    FlatMapConcat(f, a, b[|a|..]);
    assert b == a + b[|a|..];
  }

  lemma {:induction false} FlatMapMember<T, U>(f: T -> seq<U>, s: seq<T>, y: U)
    ensures y in FlatMap(f, s) <==> exists x :: x in s && y in f(x)
  {
    if s != [] {
      FlatMapMember(f, s[..|s| - 1], y);
      assert s == s[..|s| - 1] + [s[|s| - 1]];
    }
  }

  lemma {:induction false} FlatMapLength<T, U>(f: T -> seq<U>, s: seq<T>)
    requires forall x :: |f(x)| <= 1
    ensures |FlatMap(f, s)| <= |s|
  {
    if s != [] {
      FlatMapLength(f, s[..|s| - 1]);
    }
  }

  /** The element whose image holds position `p`. */
  lemma {:induction false} FlatMapIndex<T, U>(f: T -> seq<U>, s: seq<T>, p: nat) returns (i: nat)
    requires p < |FlatMap(f, s)|
    ensures i < |s| && FlatMap(f, s)[p] in f(s[i])
    ensures |FlatMap(f, s[..i])| <= p < |FlatMap(f, s[..i + 1])|
  {
    var before := s[..|s| - 1];
    if p < |FlatMap(f, before)| {
      i := FlatMapIndex(f, before, p);
      assert before[..i] == s[..i] && before[..i + 1] == s[..i + 1];
    } else {
      i := |s| - 1;
      assert s[..i + 1] == s;
    }
  }

  lemma FlatMapIndexMonotone<T, U>(f: T -> seq<U>, s: seq<T>, p: nat, q: nat, i: nat, j: nat)
    requires i < |s| && j < |s| && p <= q
    requires |FlatMap(f, s[..i])| <= p && q < |FlatMap(f, s[..j + 1])|
    ensures i <= j
  {
    if j < i {
      FlatMapPrefix(f, s[..j + 1], s[..i]);
    }
  }

  /** The first `n` elements, or all if there are fewer. */
  function Take<T>(s: seq<T>, n: nat): (r: seq<T>)
    ensures r <= s && |r| <= n
  {
    if |s| <= n then s else s[..n]
  }

  ghost predicate Distinct<T>(s: seq<T>) {
    forall i, j | 0 <= i < j < |s| :: s[i] != s[j]
  }

  lemma {:induction false} Pigeonhole(s: seq<nat>, n: nat)
    requires Distinct(s) && forall x | x in s :: x < n
    ensures |s| <= n
    decreases n
  {
    if s != [] {
      assert s[0] in s;
      if n - 1 in s {
        var i :| 0 <= i < |s| && s[i] == n - 1;
        var t := s[..i] + s[i + 1..];
        forall x | x in t ensures x < n - 1 {
          var j :| 0 <= j < |t| && t[j] == x;
          var k := if j < i then j else j + 1;
          assert s[k] == x && s[k] in s && s[k] != s[i];
        }
        Pigeonhole(t, n - 1);
      } else {
        Pigeonhole(s, n - 1);
      }
    }
  }

  lemma DistinctAppend<T>(a: seq<T>, b: seq<T>)
    requires Distinct(a) && Distinct(b) && forall v | v in b :: v !in a
    ensures Distinct(a + b)
  {
    forall i, j | 0 <= i < j < |a + b| ensures (a + b)[i] != (a + b)[j] {
      if i < |a| <= j {
        assert b[j - |a|] in b && a[i] in a;
      }
    }
  }

  /** Disjoint images of distinct elements stay distinct. */
  lemma {:induction false} FlatMapDistinct<T, U>(f: T -> seq<U>, s: seq<T>)
    requires Distinct(s) && forall x | x in s :: Distinct(f(x))
    requires forall x, x', y | x in s && x' in s && y in f(x) && y in f(x') :: x == x'
    ensures Distinct(FlatMap(f, s))
  {
    if s != [] {
      var (before, x) := (s[..|s| - 1], s[|s| - 1]);
      assert s == before + [x];
      FlatMapDistinct(f, before);
      forall y | y in FlatMap(f, before) ensures y !in f(x) {
        FlatMapMember(f, before, y);
        var w :| w in before && y in f(w);
        assert w in s && x in s;
        assert w != x by {
          var i :| 0 <= i < |before| && before[i] == w;
          assert s[i] == w && s[|before|] == x;
        }
      }
      DistinctAppend(FlatMap(f, before), f(x));
    }
  }
}
