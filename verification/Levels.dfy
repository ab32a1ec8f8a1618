/** Breadth-first levels of a successor function: the nodes first met after 0, 1, 2, ...
    steps, in the order they are met, and what they mean in terms of paths. */
module Levels {
  import opened Sequences

  /** The first occurrences of the nodes of `entries` that are not in `visited`. */
  function Fresh(entries: seq<nat>, visited: set<nat>): (ns: seq<nat>) {
    if entries == [] then [] else
      var ns := Fresh(entries[..|entries| - 1], visited);
      var v := entries[|entries| - 1];
      if v in visited || v in ns then ns else ns + [v]
  }

  lemma {:induction false} FreshMember(entries: seq<nat>, visited: set<nat>, v: nat)
    ensures v in Fresh(entries, visited) <==> v in entries && v !in visited
  {
    if entries != [] {
      FreshMember(entries[..|entries| - 1], visited, v);
      assert entries == entries[..|entries| - 1] + [entries[|entries| - 1]];
    }
  }

  function Members(nodes: seq<nat>): (vs: set<nat>)
    ensures forall v :: v in vs <==> v in nodes
  {
    set v | v in nodes
  }

  function Entries(succ: nat -> seq<nat>, root: nat, k: nat): (vs: seq<nat>)
    decreases k, 0
  {
    if k == 0 then [root] else FlatMap(succ, Level(succ, root, k - 1))
  }

  function Before(succ: nat -> seq<nat>, root: nat, k: nat): (vs: set<nat>)
    decreases k, 0
  {
    if k == 0 then {} else Before(succ, root, k - 1) + Members(Level(succ, root, k - 1))
  }

  /** The nodes first met after `k` steps, in the order they are met. */
  function Level(succ: nat -> seq<nat>, root: nat, k: nat): (vs: seq<nat>)
    decreases k, 1
  {
    Fresh(Entries(succ, root, k), Before(succ, root, k))
  }

  /** The nodes of the first `d` levels. */
  function Expanded(succ: nat -> seq<nat>, root: nat, d: nat): (vs: seq<nat>) {
    if d == 0 then [] else Expanded(succ, root, d - 1) + Level(succ, root, d - 1)
  }

  lemma {:induction false} ExpandedPrefix(succ: nat -> seq<nat>, root: nat, d: nat, e: nat)
    requires d <= e
    ensures Expanded(succ, root, d) <= Expanded(succ, root, e)
    decreases e
  {
    if d < e {
      ExpandedPrefix(succ, root, d, e - 1);
    }
  }

  lemma EmptyLevel(succ: nat -> seq<nat>, root: nat, k: nat)
    requires Entries(succ, root, k) == []
    ensures Level(succ, root, k) == [] && Entries(succ, root, k + 1) == []
  {
    assert Level(succ, root, k) == [];
  }

  /** Once a level has no entries, nothing more is expanded. */
  lemma {:induction false} Exhausted(succ: nat -> seq<nat>, root: nat, k: nat, d: nat)
    requires k <= d && Entries(succ, root, k) == []
    ensures Expanded(succ, root, d) == Expanded(succ, root, k)
    ensures Entries(succ, root, d) == []
    decreases d
  {
    if k < d {
      Exhausted(succ, root, k, d - 1);
      EmptyLevel(succ, root, d - 1);
    }
  }

  // ---- paths ----

  ghost predicate StepAt(succ: nat -> seq<nat>, path: seq<nat>, i: nat)
    requires i + 1 < |path|
  {
    path[i + 1] in succ(path[i])
  }

  ghost predicate IsPath(succ: nat -> seq<nat>, path: seq<nat>) {
    forall i: nat | i + 1 < |path| :: StepAt(succ, path, i)
  }

  /** There is a path of exactly `n` arrows from `root` to `v`. */
  ghost predicate Reaches(succ: nat -> seq<nat>, root: nat, v: nat, n: nat) {
    exists path :: |path| == n + 1 && path[0] == root && path[n] == v && IsPath(succ, path)
  }

  /** There is a path of fewer than `n` arrows. */
  ghost predicate Closer(succ: nat -> seq<nat>, root: nat, v: nat, n: nat) {
    exists m: nat :: m < n && Reaches(succ, root, v, m)
  }

  ghost predicate DistanceIs(succ: nat -> seq<nat>, root: nat, v: nat, n: nat) {
    Reaches(succ, root, v, n) && !Closer(succ, root, v, n)
  }

  lemma CloserStep(succ: nat -> seq<nat>, root: nat, v: nat, n: nat)
    ensures Closer(succ, root, v, n + 1) <==> Closer(succ, root, v, n) || Reaches(succ, root, v, n)
  {
  }

  lemma ReachesRoot(succ: nat -> seq<nat>, root: nat, v: nat)
    ensures Reaches(succ, root, v, 0) <==> v == root
  {
    if v == root {
      assert |[root]| == 1 && IsPath(succ, [root]);
    }
  }

  lemma Extend(succ: nat -> seq<nat>, root: nat, u: nat, v: nat, n: nat)
    requires Reaches(succ, root, u, n) && v in succ(u)
    ensures Reaches(succ, root, v, n + 1)
  {
    var path :| |path| == n + 1 && path[0] == root && path[n] == u && IsPath(succ, path);
    var longer := path + [v];
    forall i: nat | i + 1 < |longer| ensures StepAt(succ, longer, i) {
      if i < n {
        assert StepAt(succ, path, i);
      }
    }
    assert |longer| == n + 2 && IsPath(succ, longer);
  }

  lemma Retract(succ: nat -> seq<nat>, root: nat, v: nat, n: nat) returns (u: nat)
    requires Reaches(succ, root, v, n + 1)
    ensures Reaches(succ, root, u, n) && v in succ(u)
  {
    var path :| |path| == n + 2 && path[0] == root && path[n + 1] == v && IsPath(succ, path);
    u := path[n];
    var shorter := path[..n + 1];
    forall i: nat | i + 1 < |shorter| ensures StepAt(succ, shorter, i) {
      assert StepAt(succ, path, i);
    }
    assert |shorter| == n + 1 && IsPath(succ, shorter);
    assert StepAt(succ, path, n);
  }

  lemma NoShortcut(succ: nat -> seq<nat>, root: nat, u: nat, v: nat, k: nat)
    requires v in succ(u)
    ensures Closer(succ, root, u, k) ==> Closer(succ, root, v, k + 1)
  {
    if Closer(succ, root, u, k) {
      var m: nat :| m < k && Reaches(succ, root, u, m);
      Extend(succ, root, u, v, m);
    }
  }

  lemma EntryPredecessor(succ: nat -> seq<nat>, root: nat, k: nat, v: nat) returns (u: nat)
    requires k > 0 && v in Entries(succ, root, k)
    ensures u in Level(succ, root, k - 1) && v in succ(u)
  {
    FlatMapMember(succ, Level(succ, root, k - 1), v);
    u :| u in Level(succ, root, k - 1) && v in succ(u);
  }

  /** The nodes met before level `k` are those with a path shorter than `k`, and level
      `k` consists of the nodes at distance `k`. */
  lemma {:induction false} LevelIsDistance(succ: nat -> seq<nat>, root: nat, k: nat, v: nat)
    ensures v in Before(succ, root, k) <==> Closer(succ, root, v, k)
    ensures v in Level(succ, root, k) <==> DistanceIs(succ, root, v, k)
    decreases k, 1
  {
    FreshMember(Entries(succ, root, k), Before(succ, root, k), v);
    if k == 0 {
      ReachesRoot(succ, root, v);
    } else {
      LevelIsDistance(succ, root, k - 1, v);
      CloserStep(succ, root, v, k - 1);
      EntryIsReached(succ, root, k, v);
      ReachedIsEntry(succ, root, k, v);
    }
  }

  lemma {:induction false} EntryIsReached(succ: nat -> seq<nat>, root: nat, k: nat, v: nat)
    requires k > 0
    ensures v in Entries(succ, root, k) ==> Reaches(succ, root, v, k)
    decreases k, 0
  {
    if v in Entries(succ, root, k) {
      var u := EntryPredecessor(succ, root, k, v);
      LevelIsReached(succ, root, k - 1, u);
      Extend(succ, root, u, v, k - 1);
    }
  }

  lemma {:induction false} LevelIsReached(succ: nat -> seq<nat>, root: nat, k: nat, u: nat)
    requires u in Level(succ, root, k)
    ensures Reaches(succ, root, u, k)
    decreases k, 2
  {
    LevelIsDistance(succ, root, k, u);
  }

  /** The predecessor on a shortest path is itself at its own distance. */
  lemma {:induction false} ReachedIsEntry(succ: nat -> seq<nat>, root: nat, k: nat, v: nat)
    requires k > 0
    ensures DistanceIs(succ, root, v, k) ==> v in Entries(succ, root, k)
    decreases k, 0
  {
    if DistanceIs(succ, root, v, k) {
      var u := Retract(succ, root, v, k - 1);
      NoShortcut(succ, root, u, v, k - 1);
      LevelIsDistance(succ, root, k - 1, u);
      FlatMapMember(succ, Level(succ, root, k - 1), v);
    }
  }

  // ---- each node once, nearer nodes first ----

  lemma {:induction false} FreshDistinct(entries: seq<nat>, visited: set<nat>)
    ensures Distinct(Fresh(entries, visited))
  {
    if entries != [] {
      FreshDistinct(entries[..|entries| - 1], visited);
    }
  }

  lemma {:induction false} ExpandedMeaning(succ: nat -> seq<nat>, root: nat, d: nat)
    ensures Distinct(Expanded(succ, root, d))
    ensures forall v :: v in Expanded(succ, root, d) <==> v in Before(succ, root, d)
  {
    if d > 0 {
      ExpandedMeaning(succ, root, d - 1);
      var level := Level(succ, root, d - 1);
      FreshDistinct(Entries(succ, root, d - 1), Before(succ, root, d - 1));
      forall v: nat | v in level ensures v !in Expanded(succ, root, d - 1) {
        FreshMember(Entries(succ, root, d - 1), Before(succ, root, d - 1), v);
      }
      DistinctAppend(Expanded(succ, root, d - 1), level);
    }
  }

  lemma {:induction false} LevelOfIndex(succ: nat -> seq<nat>, root: nat, d: nat, i: nat) returns (k: nat)
    requires i < |Expanded(succ, root, d)|
    ensures k < d && |Expanded(succ, root, k)| <= i < |Expanded(succ, root, k + 1)|
    ensures Expanded(succ, root, d)[i] in Level(succ, root, k)
  {
    if i < |Expanded(succ, root, d - 1)| {
      k := LevelOfIndex(succ, root, d - 1, i);
    } else {
      k := d - 1;
    }
  }

  /** Expansion visits exactly the nodes with a path shorter than `d`, each once. */
  lemma ExpandsByDistance(succ: nat -> seq<nat>, root: nat, d: nat)
    ensures Distinct(Expanded(succ, root, d))
    ensures forall v: nat :: v in Expanded(succ, root, d) <==> Closer(succ, root, v, d)
  {
    ExpandedMeaning(succ, root, d);
    forall v: nat ensures v in Expanded(succ, root, d) <==> Closer(succ, root, v, d) {
      LevelIsDistance(succ, root, d, v);
    }
  }

  lemma LevelsInOrder(succ: nat -> seq<nat>, root: nat, i: nat, j: nat, m: nat, n: nat)
    requires i <= j && |Expanded(succ, root, m)| <= i && j < |Expanded(succ, root, n + 1)|
    ensures m <= n
  {
    if n < m {
      ExpandedPrefix(succ, root, n + 1, m);
    }
  }

  /** Nearer nodes are expanded first. */
  lemma NearerFirst(succ: nat -> seq<nat>, root: nat, d: nat, i: nat, j: nat)
    returns (m: nat, n: nat)
    requires i <= j < |Expanded(succ, root, d)|
    ensures DistanceIs(succ, root, Expanded(succ, root, d)[i], m)
    ensures DistanceIs(succ, root, Expanded(succ, root, d)[j], n)
    ensures m <= n < d
  {
    m := LevelOfIndex(succ, root, d, i);
    n := LevelOfIndex(succ, root, d, j);
    LevelIsDistance(succ, root, m, Expanded(succ, root, d)[i]);
    LevelIsDistance(succ, root, n, Expanded(succ, root, d)[j]);
    LevelsInOrder(succ, root, i, j, m, n);
  }
}
