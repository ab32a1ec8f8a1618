/** A first-in first-out queue of (node, depth) entries walks the levels in order. */
module LevelQueue {
  import opened Sequences
  import opened Levels

  datatype Entry = Entry(node: nat, depth: nat)

  function Tag(nodes: seq<nat>, depth: nat): (es: seq<Entry>)
    ensures |es| == |nodes|
  {
    seq(|nodes|, i requires 0 <= i < |nodes| => Entry(nodes[i], depth))
  }

  lemma TagConcat(a: seq<nat>, b: seq<nat>, k: nat)
    ensures Tag(a + b, k) == Tag(a, k) + Tag(b, k)
  {
  }

  /** The nodes of a level expanded once `i` of its entries are handled; at the depth bound
      nothing is expanded any more. */
  function Firsts(entries: seq<nat>, before: set<nat>, expanding: bool, i: nat): (ns: seq<nat>)
    requires i <= |entries|
  {
    if expanding then Fresh(entries[..i], before) else []
  }

  /** The rest of level k's entries, then the targets of the expanded `nodes`. */
  function QueueAt(succ: nat -> seq<nat>, entries: seq<nat>, k: nat, i: nat, nodes: seq<nat>): (q: seq<Entry>)
    requires i <= |entries|
  {
    Tag(entries[i..], k) + Tag(FlatMap(succ, nodes), k + 1)
  }

  ghost predicate StateAt(succ: nat -> seq<nat>, entries: seq<nat>, before: set<nat>, expanded: seq<nat>,
                          k: nat, i: nat, nodes: seq<nat>,
                          queue: seq<Entry>, visited: set<nat>, done: seq<nat>)
  {
    && i <= |entries|
    && queue == QueueAt(succ, entries, k, i, nodes)
    && visited == before + Members(nodes)
    && done == expanded + nodes
  }

  /** The state of the search with `k` the depth of the queue's head and `done` the nodes
      expanded so far. */
  ghost predicate Progress(succ: nat -> seq<nat>, root: nat, d: nat, k: nat, i: nat,
                           queue: seq<Entry>, visited: set<nat>, done: seq<nat>)
  {
    var (entries, before) := (Entries(succ, root, k), Before(succ, root, k));
    && k <= d && i <= |entries|
    && StateAt(succ, entries, before, Expanded(succ, root, k), k, i, Firsts(entries, before, k < d, i),
               queue, visited, done)
  }

  lemma Start(succ: nat -> seq<nat>, root: nat, d: nat)
    ensures Progress(succ, root, d, 0, 0, [Entry(root, 0)], {}, [])
  {
    assert Entries(succ, root, 0)[..0] == [];
    assert Entries(succ, root, 0)[0..] == [root];
  }

  /** Level k is used up: the queue holds exactly the entries of level k + 1. */
  lemma NextLevel(succ: nat -> seq<nat>, root: nat, d: nat, k: nat,
                  queue: seq<Entry>, visited: set<nat>, done: seq<nat>)
    requires Progress(succ, root, d, k, |Entries(succ, root, k)|, queue, visited, done) && k < d
    ensures Progress(succ, root, d, k + 1, 0, queue, visited, done)
  {
    var entries := Entries(succ, root, k);
    assert entries[..|entries|] == entries && entries[|entries|..] == [];
    var next := Entries(succ, root, k + 1);
    assert next[0..] == next && next[..0] == [];
  }

  lemma FreshStep(entries: seq<nat>, i: nat, visited: set<nat>)
    requires i < |entries|
    ensures Fresh(entries[..i + 1], visited)
         == if entries[i] in visited + Members(Fresh(entries[..i], visited))
            then Fresh(entries[..i], visited)
            else Fresh(entries[..i], visited) + [entries[i]]
  {
    assert entries[..i + 1][..i] == entries[..i];
  }

  lemma QueueDrops(succ: nat -> seq<nat>, entries: seq<nat>, k: nat, i: nat, nodes: seq<nat>)
    requires i < |entries|
    ensures QueueAt(succ, entries, k, i, nodes) != []
    ensures QueueAt(succ, entries, k, i, nodes)[0] == Entry(entries[i], k)
    ensures QueueAt(succ, entries, k, i, nodes)[1..] == QueueAt(succ, entries, k, i + 1, nodes)
  {
  }

  lemma QueueGrows(succ: nat -> seq<nat>, entries: seq<nat>, k: nat, i: nat, nodes: seq<nat>, node: nat)
    requires i <= |entries|
    ensures QueueAt(succ, entries, k, i, nodes + [node])
         == QueueAt(succ, entries, k, i, nodes) + Tag(succ(node), k + 1)
  {
    FlatMapSnoc(succ, nodes, node);
    TagConcat(FlatMap(succ, nodes), succ(node), k + 1);
  }

  /** An entry at the depth bound, or of a node seen before, is dropped. */
  lemma DropEntry(succ: nat -> seq<nat>, root: nat, d: nat, k: nat, i: nat,
                  queue: seq<Entry>, visited: set<nat>, done: seq<nat>)
    requires Progress(succ, root, d, k, i, queue, visited, done) && i < |Entries(succ, root, k)|
    requires k == d || Entries(succ, root, k)[i] in visited
    ensures queue != [] && Progress(succ, root, d, k, i + 1, queue[1..], visited, done)
  {
    var (entries, before) := (Entries(succ, root, k), Before(succ, root, k));
    FreshStep(entries, i, before);
    QueueDrops(succ, entries, k, i, Firsts(entries, before, k < d, i));
  }

  lemma ExpandNode(succ: nat -> seq<nat>, entries: seq<nat>, before: set<nat>, expanded: seq<nat>,
                   k: nat, i: nat, nodes: seq<nat>,
                   queue: seq<Entry>, visited: set<nat>, done: seq<nat>, node: nat)
    requires i < |entries| && StateAt(succ, entries, before, expanded, k, i, nodes, queue, visited, done)
    ensures queue != []
    ensures StateAt(succ, entries, before, expanded, k, i + 1, nodes + [node],
                    queue[1..] + Tag(succ(node), k + 1), visited + {node}, done + [node])
  {
    QueueDrops(succ, entries, k, i, nodes);
    QueueGrows(succ, entries, k, i + 1, nodes, node);
    Associative(expanded, nodes, [node]);
  }

  /** A new node above the depth bound is expanded: its targets join the queue. */
  lemma ExpandEntry(succ: nat -> seq<nat>, root: nat, d: nat, k: nat, i: nat,
                    queue: seq<Entry>, visited: set<nat>, done: seq<nat>, node: nat)
    requires Progress(succ, root, d, k, i, queue, visited, done) && i < |Entries(succ, root, k)|
    requires k < d && node == Entries(succ, root, k)[i] && node !in visited
    ensures queue != []
    ensures Progress(succ, root, d, k, i + 1, queue[1..] + Tag(succ(node), k + 1), visited + {node}, done + [node])
  {
    var (entries, before) := (Entries(succ, root, k), Before(succ, root, k));
    FreshStep(entries, i, before);
    ExpandNode(succ, entries, before, Expanded(succ, root, k), k, i, Firsts(entries, before, k < d, i),
               queue, visited, done, node);
  }

  lemma {:induction false} FreshPrefix(entries: seq<nat>, i: nat, visited: set<nat>)
    requires i <= |entries|
    ensures Fresh(entries[..i], visited) <= Fresh(entries, visited)
    decreases |entries|
  {
    if i < |entries| {
      var before := entries[..|entries| - 1];
      FreshPrefix(before, i, visited);
      assert before[..i] == entries[..i];
    } else {
      assert entries[..i] == entries;
    }
  }

  lemma PrefixChain(a: seq<nat>, b: seq<nat>, c: seq<nat>)
    requires a <= b <= c
    ensures a <= c
  {
  }

  /** The nodes expanded so far are the first of those the levels prescribe. */
  lemma DonePrefix(succ: nat -> seq<nat>, root: nat, d: nat, k: nat, i: nat,
                   queue: seq<Entry>, visited: set<nat>, done: seq<nat>)
    requires Progress(succ, root, d, k, i, queue, visited, done)
    ensures done <= Expanded(succ, root, d)
  {
    if k < d {
      FreshPrefix(Entries(succ, root, k), i, Before(succ, root, k));
      ExpandedPrefix(succ, root, k + 1, d);
      PrefixChain(done, Expanded(succ, root, k + 1), Expanded(succ, root, d));
    }
  }

  lemma EmptyQueue(succ: nat -> seq<nat>, entries: seq<nat>, k: nat, i: nat, nodes: seq<nat>)
    requires i <= |entries| && QueueAt(succ, entries, k, i, nodes) == []
    ensures i == |entries| && FlatMap(succ, nodes) == []
  {
  }

  /** An empty queue means everything the levels prescribe has been expanded. */
  lemma Finished(succ: nat -> seq<nat>, root: nat, d: nat, k: nat, i: nat, visited: set<nat>, done: seq<nat>)
    requires Progress(succ, root, d, k, i, [], visited, done)
    ensures done == Expanded(succ, root, d)
  {
    var (entries, before) := (Entries(succ, root, k), Before(succ, root, k));
    EmptyQueue(succ, entries, k, i, Firsts(entries, before, k < d, i));
    if k < d {
      assert entries[..i] == entries;
      Exhausted(succ, root, k + 1, d);
    }
  }

  lemma UsedUp(succ: nat -> seq<nat>, root: nat, d: nat, k: nat,
               queue: seq<Entry>, visited: set<nat>, done: seq<nat>)
    requires Progress(succ, root, d, k, |Entries(succ, root, k)|, queue, visited, done) && queue != []
    ensures k < d
    ensures Entries(succ, root, k + 1) != []
  {
    var entries := Entries(succ, root, k);
    assert entries[..|entries|] == entries && entries[|entries|..] == [];
  }

  /** Where the queue's head stands in the levels. */
  lemma Locate(succ: nat -> seq<nat>, root: nat, d: nat, k: nat, i: nat,
               queue: seq<Entry>, visited: set<nat>, done: seq<nat>)
    returns (k': nat, i': nat)
    requires Progress(succ, root, d, k, i, queue, visited, done) && queue != []
    ensures Progress(succ, root, d, k', i', queue, visited, done)
    ensures i' < |Entries(succ, root, k')| && queue[0] == Entry(Entries(succ, root, k')[i'], k')
  {
    k', i' := k, i;
    if i == |Entries(succ, root, k)| {
      UsedUp(succ, root, d, k, queue, visited, done);
      NextLevel(succ, root, d, k, queue, visited, done);
      k', i' := k + 1, 0;
    }
    var (entries, before) := (Entries(succ, root, k'), Before(succ, root, k'));
    QueueDrops(succ, entries, k', i', Firsts(entries, before, k' < d, i'));
  }

  lemma EntryIsTarget(succ: nat -> seq<nat>, root: nat, k: nat, i: nat)
    requires i < |Entries(succ, root, k)|
    ensures Entries(succ, root, k)[i] == root || exists u :: Entries(succ, root, k)[i] in succ(u)
  {
    if k > 0 {
      var u := EntryPredecessor(succ, root, k, Entries(succ, root, k)[i]);
    }
  }
}
