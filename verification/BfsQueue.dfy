/** The queue-driven search of the document graph refines the level-by-level one. */
module BfsQueue {
  import opened Bytes
  import opened GraphBlob
  import opened Sequences
  import opened Levels
  import opened LevelQueue
  import opened BfsLevels

  /** 0 asks for everything, which for the code means u32::MAX. */
  function Limit(maxResults: u32): (n: nat)
    ensures 0 < n < U32
  {
    if maxResults == 0 then U32 - 1 else maxResults
  }

  lemma RangeStep(lo: nat, hi: nat, n: nat)
    requires lo + n < hi
    ensures n < |Range(lo, hi)| && Range(lo, hi)[n] == lo + n
    ensures Range(lo, hi)[..n + 1] == Range(lo, hi)[..n] + [lo + n]
  {
  }

  lemma SlotDocScanned(g: GraphEngine, slots: seq<nat>, part: seq<nat>, slot: nat)
    requires slot < |g.colIdx| == |g.docOffsets|
    ensures DocsAt(g, slots + (part + [slot]))
         == DocsAt(g, slots + part) + if g.Doc(slot).Some? then [g.Doc(slot).value] else []
  {
    assert slots + (part + [slot]) == slots + part + [slot];
    FlatMapSnoc(SlotDoc(g), slots + part, slot);
  }

  lemma SlotTargetScanned(g: GraphEngine, part: seq<nat>, slot: nat, queue0: seq<Entry>, depth: nat)
    requires slot < |g.colIdx|
    ensures queue0 + Tag(TargetsAt(g, part), depth) + [Entry(g.colIdx[slot], depth)]
         == queue0 + Tag(TargetsAt(g, part + [slot]), depth)
  {
    FlatMapSnoc(SlotTarget(g), part, slot);
    TagConcat(TargetsAt(g, part), [g.colIdx[slot]], depth);
  }

  /** How scanning a slot, a row or a node ends. */
  datatype Scan = More | Full | PastColumns

  method ScanSlot(g: GraphEngine, slot: nat, depth: nat, limit: nat,
                  results: seq<seq<byte>>, queue: seq<Entry>,
                  ghost slots: seq<nat>, ghost part: seq<nat>, ghost queue0: seq<Entry>)
    returns (results': seq<seq<byte>>, queue': seq<Entry>, full: bool)
    requires slot < |g.colIdx| == |g.docOffsets|
    requires results == DocsAt(g, slots + part) && |results| < limit < U32
    requires queue == queue0 + Tag(TargetsAt(g, part), depth)
    ensures results' == DocsAt(g, slots + (part + [slot]))
    ensures if full then |results'| == limit else |results'| < limit
    ensures queue' == if full then queue else queue0 + Tag(TargetsAt(g, part + [slot]), depth)
  {
    SlotDocScanned(g, slots, part, slot);
    SlotTargetScanned(g, part, slot, queue0, depth);
    results', queue', full := results, queue, false;
    var doc := g.Doc(slot);
    if doc.Some? {
      results' := results' + [doc.value];
    }
    if |results'| % U32 >= limit {
      full := true;
      return;
    }
    queue' := queue' + [Entry(g.colIdx[slot], depth)];
  }

  lemma RowStep(g: GraphEngine, row: seq<nat>, n: nat, slot: nat)
    requires n < |row| && InColumns(g, row[..n]) && slot < |g.colIdx|
    requires row[..n + 1] == row[..n] + [slot]
    ensures InColumns(g, row[..n + 1])
  {
  }

  /** A search over `slots` stops once it has scanned `part` of them in full: at the end, or
      past the columns with no result, or with the result that the next slot's document
      fills. */
  ghost predicate Stops(g: GraphEngine, slots: seq<nat>, limit: nat, r: Option<seq<seq<byte>>>, part: seq<nat>) {
    && part <= slots && InColumns(g, part)
    && if |part| == |slots| then r == Some(DocsAt(g, part)) && |r.value| < limit
       else if slots[|part|] >= |g.colIdx| then r == None && |DocsAt(g, part)| < limit
       else r == Some(DocsAt(g, part + [slots[|part|]])) && |r.value| == limit
  }

  /** Where a search stops decides whether it aborts and what it returns. */
  lemma StopsMeaning(g: GraphEngine, slots: seq<nat>, limit: nat, r: Option<seq<seq<byte>>>, part: seq<nat>)
    requires Stops(g, slots, limit, r, part)
    ensures r.None? <==> Overruns(g, slots, limit)
    ensures r.Some? ==> r.value == Take(DocsAt(g, slots), limit)
  {
    if r.None? {
      assert slots[..|part|] == part;
      assert OverrunsAt(g, slots, limit, |part|);
    } else if |part| == |slots| {
      assert part == slots;
      FilledNeverOverruns(g, slots, slots, limit);
    } else {
      FilledNeverOverruns(g, part + [slots[|part|]], slots, limit);
      FlatMapPrefix(SlotDoc(g), part + [slots[|part|]], slots);
    }
  }

  lemma PartInColumns(g: GraphEngine, slots: seq<nat>, part: seq<nat>)
    requires InColumns(g, slots) && InColumns(g, part)
    ensures InColumns(g, slots + part)
  {
  }

  lemma PartOfRow(slots: seq<nat>, row: seq<nat>, k: nat, all: seq<nat>)
    requires slots + row <= all && k < |row|
    ensures slots + row[..k] <= all && |slots + row[..k]| < |all| && all[|slots + row[..k]|] == row[k]
    ensures slots + (row[..k] + [row[k]]) == slots + row[..k] + [row[k]]
  {
    assert all[|slots| + k] == (slots + row)[|slots| + k];
  }

  ghost function Outcome(scan: Scan, results: seq<seq<byte>>): (r: Option<seq<seq<byte>>>) {
    if scan.PastColumns? then None else Some(results)
  }

  /** Scans the slots `start..end`, up to a full result or the end of the columns, and pushes
      the targets of the slots scanned in full. */
  method ScanRow(g: GraphEngine, start: nat, end: nat, depth: nat, limit: nat,
                 results: seq<seq<byte>>, queue: seq<Entry>, ghost slots: seq<nat>)
    returns (results': seq<seq<byte>>, queue': seq<Entry>, scan: Scan, ghost scanned: nat)
    requires |g.docOffsets| == |g.colIdx|
    requires results == DocsAt(g, slots) && |results| < limit < U32
    ensures scanned <= |Range(start, end)|
    ensures queue' == queue + Tag(TargetsAt(g, Range(start, end)[..scanned]), depth)
    ensures if scan.More? then scanned == |Range(start, end)| else scanned < |Range(start, end)|
    ensures InColumns(g, Range(start, end)[..scanned])
    ensures scan.More? ==> results' == DocsAt(g, slots + Range(start, end)) && |results'| < limit
    ensures scan.PastColumns? ==> Range(start, end)[scanned] >= |g.colIdx| && |results'| < limit
    ensures scan.PastColumns? ==> results' == DocsAt(g, slots + Range(start, end)[..scanned])
    ensures scan.Full? ==> Range(start, end)[scanned] < |g.colIdx| && |results'| == limit
    ensures scan.Full? ==> results' == DocsAt(g, slots + (Range(start, end)[..scanned] + [Range(start, end)[scanned]]))
  {
    results', queue', scan, scanned := results, queue, More, 0;
    ghost var row := Range(start, end);
    ghost var part: seq<nat> := [];
    assert slots + [] == slots && queue + [] == queue;
    var slot: nat := start;
    while slot < end
      invariant slot == start + scanned && scanned <= |row|
      invariant part == row[..scanned] && InColumns(g, part) && scan.More?
      invariant results' == DocsAt(g, slots + part) && |results'| < limit
      invariant queue' == queue + Tag(TargetsAt(g, part), depth)
      decreases end - slot
    {
      RangeStep(start, end, scanned);
      if slot >= |g.colIdx| {
        scan := PastColumns;
        return;
      }
      RowStep(g, row, scanned, slot);
      var full;
      results', queue', full := ScanSlot(g, slot, depth, limit, results', queue', slots, part, queue);
      if full {
        scan := Full;
        return;
      }
      part, scanned := part + [slot], scanned + 1;
      slot := slot + 1;
    }
    assert part == row;
  }

  lemma NoRow(g: GraphEngine, slots: seq<nat>, queue: seq<Entry>, depth: nat)
    ensures slots + [] == slots
    ensures queue + Tag(TargetsAt(g, []), depth) == queue
  {
  }

  /** The row of a node, or nothing for an id past the last row. */
  method VisitRow(g: GraphEngine, node: nat, depth: nat, limit: nat,
                  results: seq<seq<byte>>, queue: seq<Entry>, ghost slots: seq<nat>)
    returns (results': seq<seq<byte>>, queue': seq<Entry>, scan: Scan, ghost scanned: nat)
    requires |g.docOffsets| == |g.colIdx|
    requires results == DocsAt(g, slots) && |results| < limit < U32
    ensures scanned <= |RowSlots(g)(node)|
    ensures queue' == queue + Tag(TargetsAt(g, RowSlots(g)(node)[..scanned]), depth)
    ensures if scan.More? then scanned == |RowSlots(g)(node)| else scanned < |RowSlots(g)(node)|
    ensures InColumns(g, RowSlots(g)(node)[..scanned])
    ensures scan.More? ==> results' == DocsAt(g, slots + RowSlots(g)(node)) && |results'| < limit
    ensures scan.PastColumns? ==> RowSlots(g)(node)[scanned] >= |g.colIdx| && |results'| < limit
    ensures scan.PastColumns? ==> results' == DocsAt(g, slots + RowSlots(g)(node)[..scanned])
    ensures scan.Full? ==> RowSlots(g)(node)[scanned] < |g.colIdx| && |results'| == limit
    ensures scan.Full? ==> results' == DocsAt(g, slots + (RowSlots(g)(node)[..scanned] + [RowSlots(g)(node)[scanned]]))
  {
    if node + 1 >= |g.rowPtr| {
      NoRow(g, slots, queue, depth);
      assert RowSlots(g)(node)[..0] == [];
      return results, queue, More, 0;
    }
    results', queue', scan, scanned :=
      ScanRow(g, g.rowPtr[node], g.rowPtr[node + 1], depth, limit, results, queue, slots);
  }

  function Universe(g: GraphEngine, root: nat): (vs: set<nat>) {
    {root} + Members(g.colIdx)
  }

  lemma TargetsAreMembers(g: GraphEngine, slots: seq<nat>, v: nat)
    requires v in TargetsAt(g, slots)
    ensures v in Members(g.colIdx)
  {
    FlatMapMember(SlotTarget(g), slots, v);
    var s: nat :| s in slots && v in SlotTarget(g)(s);
    assert v == g.colIdx[s];
  }

  /** Every id that can enter the queue is the root or some edge's target. */
  lemma EntryInUniverse(g: GraphEngine, root: nat, k: nat, i: nat)
    requires i < |Entries(Succ(g), root, k)|
    ensures Entries(Succ(g), root, k)[i] in Universe(g, root)
  {
    var v := Entries(Succ(g), root, k)[i];
    EntryIsTarget(Succ(g), root, k, i);
    if v != root {
      var u: nat :| v in Succ(g)(u);
      TargetsAreMembers(g, RowSlots(g)(u), v);
    }
  }

  /** How many ids that can enter the queue are still unmarked. */
  ghost function Room(g: GraphEngine, root: nat, visited: set<nat>): (n: nat) {
    |Universe(g, root) - visited|
  }

  /** Marking a new node leaves less room. */
  lemma RoomShrinks(g: GraphEngine, root: nat, visited: set<nat>, node: nat)
    requires node in Universe(g, root) && node !in visited
    ensures Room(g, root, visited + {node}) < Room(g, root, visited)
  {
    SmallerSet(Universe(g, root) - (visited + {node}), Universe(g, root) - visited, node);
  }

  lemma SmallerSet(a: set<nat>, b: set<nat>, v: nat)
    requires v in b && a == b - {v}
    ensures |a| < |b|
  {
    assert b == a + {v};
  }

  lemma RowPrefix(g: GraphEngine, nodes: seq<nat>, node: nat, all: seq<nat>)
    requires nodes + [node] <= all
    ensures SlotsOf(g, nodes + [node]) == SlotsOf(g, nodes) + RowSlots(g)(node)
    ensures SlotsOf(g, nodes) + RowSlots(g)(node) <= SlotsOf(g, all)
  {
    FlatMapSnoc(RowSlots(g), nodes, node);
    FlatMapPrefix(RowSlots(g), nodes + [node], all);
  }

  /** What the end of a row's scan says about the whole search. */
  lemma ScanOutcome(g: GraphEngine, slots: seq<nat>, row: seq<nat>, k: nat, all: seq<nat>, limit: nat,
                    scan: Scan, results: seq<seq<byte>>)
    requires slots + row <= all && k <= |row| && InColumns(g, slots) && InColumns(g, row[..k])
    requires if scan.More? then k == |row| else k < |row|
    requires scan.PastColumns? ==>
               row[k] >= |g.colIdx| && results == DocsAt(g, slots + row[..k]) && |results| < limit
    requires scan.Full? ==>
               row[k] < |g.colIdx| && results == DocsAt(g, slots + (row[..k] + [row[k]])) && |results| == limit
    ensures slots + row[..k] <= all && InColumns(g, slots + row[..k])
    ensures scan.More? ==> row[..k] == row
    ensures !scan.More? ==> Stops(g, all, limit, Outcome(scan, results), slots + row[..k])
  {
    PartInColumns(g, slots, row[..k]);
    if scan.More? {
      assert row[..k] == row;
    } else {
      PartOfRow(slots, row, k, all);
    }
  }

  /** The nodes ever queued: the root and the targets of the scanned slots, in order. */
  function Pushes(g: GraphEngine, root: nat, slots: seq<nat>): (nodes: seq<nat>)
    ensures |nodes| <= 1 + |slots|
  {
    FlatMapLength(SlotTarget(g), slots);
    [root] + TargetsAt(g, slots)
  }

  lemma PushMore(g: GraphEngine, root: nat, slots: seq<nat>, part: seq<nat>)
    ensures Pushes(g, root, slots + part) == Pushes(g, root, slots) + TargetsAt(g, part)
  {
    FlatMapConcat(SlotTarget(g), slots, part);
    Associative([root], TargetsAt(g, slots), TargetsAt(g, part));
  }

  /** The queue holds what has been pushed and not yet popped. */
  ghost predicate IsRest(queue: seq<Entry>, pushed: seq<nat>, popped: nat) {
    && |pushed| == popped + |queue|
    && forall j | popped <= j < |pushed| :: pushed[j] == queue[j - popped].node
  }

  lemma PopThenPush(queue: seq<Entry>, pushed: seq<nat>, popped: nat, nodes: seq<nat>, depth: nat)
    requires IsRest(queue, pushed, popped) && queue != []
    ensures IsRest(queue[1..], pushed, popped + 1)
    ensures IsRest(queue[1..] + Tag(nodes, depth), pushed + nodes, popped + 1)
  {
  }

  /** The log is that of the scanned slots, and its rest is the queue. */
  ghost predicate Logged(g: GraphEngine, root: nat, queue: seq<Entry>, scanned: seq<nat>,
                         pushed: seq<nat>, popped: nat)
  {
    pushed == Pushes(g, root, scanned) && IsRest(queue, pushed, popped)
  }

  lemma LogPop(g: GraphEngine, root: nat, queue: seq<Entry>, scanned: seq<nat>, pushed: seq<nat>, popped: nat)
    requires Logged(g, root, queue, scanned, pushed, popped) && queue != []
    ensures Logged(g, root, queue[1..], scanned, pushed, popped + 1)
  {
    PopThenPush(queue, pushed, popped, [], 0);
  }

  lemma LogExpand(g: GraphEngine, root: nat, queue: seq<Entry>, scanned: seq<nat>, pushed: seq<nat>, popped: nat,
                  part: seq<nat>, depth: nat)
    requires Logged(g, root, queue, scanned, pushed, popped) && queue != []
    ensures Logged(g, root, queue[1..] + Tag(TargetsAt(g, part), depth), scanned + part,
                   pushed + TargetsAt(g, part), popped + 1)
  {
    PushMore(g, root, scanned, part);
    PopThenPush(queue, pushed, popped, TargetsAt(g, part), depth);
  }

  /** Pops the head of the queue and visits its row, keeping the log. */
  method PopAndVisit(g: GraphEngine, root: nat, node: nat, depth: nat, limit: nat, results: seq<seq<byte>>,
                     queue: seq<Entry>, ghost slots: seq<nat>, ghost pushed: seq<nat>, ghost popped: nat)
    returns (results': seq<seq<byte>>, queue': seq<Entry>, scan: Scan, ghost scanned: nat, ghost pushed': seq<nat>)
    requires |g.docOffsets| == |g.colIdx| && queue != [] && queue[0].node == node
    requires results == DocsAt(g, slots) && |results| < limit < U32
    requires Logged(g, root, queue, slots, pushed, popped)
    ensures scanned <= |RowSlots(g)(node)|
    ensures Logged(g, root, queue', slots + RowSlots(g)(node)[..scanned], pushed', popped + 1)
    ensures scan.More? ==> queue' == queue[1..] + Tag(Succ(g)(node), depth)
    ensures if scan.More? then scanned == |RowSlots(g)(node)| else scanned < |RowSlots(g)(node)|
    ensures InColumns(g, RowSlots(g)(node)[..scanned])
    ensures scan.More? ==> results' == DocsAt(g, slots + RowSlots(g)(node)) && |results'| < limit
    ensures scan.PastColumns? ==> RowSlots(g)(node)[scanned] >= |g.colIdx| && |results'| < limit
    ensures scan.PastColumns? ==> results' == DocsAt(g, slots + RowSlots(g)(node)[..scanned])
    ensures scan.Full? ==> RowSlots(g)(node)[scanned] < |g.colIdx| && |results'| == limit
    ensures scan.Full? ==> results' == DocsAt(g, slots + (RowSlots(g)(node)[..scanned] + [RowSlots(g)(node)[scanned]]))
  {
    results', queue', scan, scanned := VisitRow(g, node, depth, limit, results, queue[1..], slots);
    ghost var part := RowSlots(g)(node)[..scanned];
    if scan.More? {
      assert part == RowSlots(g)(node);
    }
    LogExpand(g, root, queue, slots, pushed, popped, part, depth);
    pushed' := pushed + TargetsAt(g, part);
  }

  lemma EdgeBound(g: GraphEngine, root: nat, maxDepth: nat)
    ensures g.WellFormed() ==> |Scanned(g, root, maxDepth)| <= |g.colIdx|
  {
    if g.WellFormed() {
      EachEdgeOnce(g, root, maxDepth);
    }
  }

  /** What expanding the head of the queue, a new node, does to the walk over the levels. */
  lemma ExpandWalk(g: GraphEngine, root: nat, d: nat, queue: seq<Entry>, visited: set<nat>, k: nat, i: nat,
                   done: seq<nat>, node: nat)
    requires Progress(Succ(g), root, d, k, i, queue, visited, done) && i < |Entries(Succ(g), root, k)|
    requires node == Entries(Succ(g), root, k)[i] && node !in visited && k < d
    ensures queue != []
    ensures Progress(Succ(g), root, d, k, i + 1, queue[1..] + Tag(Succ(g)(node), k + 1),
                     visited + {node}, done + [node])
    ensures SlotsOf(g, done + [node]) == SlotsOf(g, done) + RowSlots(g)(node)
    ensures SlotsOf(g, done) + RowSlots(g)(node) <= Scanned(g, root, d)
    ensures Room(g, root, visited + {node}) < Room(g, root, visited)
  {
    EntryInUniverse(g, root, k, i);
    RoomShrinks(g, root, visited, node);
    ExpandEntry(Succ(g), root, d, k, i, queue, visited, done, node);
    DonePrefix(Succ(g), root, d, k, i + 1, queue[1..] + Tag(Succ(g)(node), k + 1), visited + {node}, done + [node]);
    RowPrefix(g, done, node, Expanded(Succ(g), root, d));
  }

  /** Expands the head of the queue, a node not seen before. */
  method ExpandHead(g: GraphEngine, root: nat, maxDepth: u8, limit: nat, results: seq<seq<byte>>,
                    queue: seq<Entry>, visited: set<nat>, ghost k: nat, ghost i: nat, ghost done: seq<nat>,
                    ghost pushed: seq<nat>, ghost popped: nat)
    returns (results': seq<seq<byte>>, queue': seq<Entry>, scan: Scan,
             ghost scanned: seq<nat>, ghost pushed': seq<nat>)
    requires |g.docOffsets| == |g.colIdx|
    requires queue != [] && queue[0].node !in visited && queue[0].depth == k < maxDepth
    requires Progress(Succ(g), root, maxDepth, k, i, queue, visited, done)
    requires i < |Entries(Succ(g), root, k)| && queue[0].node == Entries(Succ(g), root, k)[i]
    requires results == DocsAt(g, SlotsOf(g, done)) && |results| < limit < U32
    requires InColumns(g, SlotsOf(g, done)) && Logged(g, root, queue, SlotsOf(g, done), pushed, popped)
    ensures Room(g, root, visited + {queue[0].node}) < Room(g, root, visited)
    ensures InColumns(g, scanned) && Logged(g, root, queue', scanned, pushed', popped + 1)
    ensures !scan.More? ==> Stops(g, Scanned(g, root, maxDepth), limit, Outcome(scan, results'), scanned)
    ensures scan.More? ==> results' == DocsAt(g, scanned) && |results'| < limit
    ensures scan.More? ==> scanned == SlotsOf(g, done + [queue[0].node])
    ensures scan.More? ==> Progress(Succ(g), root, maxDepth, k, i + 1, queue', visited + {queue[0].node},
                                    done + [queue[0].node])
  {
    var Entry(node, depth) := queue[0];
    assert depth + 1 < 0x100;
    ghost var (slots, row) := (SlotsOf(g, done), RowSlots(g)(node));
    ExpandWalk(g, root, maxDepth, queue, visited, k, i, done, node);
    ghost var n;
    results', queue', scan, n, pushed' :=
      PopAndVisit(g, root, node, depth + 1, limit, results, queue, slots, pushed, popped);
    ScanOutcome(g, slots, row, n, Scanned(g, root, maxDepth), limit, scan, results');
    scanned := slots + row[..n];
  }

  /** The search over the queue, from its start. Terminates on every graph, cyclic or not:
      each turn either marks a new node or shortens the queue. */
  method Search(g: GraphEngine, root: nat, maxDepth: u8, limit: nat, queue0: seq<Entry>, visited0: set<nat>)
    returns (r: Option<seq<seq<byte>>>, ghost pushed: seq<nat>, ghost scanned: seq<nat>)
    requires |g.docOffsets| == |g.colIdx| && 0 < limit < U32
    requires Progress(Succ(g), root, maxDepth, 0, 0, queue0, visited0, [])
    requires Logged(g, root, queue0, [], [root], 0)
    ensures Stops(g, Scanned(g, root, maxDepth), limit, r, scanned)
    ensures pushed == Pushes(g, root, scanned)
  {
    var (queue, visited) := (queue0, visited0);
    var results: seq<seq<byte>> := [];
    ghost var k: nat, i: nat, done: seq<nat>, popped: nat := 0, 0, [], 0;
    pushed, scanned := [root], [];
    while queue != []
      invariant Progress(Succ(g), root, maxDepth, k, i, queue, visited, done)
      invariant results == DocsAt(g, scanned) && |results| < limit
      invariant scanned == SlotsOf(g, done) && InColumns(g, scanned)
      invariant Logged(g, root, queue, scanned, pushed, popped)
      decreases Room(g, root, visited), |queue|
    {
      k, i := Locate(Succ(g), root, maxDepth, k, i, queue, visited, done);
      var Entry(node, depth) := queue[0];
      if depth >= maxDepth || node in visited {
        DropEntry(Succ(g), root, maxDepth, k, i, queue, visited, done);
        LogPop(g, root, queue, scanned, pushed, popped);
        queue, i, popped := queue[1..], i + 1, popped + 1;
      } else {
        var scan;
        results, queue, scan, scanned, pushed :=
          ExpandHead(g, root, maxDepth, limit, results, queue, visited, k, i, done, pushed, popped);
        popped := popped + 1;
        if !scan.More? {
          r := if scan.PastColumns? then None else Some(results);
          return;
        }
        visited, done, i := visited + {node}, done + [node], i + 1;
      }
    }
    Finished(Succ(g), root, maxDepth, k, i, visited, done);
    return Some(results), pushed, scanned;
  }

  /** Aborts, `None`, exactly when the level-by-level search comes to a slot past the columns
      before the result is full. Otherwise returns exactly the first `Limit(maxResults)`
      documents of that search. The nodes ever queued are the root and the targets of the
      slots scanned in full. */
  method BfsPosts(g: GraphEngine, root: u32, maxDepth: u8, maxResults: u32)
    returns (r: Option<seq<seq<byte>>>, ghost pushed: seq<nat>, ghost scanned: seq<nat>)
    requires |g.docOffsets| == |g.colIdx|
    ensures r.None? <==> Overruns(g, Scanned(g, root, maxDepth), Limit(maxResults))
    ensures r.Some? ==> r.value == Take(AllDocs(g, root, maxDepth), Limit(maxResults))
    ensures Stops(g, Scanned(g, root, maxDepth), Limit(maxResults), r, scanned)
    ensures pushed == Pushes(g, root, scanned)
    ensures |pushed| <= 1 + |scanned| && (g.WellFormed() ==> |pushed| <= 1 + |g.colIdx|)
  {
    Start(Succ(g), root, maxDepth);
    r, pushed, scanned := Search(g, root, maxDepth, Limit(maxResults), [Entry(root, 0)], {});
    StopsMeaning(g, Scanned(g, root, maxDepth), Limit(maxResults), r, scanned);
    EdgeBound(g, root, maxDepth);
  }

  /** On a well-formed graph an unlimited search returns every document, and a limited one
      its first `maxResults`. */
  lemma LimitTruncates(g: GraphEngine, root: nat, maxDepth: u8, maxResults: u32)
    requires g.WellFormed() && |g.colIdx| < U32
    ensures Limit(0) == 0xFFFF_FFFF
    ensures Take(AllDocs(g, root, maxDepth), Limit(0)) == AllDocs(g, root, maxDepth)
    ensures maxResults > 0 ==>
              Take(AllDocs(g, root, maxDepth), Limit(maxResults)) == Take(AllDocs(g, root, maxDepth), maxResults)
  {
    EachEdgeOnce(g, root, maxDepth);
  }
}
