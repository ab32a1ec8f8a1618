/** Breadth-first search without a queue: the levels of the document graph and the
    documents they yield. */
module BfsLevels {
  import opened GraphBlob
  import opened Levels
  import opened Sequences
  import opened Sorting
  import Bytes

  // ---- edge slots ----

  function Range(lo: nat, hi: nat): (r: seq<nat>)
    ensures |r| == if lo <= hi then hi - lo else 0
    ensures forall s :: s in r <==> lo <= s < hi
  {
    var r := seq(if lo <= hi then hi - lo else 0, k requires 0 <= k => lo + k);
    assert forall s :: s in r <==> lo <= s < hi by {
      forall s | lo <= s < hi ensures s in r {
        assert r[s - lo] == s;
      }
    }
    r
  }

  /** The edge slots of a node; ids past the last row have none, and neither has a row
      whose end precedes its start. */
  function RowSlots(g: GraphEngine): nat -> seq<nat> {
    (node: nat) => if node + 1 < |g.rowPtr| then Range(g.rowPtr[node], g.rowPtr[node + 1]) else []
  }

  /** A slot's target and document, as lists of at most one. No slot is out of bounds on
      a graph whose rows are in bounds. */
  function SlotTarget(g: GraphEngine): nat -> seq<nat> {
    (slot: nat) => if slot < |g.colIdx| then [g.colIdx[slot]] else []
  }

  function SlotDoc(g: GraphEngine): nat -> seq<seq<Bytes.byte>> {
    (slot: nat) =>
      if slot < |g.docOffsets| && g.Doc(slot).Some? then [g.Doc(slot).value] else []
  }

  function SlotsOf(g: GraphEngine, nodes: seq<nat>): (ss: seq<nat>) {
    FlatMap(RowSlots(g), nodes)
  }

  function TargetsAt(g: GraphEngine, slots: seq<nat>): (vs: seq<nat>) {
    FlatMap(SlotTarget(g), slots)
  }

  /** The in-arena documents of the slots, in slot order. */
  function DocsAt(g: GraphEngine, slots: seq<nat>): (ds: seq<seq<Bytes.byte>>) {
    FlatMap(SlotDoc(g), slots)
  }

  /** The targets of a node's edges, in slot order. */
  function Succ(g: GraphEngine): nat -> seq<nat> {
    (node: nat) => TargetsAt(g, RowSlots(g)(node))
  }

  lemma RangeSnoc(lo: nat, last: nat)
    requires lo <= last
    ensures Range(lo, last + 1) == Range(lo, last) + [last]
  {
  }

  lemma TargetSnoc(g: GraphEngine, lo: nat, last: nat)
    requires lo <= last < |g.colIdx|
    ensures TargetsAt(g, Range(lo, last + 1)) == TargetsAt(g, Range(lo, last)) + [g.colIdx[last]]
  {
    RangeSnoc(lo, last);
    FlatMapSnoc(SlotTarget(g), Range(lo, last), last);
  }

  lemma {:induction false} RangeTargets(g: GraphEngine, lo: nat, hi: nat)
    requires lo <= hi <= |g.colIdx|
    ensures TargetsAt(g, Range(lo, hi)) == g.colIdx[lo..hi]
    decreases hi
  {
    if lo < hi {
      RangeTargets(g, lo, hi - 1);
      TargetSnoc(g, lo, hi - 1);
    } else {
      assert Range(lo, hi) == [];
    }
  }

  /** The arrows of the search are the rows of the index. */
  lemma SuccIsRow(g: GraphEngine, node: nat)
    requires g.RowsInBounds()
    ensures Succ(g)(node) == g.Row(node)
  {
    assert TargetsAt(g, []) == [];
    if node + 1 < |g.rowPtr| {
      if g.rowPtr[node] <= g.rowPtr[node + 1] {
        assert g.rowPtr[node + 1] <= |g.colIdx|;
        assert RowSlots(g)(node) == Range(g.rowPtr[node], g.rowPtr[node + 1]);
        RangeTargets(g, g.rowPtr[node], g.rowPtr[node + 1]);
      } else {
        assert RowSlots(g)(node) == Range(g.rowPtr[node], g.rowPtr[node + 1]) == [];
      }
    } else {
      assert RowSlots(g)(node) == [];
    }
  }

  /** The slots of a node are those between its row pointers. */
  lemma RowSlotsMeaning(g: GraphEngine, u: nat, s: nat)
    ensures s in RowSlots(g)(u) <==> u + 1 < |g.rowPtr| && g.rowPtr[u] <= s < g.rowPtr[u + 1]
  {
    if u + 1 < |g.rowPtr| {
      assert RowSlots(g)(u) == Range(g.rowPtr[u], g.rowPtr[u + 1]);
    }
  }

  // ---- what a search scans and returns ----

  /** The edge slots of the nodes with a path shorter than `d`, level by level. */
  function Scanned(g: GraphEngine, root: nat, d: nat): (slots: seq<nat>) {
    SlotsOf(g, Expanded(Succ(g), root, d))
  }

  function AllDocs(g: GraphEngine, root: nat, d: nat): (ds: seq<seq<Bytes.byte>>) {
    DocsAt(g, Scanned(g, root, d))
  }

  /** Searching deeper only appends. */
  lemma DeeperExtends(g: GraphEngine, root: nat, d: nat, e: nat)
    requires d <= e
    ensures AllDocs(g, root, d) <= AllDocs(g, root, e)
  {
    ExpandedPrefix(Succ(g), root, d, e);
    FlatMapPrefix(RowSlots(g), Expanded(Succ(g), root, d), Expanded(Succ(g), root, e));
    FlatMapPrefix(SlotDoc(g), Scanned(g, root, d), Scanned(g, root, e));
  }

  // ---- each edge once ----

  lemma SlotsDisjoint(g: GraphEngine, u: nat, v: nat, s: nat)
    requires g.WellFormed() && s in RowSlots(g)(u) && s in RowSlots(g)(v)
    ensures u == v
  {
  }

  lemma SlotsInBounds(g: GraphEngine, nodes: seq<nat>)
    requires g.RowsInBounds()
    ensures forall s | s in SlotsOf(g, nodes) :: s < |g.colIdx|
  {
    forall s: nat | s in SlotsOf(g, nodes) ensures s < |g.colIdx| {
      FlatMapMember(RowSlots(g), nodes, s);
      var u: nat :| u in nodes && s in RowSlots(g)(u);
      assert g.rowPtr[u + 1] <= |g.colIdx|;
    }
  }

  lemma SlotsOnce(g: GraphEngine, nodes: seq<nat>)
    requires g.WellFormed() && Distinct(nodes)
    ensures Distinct(SlotsOf(g, nodes))
  {
    forall u, v, s | u in nodes && v in nodes && s in RowSlots(g)(u) && s in RowSlots(g)(v)
      ensures u == v
    {
      SlotsDisjoint(g, u, v, s);
    }
    FlatMapDistinct(RowSlots(g), nodes);
  }

  /** On a well-formed graph no edge is used twice, so a search yields at most one
      document per edge. */
  lemma EachEdgeOnce(g: GraphEngine, root: nat, d: nat)
    requires g.WellFormed()
    ensures Distinct(Scanned(g, root, d))
    ensures |AllDocs(g, root, d)| <= |Scanned(g, root, d)| <= |g.colIdx|
  {
    var nodes := Expanded(Succ(g), root, d);
    ExpandedMeaning(Succ(g), root, d);
    SlotsOnce(g, nodes);
    SlotsInBounds(g, nodes);
    Pigeonhole(SlotsOf(g, nodes), |g.colIdx|);
    FlatMapLength(SlotDoc(g), SlotsOf(g, nodes));
  }

  /** The scanned slots are those of the nodes with a path shorter than `d`, and the
      returned documents are those the scanned slots hold. */
  lemma ScansExactly(g: GraphEngine, root: nat, d: nat, s: nat, doc: seq<Bytes.byte>)
    ensures s in Scanned(g, root, d) <==>
              exists u: nat :: Closer(Succ(g), root, u, d) && s in RowSlots(g)(u)
    ensures doc in AllDocs(g, root, d) <==>
              exists t: nat :: t in Scanned(g, root, d) && doc in SlotDoc(g)(t)
  {
    ExpandsByDistance(Succ(g), root, d);
    FlatMapMember(RowSlots(g), Expanded(Succ(g), root, d), s);
    FlatMapMember(SlotDoc(g), Scanned(g, root, d), doc);
  }

  // ---- which documents ----

  /** The slot `s` packs the offset and length of an extent inside the arena, which is `doc`. */
  ghost predicate Holds(g: GraphEngine, s: nat, offset: nat, len: nat, doc: seq<Bytes.byte>) {
    && s < |g.docOffsets| && g.docOffsets[s] == offset * 0x10_0000 + len && len < 0x10_0000
    && offset + len <= |g.arena| && doc == g.arena[offset..offset + len]
  }

  lemma SlotDocHolds(g: GraphEngine, s: nat, doc: seq<Bytes.byte>)
    ensures doc in SlotDoc(g)(s) <==> exists offset: nat, len: nat :: Holds(g, s, offset, len, doc)
  {
    if s < |g.docOffsets| {
      var (offset, len) := (g.docOffsets[s] / 0x10_0000, g.docOffsets[s] % 0x10_0000);
      DocExactly(g, s, offset, len);
      if doc in SlotDoc(g)(s) {
        assert Holds(g, s, offset, len, doc);
      }
      forall o: nat, l: nat | Holds(g, s, o, l, doc) ensures doc in SlotDoc(g)(s) {
        DocExactly(g, s, o, l);
      }
    }
  }

  /** The returned documents are exactly the whole extents, inside the arena, of the scanned
      slots; an extent past the arena's end yields nothing. */
  lemma ReturnedExactly(g: GraphEngine, root: nat, d: nat, doc: seq<Bytes.byte>)
    ensures doc in AllDocs(g, root, d) <==>
              exists s: nat, offset: nat, len: nat :: s in Scanned(g, root, d) && Holds(g, s, offset, len, doc)
  {
    FlatMapMember(SlotDoc(g), Scanned(g, root, d), doc);
    if doc in AllDocs(g, root, d) {
      var s: nat :| s in Scanned(g, root, d) && doc in SlotDoc(g)(s);
      SlotDocHolds(g, s, doc);
      var offset: nat, len: nat :| Holds(g, s, offset, len, doc);
    }
    forall s: nat, offset: nat, len: nat | s in Scanned(g, root, d) && Holds(g, s, offset, len, doc)
      ensures doc in AllDocs(g, root, d)
    {
      SlotDocHolds(g, s, doc);
    }
  }

  /** The slots whose extent lies inside the arena. */
  function FitsArena(g: GraphEngine): nat -> bool {
    (s: nat) => s < |g.docOffsets|
                && g.docOffsets[s] / 0x10_0000 + g.docOffsets[s] % 0x10_0000 <= |g.arena|
  }

  lemma SlotDocCount(g: GraphEngine, s: nat)
    ensures |SlotDoc(g)(s)| == if FitsArena(g)(s) then 1 else 0
  {
    if s < |g.docOffsets| {
      DocExactly(g, s, g.docOffsets[s] / 0x10_0000, g.docOffsets[s] % 0x10_0000);
    }
  }

  lemma {:induction false} DocsCount(g: GraphEngine, slots: seq<nat>)
    ensures |DocsAt(g, slots)| == CountIf(FitsArena(g), slots)
  {
    if slots != [] {
      DocsCount(g, slots[..|slots| - 1]);
      SlotDocCount(g, slots[|slots| - 1]);
    }
  }

  /** There are as many documents as scanned slots whose extent fits. */
  lemma ReturnedCount(g: GraphEngine, root: nat, d: nat)
    ensures |AllDocs(g, root, d)| == CountIf(FitsArena(g), Scanned(g, root, d))
  {
    DocsCount(g, Scanned(g, root, d));
  }

  // ---- nearest first ----

  /** Edges are scanned in nondecreasing distance of the nodes they leave. */
  lemma SlotsNearerFirst(g: GraphEngine, root: nat, d: nat, p: nat, q: nat)
    returns (u: nat, v: nat, m: nat, n: nat)
    requires p <= q < |Scanned(g, root, d)|
    ensures Scanned(g, root, d)[p] in RowSlots(g)(u) && DistanceIs(Succ(g), root, u, m)
    ensures Scanned(g, root, d)[q] in RowSlots(g)(v) && DistanceIs(Succ(g), root, v, n)
    ensures m <= n < d
  {
    var nodes := Expanded(Succ(g), root, d);
    var i := FlatMapIndex(RowSlots(g), nodes, p);
    var j := FlatMapIndex(RowSlots(g), nodes, q);
    FlatMapIndexMonotone(RowSlots(g), nodes, p, q, i, j);
    u, v := nodes[i], nodes[j];
    m, n := NearerFirst(Succ(g), root, d, i, j);
  }

  /** Documents are returned in nondecreasing distance of the nodes their edges leave. */
  lemma DocsNearerFirst(g: GraphEngine, root: nat, d: nat, a: nat, b: nat)
    returns (s: nat, t: nat, u: nat, v: nat, m: nat, n: nat)
    requires a <= b < |AllDocs(g, root, d)|
    ensures AllDocs(g, root, d)[a] in SlotDoc(g)(s) && s in RowSlots(g)(u) && DistanceIs(Succ(g), root, u, m)
    ensures AllDocs(g, root, d)[b] in SlotDoc(g)(t) && t in RowSlots(g)(v) && DistanceIs(Succ(g), root, v, n)
    ensures m <= n < d
  {
    var slots := Scanned(g, root, d);
    var p := FlatMapIndex(SlotDoc(g), slots, a);
    var q := FlatMapIndex(SlotDoc(g), slots, b);
    FlatMapIndexMonotone(SlotDoc(g), slots, a, b, p, q);
    s, t := slots[p], slots[q];
    u, v, m, n := SlotsNearerFirst(g, root, d, p, q);
  }

  // ---- rows that run past the columns ----

  ghost predicate InColumns(g: GraphEngine, slots: seq<nat>) {
    forall s | s in slots :: s < |g.colIdx|
  }

  /** A search of at most `limit` documents comes to a slot past the columns: the documents
      before that slot do not yet fill the result. */
  ghost predicate OverrunsAt(g: GraphEngine, slots: seq<nat>, limit: nat, p: nat) {
    p < |slots| && slots[p] >= |g.colIdx| && |DocsAt(g, slots[..p])| < limit
  }

  ghost predicate Overruns(g: GraphEngine, slots: seq<nat>, limit: nat) {
    exists p: nat :: OverrunsAt(g, slots, limit, p)
  }

  /** Past a filled result nothing is scanned, so only the slots before it matter. */
  lemma FilledNeverOverruns(g: GraphEngine, part: seq<nat>, slots: seq<nat>, limit: nat)
    requires part <= slots && InColumns(g, part)
    requires part == slots || |DocsAt(g, part)| >= limit
    ensures !Overruns(g, slots, limit)
  {
    forall p: nat ensures !OverrunsAt(g, slots, limit, p) {
      if p < |part| {
        assert slots[p] == part[p] && part[p] in part;
      } else if p < |slots| {
        FlatMapPrefix(SlotDoc(g), part, slots[..p]);
      }
    }
  }

  /** No search overruns a graph whose rows are in bounds. */
  lemma BoundedNeverOverruns(g: GraphEngine, root: nat, d: nat, limit: nat)
    requires g.RowsInBounds()
    ensures !Overruns(g, Scanned(g, root, d), limit)
  {
    SlotsInBounds(g, Expanded(Succ(g), root, d));
    FilledNeverOverruns(g, Scanned(g, root, d), Scanned(g, root, d), limit);
  }

  /** The row of `u` is not empty and ends past the columns. */
  predicate RowPastColumns(g: GraphEngine, u: nat) {
    u + 1 < |g.rowPtr| && g.rowPtr[u] < g.rowPtr[u + 1] && g.rowPtr[u + 1] > |g.colIdx|
  }

  lemma RowPastMeaning(g: GraphEngine, u: nat)
    ensures RowPastColumns(g, u) <==> exists s: nat :: s in RowSlots(g)(u) && s >= |g.colIdx|
  {
    if RowPastColumns(g, u) {
      var s: nat := g.rowPtr[u + 1] - 1;
      assert s in RowSlots(g)(u);
    }
  }

  /** A search that its limit does not stop aborts exactly when some node with a path shorter
      than its depth has a row ending past the columns. */
  lemma OverrunsByRows(g: GraphEngine, root: nat, d: nat, limit: nat)
    requires |AllDocs(g, root, d)| < limit
    ensures Overruns(g, Scanned(g, root, d), limit)
       <==> exists u: nat :: Closer(Succ(g), root, u, d) && RowPastColumns(g, u)
  {
    var slots := Scanned(g, root, d);
    if p: nat :| OverrunsAt(g, slots, limit, p) {
      ScansExactly(g, root, d, slots[p], []);
      var u: nat :| Closer(Succ(g), root, u, d) && slots[p] in RowSlots(g)(u);
      RowPastMeaning(g, u);
    }
    if u: nat :| Closer(Succ(g), root, u, d) && RowPastColumns(g, u) {
      RowPastMeaning(g, u);
      var s: nat :| s in RowSlots(g)(u) && s >= |g.colIdx|;
      ScansExactly(g, root, d, s, []);
      var p: nat :| p < |slots| && slots[p] == s;
      FlatMapPrefix(SlotDoc(g), slots[..p], slots);
      assert OverrunsAt(g, slots, limit, p);
    }
  }

  lemma FirstNodeScanned(g: GraphEngine, root: nat)
    ensures Scanned(g, root, 1) == RowSlots(g)(root)
  {
    assert [root][..0] == [];
    assert Fresh([root], {}) == [root];
    assert Expanded(Succ(g), root, 1) == [] + [root];
    FlatMapSnoc(RowSlots(g), [], root);
  }

  /** One node whose row claims an edge there is no column for. */
  function Overrunning(): (g: GraphEngine) {
    GraphEngine([0, 1], [], [], [])
  }

  lemma OverrunningStored()
    ensures Overrunning().Storable()
  {
    Bytes.Pow256Values();
  }

  lemma FirstSlotOverruns(g: GraphEngine, slots: seq<nat>, limit: nat)
    requires slots != [] && slots[0] >= |g.colIdx| && limit > 0
    ensures Overruns(g, slots, limit)
  {
    assert slots[..0] == [];
    assert OverrunsAt(g, slots, limit, 0);
  }

  lemma OverrunningScanned(g: GraphEngine, limit: nat)
    requires g == Overrunning() && limit > 0
    ensures Overruns(g, Scanned(g, 0, 1), limit)
  {
    FirstNodeScanned(g, 0);
    assert RowSlots(g)(0) == Range(0, 1);
    FirstSlotOverruns(g, Range(0, 1), limit);
  }

  /** The reader accepts a blob on which the search aborts. */
  lemma AcceptedOverrun(limit: nat)
    requires limit > 0
    ensures FromBlob(ToBlob(Overrunning())) == Parsed(Overrunning())
    ensures Overruns(Overrunning(), Scanned(Overrunning(), 0, 1), limit)
  {
    OverrunningStored();
    ReadOfWritten(Overrunning());
    OverrunningScanned(Overrunning(), limit);
  }

  /** A row out of bounds does no harm to a search that does not come to it. */
  lemma UnscannedRow(limit: nat)
    ensures var g := GraphEngine([0, 0, 1], [], [], []);
            !g.RowsInBounds() && !Overruns(g, Scanned(g, 0, 1), limit)
  {
    var g := GraphEngine([0, 0, 1], [], [], []);
    assert g.rowPtr[2] == 1;
    FirstNodeScanned(g, 0);
    assert RowSlots(g)(0) == [];
  }
}
