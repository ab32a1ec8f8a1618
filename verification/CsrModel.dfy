/** What the CSR edge store means. The abstract state is the log of accepted edges in
    arrival order; the store's arrays are a function of the multiset of that log. */
module CsrModel {
  import opened Bytes
  import opened Sequences
  import opened Sorting

  datatype Edge = Edge(src: u32, dst: u32)

  predicate EdgeLeq(a: Edge, b: Edge) {
    a.src < b.src || (a.src == b.src && a.dst <= b.dst)
  }

  predicate IdLeq(a: u32, b: u32) {
    a <= b
  }

  lemma OrdersAreTotal()
    ensures TotalOrder(EdgeLeq) && TotalOrder(IdLeq)
  {
  }

  // ---- counting by source ----

  function SrcBelow(i: nat): Edge -> bool {
    (e: Edge) => e.src < i
  }

  function SrcIs(i: nat): Edge -> bool {
    (e: Edge) => e.src == i
  }

  /** The number of edges whose source is below `i`. */
  function Below(es: seq<Edge>, i: nat): (n: nat)
    ensures n <= |es|
  {
    CountIf(SrcBelow(i), es)
  }

  function Degree(es: seq<Edge>, i: nat): (n: nat)
    ensures n <= |es|
  {
    CountIf(SrcIs(i), es)
  }

  lemma {:induction false} BelowStep(es: seq<Edge>, i: nat)
    ensures Below(es, i + 1) == Below(es, i) + Degree(es, i)
  {
    if es != [] {
      BelowStep(es[..|es| - 1], i);
    }
  }

  lemma {:induction false} BelowMonotone(es: seq<Edge>, i: nat, j: nat)
    requires i <= j
    ensures Below(es, i) <= Below(es, j)
    decreases j
  {
    if i < j {
      BelowStep(es, j - 1);
      BelowMonotone(es, i, j - 1);
    }
  }

  lemma BelowEnds(es: seq<Edge>, n: nat)
    requires forall e | e in es :: e.src < n
    ensures Below(es, 0) == 0 && Below(es, n) == |es|
  {
    CountAll(SrcBelow(0), es);
    CountAll(SrcBelow(n), es);
  }

  /** In a sorted list the row of source `i` is the range [Below(i), Below(i + 1)). */
  lemma SortedRows(es: seq<Edge>, i: nat, k: nat)
    requires Sorted(EdgeLeq, es) && k < |es|
    ensures es[k].src < i <==> k < Below(es, i)
    ensures es[k].src == i <==> Below(es, i) <= k < Below(es, i + 1)
  {
    OrdersAreTotal();
    CountSorted(EdgeLeq, SrcBelow(i), es, k);
    CountSorted(EdgeLeq, SrcBelow(i + 1), es, k);
  }

  /** The scatter law: over a sorted edge list, the cursor of edge k's source (its row
      start plus the edges of that source already placed) is k itself. */
  lemma ScatterLandsOnIndex(es: seq<Edge>, k: nat)
    requires Sorted(EdgeLeq, es) && k < |es|
    ensures Below(es, es[k].src) + Degree(es[..k], es[k].src) == k
  {
    OrdersAreTotal();
    var s: nat := es[k].src;
    assert es == es[..k] + es[k..];
    CountConcat(SrcBelow(s), es[..k], es[k..]);
    forall e | e in es[k..] ensures !SrcBelow(s)(e) {
      assert e == es[k] || EdgeLeq(es[k], e);
    }
    CountAll(SrcBelow(s), es[k..]);
    forall e | e in es[..k] ensures SrcBelow(s + 1)(e) {
      assert EdgeLeq(e, es[k]);
    }
    CountAll(SrcBelow(s + 1), es[..k]);
    BelowStep(es[..k], s);
  }

  // ---- the arrays as a function of the log ----

  function RowPtrOf(log: seq<Edge>, nodeCap: nat): (rp: seq<nat>)
    ensures |rp| == nodeCap + 1
  {
    seq(nodeCap + 1, i requires 0 <= i <= nodeCap => Below(log, i))
  }

  function TargetsOf(es: seq<Edge>): (ds: seq<u32>)
    ensures |ds| == |es|
  {
    seq(|es|, k requires 0 <= k < |es| => es[k].dst)
  }

  function ColIdxOf(log: seq<Edge>): (col: seq<u32>)
    ensures |col| == |log|
  {
    var sorted := Sort(EdgeLeq, log);
    assert |sorted| == |multiset(sorted)| == |log|;
    TargetsOf(sorted)
  }

  /** One more than the largest source, 0 for the empty log. */
  function NodeCountOf(log: seq<Edge>): (n: nat)
    ensures forall e | e in log :: e.src < n
    ensures n == 0 <==> log == []
    ensures n > 0 ==> exists e :: e in log && e.src == n - 1
  {
    if log == [] then 0 else
      assert log == log[..|log| - 1] + [log[|log| - 1]];
      var n := NodeCountOf(log[..|log| - 1]);
      var src := log[|log| - 1].src;
      assert log[|log| - 1] in log;
      if src < n then n else src + 1
  }

  // ---- the independent specification ----

  /** The targets of source `i`, in arrival order. */
  ghost function Targets(es: seq<Edge>, i: nat): (ds: seq<u32>)
    ensures |ds| == Degree(es, i)
  {
    if es == [] then [] else
      Targets(es[..|es| - 1], i) + if es[|es| - 1].src == i then [es[|es| - 1].dst] else []
  }

  ghost predicate InRange(log: seq<Edge>, nodeCap: nat) {
    forall e | e in log :: e.src < nodeCap && e.dst < nodeCap
  }

  /** `rowPtr` and `colIdx` are a CSR index of `log`: row pointers count the edges with a
      smaller source, and every row is a sorted arrangement of its source's targets. */
  ghost predicate IsCsrOf(rowPtr: seq<nat>, colIdx: seq<u32>, log: seq<Edge>, nodeCap: nat) {
    && |rowPtr| == nodeCap + 1 && |colIdx| == |log|
    && (forall i | 0 <= i <= nodeCap :: rowPtr[i] == Below(log, i))
    && rowPtr[nodeCap] == |log|
    && (forall i | 0 <= i < nodeCap :: IsRowOf(rowPtr, colIdx, log, i))
  }

  ghost predicate IsRowOf(rowPtr: seq<nat>, colIdx: seq<u32>, log: seq<Edge>, i: nat)
    requires i + 1 < |rowPtr|
  {
    && rowPtr[i] <= rowPtr[i + 1] <= |colIdx|
    && Sorted(IdLeq, colIdx[rowPtr[i]..rowPtr[i + 1]])
    && multiset(colIdx[rowPtr[i]..rowPtr[i + 1]]) == multiset(Targets(log, i))
  }

  /** A target stands in a row as often as its edge was accepted. */
  lemma {:induction false} TargetsCount(es: seq<Edge>, i: u32, d: u32)
    ensures multiset(Targets(es, i))[d] == multiset(es)[Edge(i, d)]
  {
    if es != [] {
      var (before, e) := (es[..|es| - 1], es[|es| - 1]);
      TargetsCount(before, i, d);
      assert es == before + [e];
    }
  }

  lemma TargetsSnoc(es: seq<Edge>, e: Edge, i: nat)
    ensures Targets(es + [e], i) == Targets(es, i) + if e.src == i then [e.dst] else []
  {
    assert (es + [e])[..|es|] == es;
  }

  lemma {:induction false} TargetsConcat(a: seq<Edge>, b: seq<Edge>, i: nat)
    ensures Targets(a + b, i) == Targets(a, i) + Targets(b, i)
  {
    if b == [] {
      assert a + b == a;
    } else {
      var (c, e) := (b[..|b| - 1], b[|b| - 1]);
      var tail: seq<u32> := if e.src == i then [e.dst] else [];
      assert b == c + [e];
      calc {
        Targets(a + b, i);
        { Associative(a, c, [e]); }
        Targets(a + c + [e], i);
        { TargetsSnoc(a + c, e, i); }
        Targets(a + c, i) + tail;
        { TargetsConcat(a, c, i); }
        Targets(a, i) + Targets(c, i) + tail;
        { Associative(Targets(a, i), Targets(c, i), tail); }
        Targets(a, i) + (Targets(c, i) + tail);
        { TargetsSnoc(c, e, i); }
        Targets(a, i) + Targets(b, i);
      }
    }
  }

  lemma {:induction false} TargetsUniform(es: seq<Edge>, i: nat)
    ensures (forall e | e in es :: e.src == i) ==> Targets(es, i) == TargetsOf(es)
    ensures (forall e | e in es :: e.src != i) ==> Targets(es, i) == []
  {
    if es != [] {
      TargetsUniform(es[..|es| - 1], i);
      assert es == es[..|es| - 1] + [es[|es| - 1]];
    }
  }

  lemma TargetsInsert(l: seq<Edge>, x: Edge, r: seq<Edge>, i: nat)
    ensures multiset(Targets(l + [x] + r, i)) == multiset(Targets(l + r, i)) + multiset(Targets([x], i))
  {
    TargetsConcat(l, r, i);
    TargetsConcat(l, [x], i);
    TargetsConcat(l + [x], r, i);
  }

  lemma {:induction false} TargetsPermutation(a: seq<Edge>, b: seq<Edge>, i: nat)
    requires multiset(a) == multiset(b)
    ensures multiset(Targets(a, i)) == multiset(Targets(b, i))
  {
    if a == [] {
      assert |multiset(b)| == 0;
    } else {
      var (c, x) := (a[..|a| - 1], a[|a| - 1]);
      assert a == c + [x];
      var l, r := TakeOut(c, x, b);
      TargetsPermutation(c, l + r, i);
      TargetsInsert(l, x, r, i);
      TargetsConcat(c, [x], i);
    }
  }

  lemma SortedRowSplit(es: seq<Edge>, i: nat)
    requires Sorted(EdgeLeq, es)
    ensures Below(es, i) <= Below(es, i + 1) <= |es|
    ensures forall e | e in es[..Below(es, i)] :: e.src != i
    ensures forall e | e in es[Below(es, i)..Below(es, i + 1)] :: e.src == i
    ensures forall e | e in es[Below(es, i + 1)..] :: e.src != i
  {
    BelowStep(es, i);
    forall k | 0 <= k < |es|
      ensures es[k].src == i <==> Below(es, i) <= k < Below(es, i + 1)
    {
      SortedRows(es, i, k);
    }
  }

  lemma RowIsSorted(es: seq<Edge>, i: nat, lo: nat, hi: nat)
    requires Sorted(EdgeLeq, es) && lo <= hi <= |es|
    requires forall e | e in es[lo..hi] :: e.src == i
    ensures Sorted(IdLeq, TargetsOf(es[lo..hi]))
  {
    var row := es[lo..hi];
    forall j, k | 0 <= j < k < |row| ensures row[j].dst <= row[k].dst {
      assert EdgeLeq(es[lo + j], es[lo + k]);
      assert row[j] in row && row[k] in row;
    }
  }

  lemma MiddleTargets(a: seq<Edge>, b: seq<Edge>, c: seq<Edge>, i: nat)
    requires forall e | e in a :: e.src != i
    requires forall e | e in b :: e.src == i
    requires forall e | e in c :: e.src != i
    ensures Targets(a + b + c, i) == TargetsOf(b)
  {
    TargetsConcat(a, b, i);
    TargetsConcat(a + b, c, i);
    TargetsUniform(a, i);
    TargetsUniform(b, i);
    TargetsUniform(c, i);
  }

  lemma TargetsOfSlice(es: seq<Edge>, lo: nat, hi: nat)
    requires lo <= hi <= |es|
    ensures TargetsOf(es)[lo..hi] == TargetsOf(es[lo..hi])
  {
  }

  /** Row `i` of a sorted edge list, read through its row pointers. */
  lemma SortedRowTargets(es: seq<Edge>, i: nat, lo: nat, hi: nat)
    requires Sorted(EdgeLeq, es)
    requires lo == Below(es, i) && hi == Below(es, i + 1)
    ensures lo <= hi <= |es|
    ensures TargetsOf(es)[lo..hi] == Targets(es, i)
    ensures Sorted(IdLeq, Targets(es, i))
  {
    SortedRowSplit(es, i);
    RowIsSorted(es, i, lo, hi);
    MiddleTargets(es[..lo], es[lo..hi], es[hi..], i);
    Rejoin(es, lo, hi);
    TargetsOfSlice(es, lo, hi);
  }

  lemma RowIsRowOf(log: seq<Edge>, nodeCap: nat, i: nat)
    requires i < nodeCap
    ensures IsRowOf(RowPtrOf(log, nodeCap), ColIdxOf(log), log, i)
  {
    OrdersAreTotal();
    SortSorted(EdgeLeq, log);
    var sorted := Sort(EdgeLeq, log);
    CountPermutation(SrcBelow(i), log, sorted);
    CountPermutation(SrcBelow(i + 1), log, sorted);
    SortedRowTargets(sorted, i, Below(log, i), Below(log, i + 1));
    TargetsPermutation(log, sorted, i);
  }

  /** The counting sort's arrays satisfy the specification. */
  lemma ArraysAreCsr(log: seq<Edge>, nodeCap: nat)
    requires InRange(log, nodeCap)
    ensures IsCsrOf(RowPtrOf(log, nodeCap), ColIdxOf(log), log, nodeCap)
  {
    BelowEnds(log, nodeCap);
    forall i | 0 <= i < nodeCap
      ensures IsRowOf(RowPtrOf(log, nodeCap), ColIdxOf(log), log, i)
    {
      RowIsRowOf(log, nodeCap, i);
    }
  }

  /** Every slot belongs to the row of some source. */
  lemma {:induction false} RowOfSlot(log: seq<Edge>, n: nat, k: nat) returns (i: nat)
    requires k < Below(log, n)
    ensures i < n && Below(log, i) <= k < Below(log, i + 1)
  {
    if n == 0 {
      CountAll(SrcBelow(0), log);
      assert false;
    } else if k < Below(log, n - 1) {
      i := RowOfSlot(log, n - 1, k);
    } else {
      i := n - 1;
    }
  }

  lemma SameRow(rp: seq<nat>, col: seq<u32>, a: seq<Edge>, col': seq<u32>, b: seq<Edge>, i: nat)
    requires i + 1 < |rp| && IsRowOf(rp, col, a, i) && IsRowOf(rp, col', b, i)
    requires multiset(a) == multiset(b)
    ensures col[rp[i]..rp[i + 1]] == col'[rp[i]..rp[i + 1]]
  {
    OrdersAreTotal();
    TargetsPermutation(a, b, i);
    SortedUnique(IdLeq, col[rp[i]..rp[i + 1]], col'[rp[i]..rp[i + 1]]);
  }

  lemma SameRowPtr(rp: seq<nat>, a: seq<Edge>, rp': seq<nat>, b: seq<Edge>, nodeCap: nat)
    requires |rp| == |rp'| == nodeCap + 1 && multiset(a) == multiset(b)
    requires forall i | 0 <= i <= nodeCap :: rp[i] == Below(a, i)
    requires forall i | 0 <= i <= nodeCap :: rp'[i] == Below(b, i)
    ensures rp == rp'
  {
    forall i | 0 <= i <= nodeCap ensures rp[i] == rp'[i] {
      CountPermutation(SrcBelow(i), a, b);
    }
  }

  lemma SameSlot(rp: seq<nat>, col: seq<u32>, col': seq<u32>, i: nat, k: nat)
    requires i + 1 < |rp| && rp[i] <= k < rp[i + 1] <= |col| == |col'|
    requires col[rp[i]..rp[i + 1]] == col'[rp[i]..rp[i + 1]]
    ensures col[k] == col'[k]
  {
    assert col[rp[i]..rp[i + 1]][k - rp[i]] == col'[rp[i]..rp[i + 1]][k - rp[i]];
  }

  /** Two logs with the same edges have one CSR index between them: nothing about order
      or batching can be read off the arrays. */
  lemma CanonicalForm(rp: seq<nat>, col: seq<u32>, a: seq<Edge>,
                      rp': seq<nat>, col': seq<u32>, b: seq<Edge>, nodeCap: nat)
    requires IsCsrOf(rp, col, a, nodeCap) && IsCsrOf(rp', col', b, nodeCap)
    requires multiset(a) == multiset(b)
    ensures rp == rp' && col == col'
  {
    SameMembers(a, b);
    SameRowPtr(rp, a, rp', b, nodeCap);
    forall k | 0 <= k < |col| ensures col[k] == col'[k] {
      var i := RowOfSlot(a, nodeCap, k);
      SameRow(rp, col, a, col', b, i);
      SameSlot(rp, col, col', i, k);
    }
  }

  // ---- batches ----

  datatype Error =
    | InsufficientMemory
    | EdgeCapacityExhausted
    | NodeIdExceedsCapacity
    | InvalidNodeId

  datatype Result<+T> = Ok(value: T) | Err(error: Error)

  datatype Store = Store(nodeCap: u32, edgeCap: u32, log: seq<Edge>, generation: u64)
  {
    ghost predicate Valid() {
      |log| <= edgeCap && InRange(log, nodeCap)
    }
  }

  /** The readable content of a store. */
  datatype Csr = Csr(rowPtr: seq<nat>, colIdx: seq<u32>, nodeCount: nat, edgeCount: nat)

  function CsrOf(s: Store): Csr {
    Csr(RowPtrOf(s.log, s.nodeCap), ColIdxOf(s.log), NodeCountOf(s.log), |s.log|)
  }

  predicate HasBadId(batch: seq<Edge>, nodeCap: nat) {
    exists e | e in batch :: e.src >= nodeCap || e.dst >= nodeCap
  }

  function NextGeneration(g: nat): (n: u64) {
    (g + 1) % U64
  }

  /** A batch is all or nothing; an empty one does not even count as a generation. */
  function Add(s: Store, batch: seq<Edge>): (r: (Store, Result<u32>))
    requires s.Valid()
    ensures r.0.Valid() && r.0.nodeCap == s.nodeCap && r.0.edgeCap == s.edgeCap
  {
    if batch == [] then (s, Ok(0))
    else if |s.log| + |batch| > s.edgeCap then (s, Err(EdgeCapacityExhausted))
    else if HasBadId(batch, s.nodeCap) then (s, Err(NodeIdExceedsCapacity))
    else (s.(log := s.log + batch, generation := NextGeneration(s.generation)), Ok(|batch|))
  }

  /** Failure is decided by the batch and the free capacity alone, capacity first, and
      changes nothing. */
  lemma BatchAtomicity(s: Store, batch: seq<Edge>)
    requires s.Valid()
    ensures Add(s, batch).1.Err? <==>
              batch != [] && (|batch| > s.edgeCap - |s.log|
                              || exists e | e in batch :: e.src >= s.nodeCap || e.dst >= s.nodeCap)
    ensures Add(s, batch).1 == Err(EdgeCapacityExhausted) <==> batch != [] && |batch| > s.edgeCap - |s.log|
    ensures Add(s, batch).1 == Err(NodeIdExceedsCapacity) <==>
              |batch| <= s.edgeCap - |s.log|
              && exists e | e in batch :: e.src >= s.nodeCap || e.dst >= s.nodeCap
    ensures Add(s, batch).1.Err? || batch == [] ==> Add(s, batch).0 == s
    ensures Add(s, batch).1.Ok? ==>
              Add(s, batch).1.value == |batch|
              && multiset(Add(s, batch).0.log) == multiset(s.log) + multiset(batch)
  {
  }

  function Init(nodeCap: u32, edgeCap: u32): (s: Store)
    ensures s.Valid()
  {
    Store(nodeCap, edgeCap, [], 0)
  }

  function Run(s: Store, batches: seq<seq<Edge>>): (r: Store)
    requires s.Valid()
    ensures r.Valid() && r.nodeCap == s.nodeCap && r.edgeCap == s.edgeCap
    decreases |batches|
  {
    if batches == [] then s
    else Add(Run(s, batches[..|batches| - 1]), batches[|batches| - 1]).0
  }

  /** The batches of a run that were taken in: the non-empty ones that did not fail. */
  ghost function Accepted(s: Store, batches: seq<seq<Edge>>): (r: seq<seq<Edge>>)
    requires s.Valid()
    decreases |batches|
  {
    if batches == [] then [] else
      var last := batches[|batches| - 1];
      var before := batches[..|batches| - 1];
      Accepted(s, before)
      + if last != [] && Add(Run(s, before), last).1.Ok? then [last] else []
  }

  lemma AddLog(s: Store, batch: seq<Edge>, log: seq<Edge>, n: nat, g: nat)
    requires s.Valid() && s.log == log && s.generation == (g + n) % U64
    requires batch != [] && Add(s, batch).1.Ok?
    ensures Add(s, batch).0.log == log + batch
    ensures Add(s, batch).0.generation == (g + (n + 1)) % U64
  {
    WrapAdd(g + n, 1);
  }

  lemma {:induction false} RunLog(s: Store, batches: seq<seq<Edge>>)
    requires s.Valid()
    ensures Run(s, batches).log == s.log + Concat(Accepted(s, batches))
    ensures Run(s, batches).generation == (s.generation + |Accepted(s, batches)|) % U64
    decreases |batches|
  {
    if batches == [] {
      assert s.log + [] == s.log;
    } else {
      var (before, last) := (batches[..|batches| - 1], batches[|batches| - 1]);
      RunLog(s, before);
      var accepted := Accepted(s, before);
      if last != [] && Add(Run(s, before), last).1.Ok? {
        assert Accepted(s, batches) == accepted + [last];
        ConcatSnoc(accepted, last);
        AddLog(Run(s, before), last, s.log + Concat(accepted), |accepted|, s.generation);
        assert s.log + (Concat(accepted) + last) == s.log + Concat(accepted) + last;
      } else {
        assert Accepted(s, batches) == accepted;
      }
    }
  }

  lemma StoreIsCsr(s: Store, log: seq<Edge>)
    requires s.Valid() && s.log == log
    ensures IsCsrOf(CsrOf(s).rowPtr, CsrOf(s).colIdx, log, s.nodeCap)
    ensures CsrOf(s).edgeCount == |log| <= s.edgeCap
  {
    ArraysAreCsr(s.log, s.nodeCap);
  }

  lemma RunFromEmpty(init: Store, batches: seq<seq<Edge>>)
    requires init.Valid() && init.log == [] && init.generation == 0
    ensures Run(init, batches).log == Concat(Accepted(init, batches))
    ensures Run(init, batches).generation == |Accepted(init, batches)| % U64
  {
    RunLog(init, batches);
    NothingBefore(init.log, Concat(Accepted(init, batches)));
  }

  lemma NothingBefore(a: seq<Edge>, b: seq<Edge>)
    requires a == []
    ensures a + b == b
  {
  }

  /** After any run of batches the store indexes exactly the edges of the accepted ones,
      and the generation counts those batches. */
  lemma RunRefinesAcceptedEdges(nodeCap: u32, edgeCap: u32, batches: seq<seq<Edge>>)
    ensures var s := Run(Init(nodeCap, edgeCap), batches);
            var accepted := Accepted(Init(nodeCap, edgeCap), batches);
            && IsCsrOf(CsrOf(s).rowPtr, CsrOf(s).colIdx, Concat(accepted), nodeCap)
            && CsrOf(s).edgeCount == |Concat(accepted)| <= edgeCap
            && s.generation == |accepted| % U64
  {
    RunFromEmpty(Init(nodeCap, edgeCap), batches);
    StoreIsCsr(Run(Init(nodeCap, edgeCap), batches),
               Concat(Accepted(Init(nodeCap, edgeCap), batches)));
  }

  lemma SameNodeCount(a: seq<Edge>, b: seq<Edge>)
    requires forall e :: e in a <==> e in b
    ensures NodeCountOf(a) == NodeCountOf(b)
  {
    var (m, n) := (NodeCountOf(a), NodeCountOf(b));
    if m > 0 {
      var e :| e in a && e.src == m - 1;
      assert e in b;
    }
    if n > 0 {
      var e :| e in b && e.src == n - 1;
      assert e in a;
    }
  }

  /** The arrays and both counters depend on the multiset of the log only. */
  lemma SameEdgesSameCsr(a: Store, b: Store)
    requires a.Valid() && b.Valid() && a.nodeCap == b.nodeCap
    requires multiset(a.log) == multiset(b.log)
    ensures CsrOf(a) == CsrOf(b)
  {
    ArraysAreCsr(a.log, a.nodeCap);
    ArraysAreCsr(b.log, a.nodeCap);
    CanonicalForm(RowPtrOf(a.log, a.nodeCap), ColIdxOf(a.log), a.log,
                  RowPtrOf(b.log, a.nodeCap), ColIdxOf(b.log), b.log, a.nodeCap);
    SameMembers(a.log, b.log);
    SameNodeCount(a.log, b.log);
  }

  lemma SameBadIds(a: seq<Edge>, b: seq<Edge>, merged: seq<Edge>, nodeCap: nat)
    requires forall e :: e in merged <==> e in a || e in b
    ensures HasBadId(merged, nodeCap) <==> HasBadId(a, nodeCap) || HasBadId(b, nodeCap)
  {
  }

  lemma SplitOutcome(s: Store, a: seq<Edge>, b: seq<Edge>, merged: seq<Edge>)
    requires s.Valid() && multiset(merged) == multiset(a) + multiset(b)
    ensures Add(s, merged).1.Ok? <==> Add(s, a).1.Ok? && Add(Add(s, a).0, b).1.Ok?
  {
    SameMembers(merged, a + b);
    SameBadIds(a, b, merged, s.nodeCap);
  }

  lemma SplitEdges(s: Store, a: seq<Edge>, b: seq<Edge>, merged: seq<Edge>)
    requires s.Valid() && multiset(merged) == multiset(a) + multiset(b)
    requires Add(s, a).1.Ok? && Add(Add(s, a).0, b).1.Ok? && Add(s, merged).1.Ok?
    ensures multiset(Add(Add(s, a).0, b).0.log) == multiset(Add(s, merged).0.log)
    ensures a != [] && b != [] ==>
              Add(Add(s, a).0, b).0.generation == (Add(s, merged).0.generation + 1) % U64
  {
  }

  /** Splitting a batch, or permuting it, cannot be observed except in the generation. */
  lemma BatchSplitting(s: Store, a: seq<Edge>, b: seq<Edge>, merged: seq<Edge>)
    requires s.Valid() && multiset(merged) == multiset(a) + multiset(b)
    ensures var first := Add(s, a); var second := Add(first.0, b); var once := Add(s, merged);
            && (once.1.Ok? <==> first.1.Ok? && second.1.Ok?)
            && (once.1.Ok? ==> CsrOf(second.0) == CsrOf(once.0))
            && (once.1.Ok? && a != [] && b != [] ==>
                  second.0.generation == (once.0.generation + 1) % U64)
  {
    SplitOutcome(s, a, b, merged);
    if Add(s, merged).1.Ok? {
      SplitEdges(s, a, b, merged);
      SameEdgesSameCsr(Add(Add(s, a).0, b).0, Add(s, merged).0);
    }
  }

  /** Any two runs that took in the same edges, however cut into batches and ordered,
      end in the same index. */
  lemma RunsConverge(nodeCap: u32, edgeCap: u32, left: seq<seq<Edge>>, right: seq<seq<Edge>>)
    requires multiset(Concat(Accepted(Init(nodeCap, edgeCap), left)))
          == multiset(Concat(Accepted(Init(nodeCap, edgeCap), right)))
    ensures CsrOf(Run(Init(nodeCap, edgeCap), left)) == CsrOf(Run(Init(nodeCap, edgeCap), right))
  {
    RunFromEmpty(Init(nodeCap, edgeCap), left);
    RunFromEmpty(Init(nodeCap, edgeCap), right);
    SameEdgesSameCsr(Run(Init(nodeCap, edgeCap), left), Run(Init(nodeCap, edgeCap), right));
  }
}
