/** The in-place CSR store: every batch collects the old edges, sorts, and rebuilds the
    index by degree count, prefix sum and scatter inside one memory region. */
module CsrGraph {
  import opened Bytes
  import opened Sequences
  import opened Sorting
  import opened CsrModel
  import opened CsrLayout

  // ---- the rebuild loops ----

  method FillZero(mem: array<byte>, base: nat, n: nat)
    requires base + 4 * n <= mem.Length
    modifies mem
    ensures AllZero(Words(mem[..], base, n))
    ensures SameOutside(old(mem[..]), mem[..], base, base + 4 * n)
  {
    for i := 0 to n
      invariant forall j | 0 <= j < i :: Words(mem[..], base, n)[j] == 0
      invariant SameOutside(old(mem[..]), mem[..], base, base + 4 * n)
    {
      SetWord(mem, base, n, i, 0);
    }
  }

  function DegreesOf(edges: seq<Edge>, rows: nat): (ds: seq<nat>)
    ensures |ds| == rows
  {
    seq(rows, i requires 0 <= i < rows => Degree(edges, i))
  }

  lemma DegreesStep(edges: seq<Edge>, rows: nat, k: nat)
    requires k < |edges| && edges[k].src < rows
    ensures DegreesOf(edges[..k + 1], rows)
         == DegreesOf(edges[..k], rows)[edges[k].src := DegreesOf(edges[..k], rows)[edges[k].src] + 1]
  {
    forall i | 0 <= i < rows
      ensures Degree(edges[..k + 1], i)
           == Degree(edges[..k], i) + if i == edges[k].src then 1 else 0
    {
      CountPrefix(SrcIs(i), edges, k);
    }
  }

  method CountDegrees(mem: array<byte>, base: nat, rows: nat, edges: seq<Edge>)
    requires base + 4 * rows <= mem.Length && |edges| < U32
    requires forall e | e in edges :: e.src < rows
    requires AllZero(Words(mem[..], base, rows))
    modifies mem
    ensures Words(mem[..], base, rows) == DegreesOf(edges, rows)
    ensures SameOutside(old(mem[..]), mem[..], base, base + 4 * rows)
  {
    assert edges[..0] == [];
    for k := 0 to |edges|
      invariant Words(mem[..], base, rows) == DegreesOf(edges[..k], rows)
      invariant SameOutside(old(mem[..]), mem[..], base, base + 4 * rows)
    {
      var src: nat := edges[k].src;
      DegreesStep(edges, rows, k);
      assert Words(mem[..], base, rows)[src] == WordAt(mem[..], base, src);
      SetWord(mem, base, rows, src, WordAt(mem[..], base, src) + 1);
    }
    assert edges[..|edges|] == edges;
  }

  function SaturatingAdd(a: u32, b: u32): (c: u32) {
    if a + b < U32 then a + b else U32 - 1
  }

  /** Turns degrees into row starts in place; the running sum never saturates. */
  method PrefixSums(mem: array<byte>, base: nat, nodeCap: nat, rows: nat, ghost edges: seq<Edge>)
    requires rows == nodeCap + 1
    requires base + 4 * rows <= mem.Length && |edges| < U32
    requires Words(mem[..], base, rows) == DegreesOf(edges, rows)
    modifies mem
    ensures Words(mem[..], base, rows) == RowPtrOf(edges, nodeCap)
    ensures SameOutside(old(mem[..]), mem[..], base, base + 4 * rows)
  {
    var prefix: u32 := 0;
    CountAll(SrcBelow(0), edges);
    for i := 0 to nodeCap
      invariant prefix == Below(edges, i)
      invariant forall j | 0 <= j < i :: Words(mem[..], base, rows)[j] == Below(edges, j)
      invariant forall j | i <= j < rows :: Words(mem[..], base, rows)[j] == Degree(edges, j)
      invariant SameOutside(old(mem[..]), mem[..], base, base + 4 * rows)
    {
      assert Words(mem[..], base, rows)[i] == WordAt(mem[..], base, i);
      var degree := WordAt(mem[..], base, i);
      SetWord(mem, base, rows, i, prefix);
      BelowStep(edges, i);
      prefix := SaturatingAdd(prefix, degree);
    }
    SetWord(mem, base, rows, nodeCap, prefix);
  }

  /** The scatter cursors once the first `k` edges are placed. */
  function CursorsAt(edges: seq<Edge>, k: nat, nodeCap: nat): (cs: seq<nat>)
    requires k <= |edges|
    ensures |cs| == nodeCap
  {
    seq(nodeCap, i requires 0 <= i < nodeCap => Below(edges, i) + Degree(edges[..k], i))
  }

  lemma CursorsStep(edges: seq<Edge>, k: nat, nodeCap: nat)
    requires Sorted(EdgeLeq, edges) && k < |edges| && edges[k].src < nodeCap
    ensures CursorsAt(edges, k, nodeCap)[edges[k].src] == k
    ensures CursorsAt(edges, k + 1, nodeCap) == CursorsAt(edges, k, nodeCap)[edges[k].src := k + 1]
  {
    ScatterLandsOnIndex(edges, k);
    forall i | 0 <= i < nodeCap
      ensures Degree(edges[..k + 1], i)
           == Degree(edges[..k], i) + if i == edges[k].src then 1 else 0
    {
      CountPrefix(SrcIs(i), edges, k);
    }
  }

  lemma CursorsAtEnds(edges: seq<Edge>, nodeCap: nat)
    ensures CursorsAt(edges, 0, nodeCap) == RowPtrOf(edges, nodeCap)[..nodeCap]
    ensures CursorsAt(edges, |edges|, nodeCap) == RowPtrOf(edges, nodeCap)[1..]
  {
    assert edges[..0] == [] && edges[..|edges|] == edges;
    forall i | 0 <= i < nodeCap ensures Below(edges, i + 1) == Below(edges, i) + Degree(edges, i) {
      BelowStep(edges, i);
    }
  }

  /** Every write lands on its edge's own index, so each of the first |edges| slots is
      written exactly once and every cursor ends at the start of the next row. */
  method Scatter(mem: array<byte>, base: nat, edgeCap: nat, edges: seq<Edge>, rowPtr: seq<nat>)
    returns (cursors: seq<nat>, ghost slots: seq<nat>)
    requires base + 4 * edgeCap <= mem.Length && |edges| <= edgeCap
    requires Sorted(EdgeLeq, edges)
    requires rowPtr != [] && rowPtr == RowPtrOf(edges, |rowPtr| - 1)
    requires forall e | e in edges :: e.src < |rowPtr| - 1
    modifies mem
    ensures Words(mem[..], base, |edges|) == TargetsOf(edges)
    ensures SameOutside(old(mem[..]), mem[..], base, base + 4 * edgeCap)
    ensures |slots| == |edges| && forall k | 0 <= k < |slots| :: slots[k] == k
    ensures cursors == rowPtr[1..]
  {
    ghost var nodeCap := |rowPtr| - 1;
    CursorsAtEnds(edges, nodeCap);
    cursors, slots := rowPtr[..|rowPtr| - 1], [];
    for k := 0 to |edges|
      invariant forall j | 0 <= j < k :: Words(mem[..], base, edgeCap)[j] == edges[j].dst
      invariant SameOutside(old(mem[..]), mem[..], base, base + 4 * edgeCap)
      invariant |slots| == k && forall j | 0 <= j < k :: slots[j] == j
      invariant cursors == CursorsAt(edges, k, nodeCap)
    {
      var src: nat := edges[k].src;
      var pos := cursors[src];
      CursorsStep(edges, k, nodeCap);
      if pos >= edgeCap {
        assert false;
      }
      SetWord(mem, base, edgeCap, pos, edges[k].dst);
      slots := slots + [pos];
      cursors := cursors[src := cursors[src] + 1];
    }
    WordsPrefix(mem[..], base, edgeCap, |edges|);
  }

  method MaxSource(edges: seq<Edge>) returns (max: u32)
    requires edges != []
    ensures max + 1 == NodeCountOf(edges)
  {
    max := 0;
    for k := 0 to |edges|
      invariant forall j | 0 <= j < k :: edges[j].src <= max
      invariant max == 0 || exists j | 0 <= j < k :: edges[j].src == max
    {
      if edges[k].src > max {
        max := edges[k].src;
      }
    }
    assert edges[0] in edges;
  }

  method IdsInRange(edges: seq<Edge>, nodeCap: nat) returns (ok: bool)
    ensures ok <==> !HasBadId(edges, nodeCap)
  {
    for k := 0 to |edges|
      invariant forall j | 0 <= j < k :: edges[j].src < nodeCap && edges[j].dst < nodeCap
    {
      if edges[k].src >= nodeCap || edges[k].dst >= nodeCap {
        assert edges[k] in edges;
        return false;
      }
    }
    return true;
  }

  method BinarySearch(row: seq<u32>, key: u32) returns (found: bool)
    requires Sorted(IdLeq, row)
    ensures found <==> key in row
  {
    var (lo, hi) := (0, |row|);
    while lo < hi
      invariant 0 <= lo <= hi <= |row|
      invariant forall j | 0 <= j < lo :: row[j] < key
      invariant forall j | hi <= j < |row| :: row[j] > key
    {
      var mid := lo + (hi - lo) / 2;
      assert forall j | 0 <= j < mid :: IdLeq(row[j], row[mid]);
      assert forall j | mid < j < |row| :: IdLeq(row[mid], row[j]);
      if row[mid] == key {
        return true;
      } else if row[mid] < key {
        lo := mid + 1;
      } else {
        hi := mid;
      }
    }
    return false;
  }

  // ---- what the rebuild adds up to ----

  lemma RebuiltTargets(log: seq<Edge>, sorted: seq<Edge>)
    requires multiset(sorted) == multiset(log) && Sorted(EdgeLeq, sorted)
    ensures TargetsOf(sorted) == ColIdxOf(log)
  {
    OrdersAreTotal();
    SortSorted(EdgeLeq, log);
    SortedUnique(EdgeLeq, sorted, Sort(EdgeLeq, log));
  }

  lemma RebuiltRowPtr(log: seq<Edge>, sorted: seq<Edge>, nodeCap: nat)
    requires multiset(sorted) == multiset(log)
    ensures RowPtrOf(sorted, nodeCap) == RowPtrOf(log, nodeCap)
  {
    forall i | 0 <= i <= nodeCap ensures Below(sorted, i) == Below(log, i) {
      CountPermutation(SrcBelow(i), sorted, log);
    }
  }

  lemma RebuiltArrays(log: seq<Edge>, sorted: seq<Edge>, nodeCap: nat)
    requires multiset(sorted) == multiset(log) && Sorted(EdgeLeq, sorted)
    ensures RowPtrOf(sorted, nodeCap) == RowPtrOf(log, nodeCap)
    ensures TargetsOf(sorted) == ColIdxOf(log)
    ensures NodeCountOf(sorted) == NodeCountOf(log)
    ensures |sorted| == |log|
  {
    RebuiltTargets(log, sorted);
    RebuiltRowPtr(log, sorted, nodeCap);
    SameMembers(sorted, log);
    SameNodeCount(sorted, log);
  }

  lemma SortedEdges(log: seq<Edge>) returns (sorted: seq<Edge>)
    ensures multiset(sorted) == multiset(log)
    ensures Sorted(EdgeLeq, sorted) && |sorted| == |log|
    ensures forall e :: e in sorted <==> e in log
  {
    OrdersAreTotal();
    SortSorted(EdgeLeq, log);
    sorted := Sort(EdgeLeq, log);
    SameMembers(sorted, log);
  }

  lemma BatchSorted(before: Store, batch: seq<Edge>, collected: seq<Edge>, all: seq<Edge>)
    requires before.Valid() && batch != [] && Add(before, batch).1.Ok?
    requires multiset(collected) == multiset(before.log)
    requires all == Sort(EdgeLeq, collected + batch)
    ensures Sorted(EdgeLeq, all) && |all| == |Add(before, batch).0.log|
    ensures forall e | e in all :: e.src < before.nodeCap
    ensures RowPtrOf(all, before.nodeCap) == RowPtrOf(Add(before, batch).0.log, before.nodeCap)
    ensures TargetsOf(all) == ColIdxOf(Add(before, batch).0.log)
    ensures NodeCountOf(all) == NodeCountOf(Add(before, batch).0.log)
  {
    OrdersAreTotal();
    SortSorted(EdgeLeq, collected + batch);
    SameMembers(all, before.log + batch);
    RebuiltArrays(before.log + batch, all, before.nodeCap);
  }

  /** What a row read returns, in terms of the accepted edges. */
  lemma RowMeaning(s: Store, id: nat)
    requires s.Valid() && id < s.nodeCap
    ensures RowPtrOf(s.log, s.nodeCap)[id] <= RowPtrOf(s.log, s.nodeCap)[id + 1] <= |s.log|
    ensures var row := ColIdxOf(s.log)[RowPtrOf(s.log, s.nodeCap)[id]..RowPtrOf(s.log, s.nodeCap)[id + 1]];
            && Sorted(IdLeq, row)
            && multiset(row) == multiset(Targets(s.log, id))
            && forall d :: d in row <==> Edge(id, d) in s.log
  {
    ArraysAreCsr(s.log, s.nodeCap);
    assert IsRowOf(RowPtrOf(s.log, s.nodeCap), ColIdxOf(s.log), s.log, id);
    var row := ColIdxOf(s.log)[RowPtrOf(s.log, s.nodeCap)[id]..RowPtrOf(s.log, s.nodeCap)[id + 1]];
    SameMembers(row, Targets(s.log, id));
    forall d: u32 ensures d in row <==> Edge(id, d) in s.log {
      TargetsMember(s.log, id, d);
    }
  }

  lemma {:induction false} TargetsMember(es: seq<Edge>, i: u32, d: u32)
    ensures d in Targets(es, i) <==> Edge(i, d) in es
  {
    if es != [] {
      TargetsMember(es[..|es| - 1], i, d);
      assert es == es[..|es| - 1] + [es[|es| - 1]];
    }
  }

  lemma RowBounds(sorted: seq<Edge>, nodeCap: nat, src: nat)
    requires src < nodeCap && forall e | e in sorted :: e.src < nodeCap
    ensures RowPtrOf(sorted, nodeCap)[src] <= RowPtrOf(sorted, nodeCap)[src + 1] <= |sorted|
    ensures RowPtrOf(sorted, nodeCap)[0] == 0 && RowPtrOf(sorted, nodeCap)[nodeCap] == |sorted|
  {
    BelowMonotone(sorted, src, src + 1);
    BelowEnds(sorted, nodeCap);
  }

  /** Appends the edges of one row, the slots `start..end` of the columns. */
  method CollectRow(mem: array<byte>, src: nat, start: nat, end: nat, col: nat, edgeCount: nat,
                    edges: seq<Edge>, ghost sorted: seq<Edge>)
    returns (all: seq<Edge>)
    requires col + 4 * edgeCount <= mem.Length && start <= end <= edgeCount == |sorted| && src < U32
    requires Words(mem[..], col, edgeCount) == TargetsOf(sorted)
    requires edges == sorted[..start] && forall k | start <= k < end :: sorted[k].src == src
    ensures all == sorted[..end]
  {
    all := edges;
    for k := start to end
      invariant all == sorted[..k]
    {
      assert Words(mem[..], col, edgeCount)[k] == WordAt(mem[..], col, k);
      all := all + [Edge(src, WordAt(mem[..], col, k))];
    }
  }

  /** The edges of the index, in row order: exactly the sorted list it was built from. */
  method Collect(mem: array<byte>, nodeCap: nat, base: nat, col: nat, edgeCount: nat, ghost sorted: seq<Edge>)
    returns (all: seq<Edge>)
    requires base + 4 * (nodeCap + 1) <= mem.Length && nodeCap < U32
    requires col + 4 * edgeCount <= mem.Length && |sorted| == edgeCount
    requires Sorted(EdgeLeq, sorted) && forall e | e in sorted :: e.src < nodeCap
    requires Words(mem[..], base, nodeCap + 1) == RowPtrOf(sorted, nodeCap)
    requires Words(mem[..], col, edgeCount) == TargetsOf(sorted)
    ensures all == sorted
  {
    all := [];
    BelowEnds(sorted, nodeCap);
    for src := 0 to nodeCap
      invariant all == sorted[..RowPtrOf(sorted, nodeCap)[src]]
    {
      RowBounds(sorted, nodeCap, src);
      var rowPtr := Words(mem[..], base, nodeCap + 1);
      var (start, end) := (rowPtr[src], rowPtr[src + 1]);
      if end > edgeCount {
        assert false;
      }
      forall k: nat | start <= k < end ensures sorted[k].src == src {
        SortedRows(sorted, src, k);
      }
      all := CollectRow(mem, src, start, end, col, edgeCount, all, sorted);
    }
  }

  method RebuildRowPtr(mem: array<byte>, nodeCap: nat, base: nat, all: seq<Edge>)
    requires base + 4 * (nodeCap + 1) <= mem.Length
    requires nodeCap < U32 && |all| < U32 && forall e | e in all :: e.src < nodeCap
    modifies mem
    ensures Words(mem[..], base, nodeCap + 1) == RowPtrOf(all, nodeCap)
    ensures SameOutside(old(mem[..]), mem[..], base, base + 4 * (nodeCap + 1))
  {
    var rows := nodeCap + 1;
    FillZero(mem, base, rows);
    CountDegrees(mem, base, rows, all);
    PrefixSums(mem, base, nodeCap, rows, all);
  }

  /** What is left alone by writes to the row pointers and then to the columns. */
  lemma TwoRegions(a: seq<byte>, b: seq<byte>, c: seq<byte>, rows: nat, col: nat, n: nat, size: nat)
    requires Separable(rows, col, n, size) && size <= |a|
    requires SameOutside(a, b, HEADER_BYTES, HEADER_BYTES + 4 * rows) && SameOutside(b, c, col, col + 4 * n)
    ensures forall f | Live(f) :: Get(c, f) == Get(a, f)
    ensures Words(c, HEADER_BYTES, rows) == Words(b, HEADER_BYTES, rows)
    ensures SameOutside(a, c, LIVE_BYTES, size)
  {
    HeaderElsewhere(a, b, HEADER_BYTES, HEADER_BYTES + 4 * rows);
    HeaderElsewhere(b, c, col, col + 4 * n);
    WordsElsewhere(b, c, col, col + 4 * n, HEADER_BYTES, rows);
    Widen(a, b, HEADER_BYTES, HEADER_BYTES + 4 * rows, LIVE_BYTES, size);
    Widen(b, c, col, col + 4 * n, LIVE_BYTES, size);
  }

  /** Rebuilds both arrays from the sorted edges `all`. */
  method RebuildArrays(mem: array<byte>, nodeCap: nat, edgeCap: nat, base: nat, col: nat, all: seq<Edge>,
                       ghost size: nat)
    requires base == HEADER_BYTES && Separable(nodeCap + 1, col, edgeCap, size) && size <= mem.Length
    requires nodeCap < U32 && |all| <= edgeCap < U32
    requires Sorted(EdgeLeq, all) && forall e | e in all :: e.src < nodeCap
    modifies mem
    ensures forall f | Live(f) :: Get(mem[..], f) == Get(old(mem[..]), f)
    ensures Words(mem[..], HEADER_BYTES, nodeCap + 1) == RowPtrOf(all, nodeCap)
    ensures Words(mem[..], col, |all|) == TargetsOf(all)
    ensures SameOutside(old(mem[..]), mem[..], LIVE_BYTES, size)
  {
    ghost var before := mem[..];
    RebuildRowPtr(mem, nodeCap, base, all);
    ghost var indexed := mem[..];
    var rowPtr := Words(mem[..], base, nodeCap + 1);
    var cursors, slots := Scatter(mem, col, edgeCap, all, rowPtr);
    TwoRegions(before, indexed, mem[..], nodeCap + 1, col, edgeCap, size);
  }

  method NodeCountAfter(all: seq<Edge>, nodeCap: nat) returns (n: nat)
    requires all != [] && forall e | e in all :: e.src < nodeCap
    ensures n == NodeCountOf(all) <= nodeCap
  {
    var max := MaxSource(all);
    n := if max + 1 < nodeCap then max + 1 else nodeCap;
  }

  method Stamp(mem: array<byte>, edgeCount: u32, generation: u64)
    requires HEADER_BYTES <= mem.Length
    modifies mem
    ensures Get(mem[..], EDGE_COUNT) == edgeCount
    ensures Get(mem[..], GENERATION) == generation
    ensures forall f | InHeader(f) && Apart(EDGE_COUNT, f) && Apart(GENERATION, f) ::
              Get(mem[..], f) == Get(old(mem[..]), f)
    ensures SameOutside(old(mem[..]), mem[..], 0, LIVE_BYTES)
  {
    Pow256Values();
    SetField(mem, EDGE_COUNT, edgeCount);
    SetField(mem, GENERATION, generation);
  }

  lemma WritePhaseFrame(a: seq<byte>, b: seq<byte>, c: seq<byte>, d: seq<byte>,
                        rows: nat, col: nat, n: nat, size: nat)
    requires Separable(rows, col, n, size) && size <= |a|
    requires SameOutside(a, b, 0, LIVE_BYTES)
    requires SameOutside(b, c, LIVE_BYTES, size)
    requires SameOutside(c, d, 0, LIVE_BYTES)
    ensures SameOutside(a, d, 0, size)
    ensures Words(d, HEADER_BYTES, rows) == Words(c, HEADER_BYTES, rows)
    ensures Words(d, col, n) == Words(c, col, n)
  {
    WordsElsewhere(c, d, 0, LIVE_BYTES, HEADER_BYTES, rows);
    WordsElsewhere(c, d, 0, LIVE_BYTES, col, n);
    Widen(a, b, 0, LIVE_BYTES, 0, size);
    Widen(b, c, LIVE_BYTES, size, 0, size);
    Widen(c, d, 0, LIVE_BYTES, 0, size);
  }

  lemma FewerSeparable(rows: nat, col: nat, n: nat, k: nat, size: nat)
    requires Separable(rows, col, n, size) && k <= n
    ensures Separable(rows, col, k, size)
  {
  }

  /** The whole write phase of a batch. */
  method Rebuild(mem: array<byte>, nodeCap: nat, edgeCap: nat, base: nat, col: nat, all: seq<Edge>,
                 generation: u64, ghost size: nat)
    requires base == HEADER_BYTES && Separable(nodeCap + 1, col, edgeCap, size) && size <= mem.Length
    requires nodeCap < U32 && 0 < |all| <= edgeCap < U32
    requires Sorted(EdgeLeq, all) && forall e | e in all :: e.src < nodeCap
    modifies mem
    ensures Get(mem[..], NODE_COUNT) == NodeCountOf(all)
    ensures Get(mem[..], EDGE_COUNT) == |all|
    ensures Get(mem[..], GENERATION) == generation
    ensures forall f | Live(f) && Apart(NODE_COUNT, f) && Apart(EDGE_COUNT, f) && Apart(GENERATION, f) ::
              Get(mem[..], f) == Get(old(mem[..]), f)
    ensures Words(mem[..], HEADER_BYTES, nodeCap + 1) == RowPtrOf(all, nodeCap)
    ensures Words(mem[..], col, |all|) == TargetsOf(all)
    ensures SameOutside(old(mem[..]), mem[..], 0, size)
  {
    ghost var before := mem[..];
    var nodeCount := NodeCountAfter(all, nodeCap);
    Pow256Values();
    SetField(mem, NODE_COUNT, nodeCount);
    ghost var counted := mem[..];
    RebuildArrays(mem, nodeCap, edgeCap, base, col, all, size);
    ghost var rebuilt := mem[..];
    Stamp(mem, |all|, generation);
    FewerSeparable(nodeCap + 1, col, edgeCap, |all|, size);
    WritePhaseFrame(before, counted, rebuilt, mem[..], nodeCap + 1, col, |all|, size);
  }

  method WriteCounts(mem: array<byte>, nodeCap: u32, edgeCap: u32)
    requires HEADER_BYTES <= mem.Length
    modifies mem
    ensures Get(mem[..], MAGIC_FIELD) == MAGIC
    ensures Get(mem[..], NODE_CAPACITY) == nodeCap && Get(mem[..], EDGE_CAPACITY) == edgeCap
    ensures Get(mem[..], NODE_COUNT) == 0 && Get(mem[..], EDGE_COUNT) == 0
    ensures Get(mem[..], GENERATION) == 0
    ensures SameOutside(old(mem[..]), mem[..], 0, HEADER_BYTES)
  {
    Pow256Values();
    SetField(mem, MAGIC_FIELD, MAGIC);
    SetField(mem, NODE_CAPACITY, nodeCap);
    SetField(mem, EDGE_CAPACITY, edgeCap);
    SetField(mem, NODE_COUNT, 0);
    SetField(mem, EDGE_COUNT, 0);
    SetField(mem, GENERATION, 0);
  }

  method WriteOffsets(mem: array<byte>, colIdx: u32, watermark: u32)
    requires HEADER_BYTES <= mem.Length
    modifies mem
    ensures Get(mem[..], ROW_PTR_OFFSET) == HEADER_BYTES
    ensures Get(mem[..], COL_IDX_OFFSET) == colIdx && Get(mem[..], BUMP_WATERMARK) == watermark
    ensures forall f | InHeader(f) && Apart(ROW_PTR_OFFSET, f) && Apart(COL_IDX_OFFSET, f)
                       && Apart(BUMP_WATERMARK, f) && Apart(PAD, f) ::
              Get(mem[..], f) == Get(old(mem[..]), f)
    ensures SameOutside(old(mem[..]), mem[..], 0, HEADER_BYTES)
  {
    Pow256Values();
    SetField(mem, ROW_PTR_OFFSET, HEADER_BYTES);
    SetField(mem, COL_IDX_OFFSET, colIdx);
    SetField(mem, BUMP_WATERMARK, watermark);
    SetField(mem, PAD, 0);
  }

  lemma EmptyStore(m: seq<byte>, nodeCap: u32, edgeCap: u32)
    requires RequiredBytes(nodeCap, edgeCap) <= |m| && ColumnsApart(m, CsrModel.Init(nodeCap, edgeCap))
    ensures ArraysRepresent(m, CsrModel.Init(nodeCap, edgeCap)) <==> AllZero(Words(m, HEADER_BYTES, nodeCap + 1))
    ensures NodeCountOf([]) == 0
  {
    forall i | 0 <= i <= nodeCap ensures RowPtrOf([], nodeCap)[i] == 0 {
      CountAll(SrcBelow(i), []);
    }
  }

  /** The u32 row count is right for every capacity but the largest, for which it is 0. */
  lemma RowsFit(nodeCap: u32, rows: nat)
    requires rows == Wrap(nodeCap + 1)
    ensures rows == if nodeCap + 1 < U32 then nodeCap + 1 else 0
  {
  }

  lemma ZeroedRows(before: seq<byte>, m: seq<byte>, nodeCap: u32, rows: nat)
    requires rows == Wrap(nodeCap + 1) && ColStart(nodeCap) <= |m|
    requires rows <= nodeCap + 1 && AllZero(Words(m, HEADER_BYTES, rows)) && |before| == |m|
    requires SameOutside(before, m, 0, HEADER_BYTES + 4 * rows)
    ensures AllZero(Words(m, HEADER_BYTES, nodeCap + 1))
       <==> nodeCap + 1 < U32 || AllZero(Words(before, HEADER_BYTES, nodeCap + 1))
  {
    RowsFit(nodeCap, rows);
    if rows == 0 {
      WordsElsewhere(before, m, 0, HEADER_BYTES, HEADER_BYTES, nodeCap + 1);
    }
  }

  /** A region `init` turns into a store: the columns are placed clear of the header fields in
      use, and the row pointers, which it does not clear for the largest node capacity, are
      clear. */
  ghost predicate Initializable(m: seq<byte>, nodeCap: u32, edgeCap: u32)
    requires RequiredBytes(nodeCap, edgeCap) <= |m|
  {
    && ColumnsPlaced(LIVE_BYTES, nodeCap, edgeCap)
    && (nodeCap + 1 < U32 || AllZero(Words(m, HEADER_BYTES, nodeCap + 1)))
  }

  lemma InitMeaning(before: seq<byte>, m: seq<byte>, nodeCap: u32, edgeCap: u32, rows: nat)
    requires RequiredBytes(nodeCap, edgeCap) <= |m| && rows == Wrap(nodeCap + 1)
    requires HeaderHolds(m, CsrModel.Init(nodeCap, edgeCap), ColIdxStart(nodeCap), Watermark(nodeCap, edgeCap))
    requires rows <= nodeCap + 1 && AllZero(Words(m, HEADER_BYTES, rows)) && |before| == |m|
    requires SameOutside(before, m, 0, HEADER_BYTES + 4 * rows)
    ensures Represents(m, CsrModel.Init(nodeCap, edgeCap)) <==> Initializable(before, nodeCap, edgeCap)
  {
    WrappedOffsets(nodeCap, edgeCap);
    ZeroedRows(before, m, nodeCap, rows);
    ColumnsStart(nodeCap);
    SafeExactly(LIVE_BYTES, nodeCap, edgeCap, ColIdxStart(nodeCap), |m|);
    if ColumnsApart(m, CsrModel.Init(nodeCap, edgeCap)) {
      EmptyStore(m, nodeCap, edgeCap);
    }
  }

  /** Header and zeroed row pointers. */
  method Format(mem: array<byte>, nodeCap: u32, edgeCap: u32, rows: nat, colIdx: u32, watermark: u32)
    requires HEADER_BYTES + 4 * rows <= mem.Length
    modifies mem
    ensures Get(mem[..], MAGIC_FIELD) == MAGIC
    ensures Get(mem[..], NODE_CAPACITY) == nodeCap && Get(mem[..], EDGE_CAPACITY) == edgeCap
    ensures Get(mem[..], NODE_COUNT) == 0 && Get(mem[..], EDGE_COUNT) == 0
    ensures Get(mem[..], GENERATION) == 0 && Get(mem[..], ROW_PTR_OFFSET) == HEADER_BYTES
    ensures Get(mem[..], COL_IDX_OFFSET) == colIdx && Get(mem[..], BUMP_WATERMARK) == watermark
    ensures AllZero(Words(mem[..], HEADER_BYTES, rows))
    ensures SameOutside(old(mem[..]), mem[..], 0, HEADER_BYTES + 4 * rows)
  {
    ghost var before := mem[..];
    WriteCounts(mem, nodeCap, edgeCap);
    WriteOffsets(mem, colIdx, watermark);
    ghost var headed := mem[..];
    FillZero(mem, HEADER_BYTES, rows);
    ghost var end := HEADER_BYTES + 4 * rows;
    HeaderElsewhere(headed, mem[..], HEADER_BYTES, end);
    Widen(before, headed, 0, HEADER_BYTES, 0, end);
    Widen(headed, mem[..], HEADER_BYTES, end, 0, end);
  }

  /** The pieces of a stored index, over the sorted edges it was built from. */
  lemma OpenStore(m: seq<byte>, s: Store, col: nat, end: nat) returns (sorted: seq<Edge>)
    requires RepresentsAt(m, s, col, end)
    ensures multiset(sorted) == multiset(s.log) && |sorted| == |s.log|
    ensures Sorted(EdgeLeq, sorted) && forall e | e in sorted :: e.src < s.nodeCap
    ensures Words(m, HEADER_BYTES, s.nodeCap + 1) == RowPtrOf(sorted, s.nodeCap)
    ensures Words(m, col, |s.log|) == TargetsOf(sorted)
  {
    sorted := SortedEdges(s.log);
    RebuiltArrays(s.log, sorted, s.nodeCap);
  }

  lemma HeaderKept(m: seq<byte>, r: seq<byte>, before: Store, after: Store, col: nat, end: nat)
    requires |m| >= HEADER_BYTES && |r| >= HEADER_BYTES && HeaderHolds(m, before, col, end)
    requires after.nodeCap == before.nodeCap && after.edgeCap == before.edgeCap
    requires Get(r, NODE_COUNT) == NodeCountOf(after.log) && Get(r, EDGE_COUNT) == |after.log|
    requires Get(r, GENERATION) == after.generation
    requires forall f | Live(f) && Apart(NODE_COUNT, f) && Apart(EDGE_COUNT, f) && Apart(GENERATION, f) ::
               Get(r, f) == Get(m, f)
    ensures HeaderHolds(r, after, col, end)
  {
  }

  /** The bytes of an index rebuilt from `all`, the sorted edges of `after`, hold `after`. */
  lemma Rewritten(r: seq<byte>, after: Store, col: nat, end: nat, all: seq<Edge>)
    requires after.Valid() && RequiredBytes(after.nodeCap, after.edgeCap) <= |r|
    requires HeaderHolds(r, after, col, end) && col + 4 * after.edgeCap <= |r|
    requires ArraysApart(LIVE_BYTES, after.nodeCap, after.edgeCap, HEADER_BYTES, col, |r|)
    requires |all| == |after.log|
    requires RowPtrOf(all, after.nodeCap) == RowPtrOf(after.log, after.nodeCap)
    requires TargetsOf(all) == ColIdxOf(after.log)
    requires Words(r, HEADER_BYTES, after.nodeCap + 1) == RowPtrOf(all, after.nodeCap)
    requires Words(r, col, |all|) == TargetsOf(all)
    ensures RepresentsAt(r, after, col, end)
  {
  }

  /** The old edges and the batch in sorted order. */
  method Merge(mem: array<byte>, batch: seq<Edge>, ghost before: Store, ghost col: nat, ghost end: nat)
    returns (all: seq<Edge>)
    requires RepresentsAt(mem[..], before, col, end)
    requires batch != [] && Add(before, batch).1.Ok?
    ensures Sorted(EdgeLeq, all) && |all| == |Add(before, batch).0.log|
    ensures forall e | e in all :: e.src < before.nodeCap
    ensures RowPtrOf(all, before.nodeCap) == RowPtrOf(Add(before, batch).0.log, before.nodeCap)
    ensures TargetsOf(all) == ColIdxOf(Add(before, batch).0.log)
    ensures NodeCountOf(all) == NodeCountOf(Add(before, batch).0.log)
  {
    ghost var sorted := OpenStore(mem[..], before, col, end);
    all := Collect(mem, Get(mem[..], NODE_CAPACITY), Get(mem[..], ROW_PTR_OFFSET),
                   Get(mem[..], COL_IDX_OFFSET), Get(mem[..], EDGE_COUNT), sorted);
    all := Sort(EdgeLeq, all + batch);
    BatchSorted(before, batch, sorted, all);
  }

  lemma AcceptedGrowth(before: Store, batch: seq<Edge>, after: Store)
    requires before.Valid() && batch != [] && Add(before, batch).1.Ok? && after == Add(before, batch).0
    ensures 0 < |after.log| <= before.edgeCap && after.generation == NextGeneration(before.generation)
    ensures after.nodeCap == before.nodeCap && after.edgeCap == before.edgeCap && after.Valid()
  {
  }

  /** Overwrites the index by that of the store `after`, whose sorted edges are `all`. */
  method WriteIndex(mem: array<byte>, all: seq<Edge>, ghost before: Store, ghost after: Store,
                    ghost col: nat, ghost end: nat, ghost size: nat)
    requires RequiredBytes(after.nodeCap, after.edgeCap) == size <= mem.Length
    requires HeaderHolds(mem[..], before, col, end) && Separable(after.nodeCap + 1, col, after.edgeCap, size)
    requires after.nodeCap == before.nodeCap && after.edgeCap == before.edgeCap && after.Valid()
    requires after.generation == NextGeneration(before.generation)
    requires Sorted(EdgeLeq, all) && forall e | e in all :: e.src < after.nodeCap
    requires 0 < |all| == |after.log| && NodeCountOf(all) == NodeCountOf(after.log)
    requires RowPtrOf(all, after.nodeCap) == RowPtrOf(after.log, after.nodeCap)
    requires TargetsOf(all) == ColIdxOf(after.log)
    modifies mem
    ensures RepresentsAt(mem[..], after, col, end)
    ensures SameOutside(old(mem[..]), mem[..], 0, size)
  {
    ghost var m := mem[..];
    Rebuild(mem, Get(mem[..], NODE_CAPACITY), Get(mem[..], EDGE_CAPACITY), Get(mem[..], ROW_PTR_OFFSET),
            Get(mem[..], COL_IDX_OFFSET), all, NextGeneration(Get(mem[..], GENERATION)), size);
    HeaderKept(m, mem[..], before, after, col, end);
    SeparableApart(after.nodeCap + 1, col, after.edgeCap, after.nodeCap, size, |m|);
    Rewritten(mem[..], after, col, end, all);
  }

  /** Collect, sort and rebuild, for a batch that has passed the guards. */
  method TakeIn(mem: array<byte>, batch: seq<Edge>, ghost before: Store, ghost after: Store,
                ghost col: nat, ghost end: nat, ghost size: nat)
    requires RepresentsAt(mem[..], before, col, end)
    requires size == RequiredBytes(before.nodeCap, before.edgeCap)
    requires Separable(before.nodeCap + 1, col, before.edgeCap, size)
    requires batch != [] && Add(before, batch).1.Ok? && after == Add(before, batch).0
    modifies mem
    ensures RepresentsAt(mem[..], after, col, end)
    ensures SameOutside(old(mem[..]), mem[..], 0, size)
  {
    var all := Merge(mem, batch, before, col, end);
    AcceptedGrowth(before, batch, after);
    WriteIndex(mem, all, before, after, col, end, size);
  }

  class CsrGraph {
    const mem: array<byte>
    ghost var store: Store

    ghost predicate Valid()
      reads this, mem
    {
      Represents(mem[..], store)
    }

    constructor (mem: array<byte>, ghost store: Store)
      ensures this.mem == mem && this.store == store
    {
      this.mem := mem;
      this.store := store;
    }

    /** Fails on a region that is too small. A large enough region becomes an empty store
        exactly when it is initializable, although the watermark may have wrapped. */
    static method Init(mem: array<byte>, nodeCap: u32, edgeCap: u32) returns (r: Result<CsrGraph>)
      modifies mem
      ensures r == Err(InsufficientMemory) <==> mem.Length < RequiredBytes(nodeCap, edgeCap)
      ensures r.Err? ==> r.error == InsufficientMemory && mem[..] == old(mem[..])
      ensures r.Ok? ==> fresh(r.value) && r.value.mem == mem && r.value.store == CsrModel.Init(nodeCap, edgeCap)
      ensures r.Ok? ==> (r.value.Valid() <==> Initializable(old(mem[..]), nodeCap, edgeCap))
      ensures r.Ok? ==> SameOutside(old(mem[..]), mem[..], 0, ColStart(nodeCap))
    {
      if mem.Length < RequiredBytes(nodeCap, edgeCap) {
        return Err(InsufficientMemory);
      }
      ghost var before := mem[..];
      var rows: u32 := Wrap(nodeCap + 1);
      RowsFit(nodeCap, rows);
      Format(mem, nodeCap, edgeCap, rows, ColIdxStart(nodeCap), Watermark(nodeCap, edgeCap));
      Widen(before, mem[..], 0, HEADER_BYTES + 4 * rows, 0, ColStart(nodeCap));
      assert NodeCountOf([]) == 0;
      InitMeaning(before, mem[..], nodeCap, edgeCap, rows);
      var g := new CsrGraph(mem, CsrModel.Init(nodeCap, edgeCap));
      return Ok(g);
    }

    /** The end of the store modulo 2^32. */
    method GetWatermark() returns (end: nat)
      requires Valid()
      ensures end == RequiredBytes(store.nodeCap, store.edgeCap) % U32
      ensures end == RequiredBytes(store.nodeCap, store.edgeCap) <==> RequiredBytes(store.nodeCap, store.edgeCap) < U32
    {
      WrapFacts(RequiredBytes(store.nodeCap, store.edgeCap));
      end := Get(mem[..], BUMP_WATERMARK);
    }

    /** One batch: on success the index is that of the longer log; on failure not one byte
        of the region has changed. */
    method AddEdgeBatch(edges: seq<Edge>) returns (r: Result<u32>)
      requires Valid()
      modifies this`store, mem
      ensures Valid()
      ensures store == Add(old(store), edges).0 && r == Add(old(store), edges).1
      ensures r.Err? || edges == [] ==> mem[..] == old(mem[..])
      ensures SameOutside(old(mem[..]), mem[..], 0, RequiredBytes(store.nodeCap, store.edgeCap))
    {
      if edges == [] {
        return Ok(0);
      }
      if Get(mem[..], MAGIC_FIELD) != MAGIC {
        assert false;
      }
      if Get(mem[..], EDGE_COUNT) + |edges| > Get(mem[..], EDGE_CAPACITY) {
        return Err(EdgeCapacityExhausted);
      }
      var ok := IdsInRange(edges, Get(mem[..], NODE_CAPACITY));
      if !ok {
        return Err(NodeIdExceedsCapacity);
      }
      ghost var after := Add(store, edges).0;
      AcceptedGrowth(store, edges, after);
      ColumnsSeparable(mem[..], store);
      TakeIn(mem, edges, store, after, Wrap(ColStart(store.nodeCap)),
             Wrap(RequiredBytes(store.nodeCap, store.edgeCap)), RequiredBytes(store.nodeCap, store.edgeCap));
      store := Add(store, edges).0;
      r := Ok(|edges|);
    }

    /** A row: the sorted arrangement of exactly the accepted targets of `id`. */
    method GetFollowing(id: u32) returns (r: Result<seq<u32>>)
      requires Valid()
      ensures r.Err? <==> id >= store.nodeCap
      ensures r.Err? ==> r.error == InvalidNodeId
      ensures r.Ok? ==> Sorted(IdLeq, r.value) && multiset(r.value) == multiset(Targets(store.log, id))
      ensures r.Ok? ==> forall d: u32 :: d in r.value <==> Edge(id, d) in store.log
    {
      if Get(mem[..], MAGIC_FIELD) != MAGIC {
        assert false;
      }
      var nodeCap := Get(mem[..], NODE_CAPACITY);
      if id >= nodeCap {
        return Err(InvalidNodeId);
      }
      RowMeaning(store, id);
      var col := Words(mem[..], Get(mem[..], COL_IDX_OFFSET), Get(mem[..], EDGE_COUNT));
      assert RowPtrOf(store.log, nodeCap)[id] == WordAt(mem[..], HEADER_BYTES, id);
      assert RowPtrOf(store.log, nodeCap)[id + 1] == WordAt(mem[..], HEADER_BYTES, id + 1);
      var base := Get(mem[..], ROW_PTR_OFFSET);
      var (start, end) := (WordAt(mem[..], base, id), WordAt(mem[..], base, id + 1));
      if start == end {
        assert col[start..end] == [];
        return Ok([]);
      }
      return Ok(col[start..end]);
    }

    method EdgeExists(src: u32, dst: u32) returns (b: bool)
      requires Valid()
      ensures b <==> Edge(src, dst) in store.log
    {
      var row := GetFollowing(src);
      match row
      case Ok(neighbors) => b := BinarySearch(neighbors, dst);
      case Err(_) => b := false;
    }

    /** Exactly the sources with an edge to `id`, in strictly increasing order. */
    method GetFollowers(id: u32) returns (r: Result<seq<u32>>)
      requires Valid()
      ensures r.Err? <==> id >= store.nodeCap
      ensures r.Err? ==> r.error == InvalidNodeId
      ensures r.Ok? ==> forall i, j | 0 <= i < j < |r.value| :: r.value[i] < r.value[j]
      ensures r.Ok? ==> forall u: u32 :: u in r.value <==> Edge(u, id) in store.log
    {
      if id >= Get(mem[..], NODE_CAPACITY) {
        return Err(InvalidNodeId);
      }
      var followers: seq<u32> := [];
      var nodeCount := Get(mem[..], NODE_COUNT);
      Pow256Values();
      for src := 0 to nodeCount
        invariant forall i, j | 0 <= i < j < |followers| :: followers[i] < followers[j]
        invariant forall i | 0 <= i < |followers| :: followers[i] < src
        invariant forall u: u32 :: u in followers <==> u < src && Edge(u, id) in store.log
      {
        var found := EdgeExists(src, id);
        if found {
          followers := followers + [src];
        }
      }
      assert forall u: u32 :: Edge(u, id) in store.log ==> Edge(u, id).src < nodeCount;
      return Ok(followers);
    }
  }
}
