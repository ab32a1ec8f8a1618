/** The document graph and its packed blob: the reader, the generator that writes it, and
    what one means to the other. */
module GraphBlob {
  import opened Bytes
  import opened Sequences

  const LEN_LIMIT: nat := 0x10_0000

  // ---- the engine's data ----

  datatype GraphEngine = GraphEngine(rowPtr: seq<nat>, colIdx: seq<nat>, docOffsets: seq<nat>, arena: seq<byte>)
  {
    /** Every array entry fits its field in the blob. */
    ghost predicate Storable() {
      && 1 <= |rowPtr| <= U32 && |colIdx| < U32 && |docOffsets| == |colIdx|
      && (forall i | 0 <= i < |rowPtr| :: rowPtr[i] < Pow256(4))
      && (forall i | 0 <= i < |colIdx| :: colIdx[i] < Pow256(4))
      && (forall i | 0 <= i < |docOffsets| :: docOffsets[i] < Pow256(8))
    }

    /** No row reads past the columns. The reader does not check this. */
    ghost predicate RowsInBounds() {
      && |docOffsets| == |colIdx|
      && forall i | 0 <= i < |rowPtr| :: rowPtr[i] <= |colIdx|
    }

    ghost predicate WellFormed() {
      && RowsInBounds()
      && forall i, j | 0 <= i <= j < |rowPtr| :: rowPtr[i] <= rowPtr[j]
    }

    /** The document of edge slot `i`, if its extent lies inside the arena. */
    function Doc(i: nat): (d: Option<seq<byte>>)
      requires i < |docOffsets|
    {
      var offset := docOffsets[i] / LEN_LIMIT;
      var len := docOffsets[i] % LEN_LIMIT;
      if offset + len <= |arena| then Some(arena[offset..offset + len]) else None
    }

    function Row(i: nat): (targets: seq<nat>)
      requires RowsInBounds()
    {
      if i + 1 < |rowPtr| && rowPtr[i] <= rowPtr[i + 1]
      then colIdx[rowPtr[i]..rowPtr[i + 1]]
      else []
    }
  }

  // ---- blob reader and writer ----

  datatype BlobError = TooShort | Truncated

  datatype Parse = Parsed(graph: GraphEngine) | Rejected(error: BlobError)

  function ColsOffset(nNodes: nat): (o: nat) {
    8 + (nNodes + 1) * 4
  }

  function DocsOffset(nNodes: nat, nnz: nat): (o: nat) {
    ColsOffset(nNodes) + nnz * 4
  }

  function BlobSize(nNodes: nat, nnz: nat): (n: nat) {
    DocsOffset(nNodes, nnz) + nnz * 8
  }

  function FromBlob(blob: seq<byte>): (r: Parse) {
    if |blob| < 8 then Rejected(TooShort)
    else ParseBody(blob, LeU32(blob[0..4]), LeU32(blob[4..8]))
  }

  function ParseBody(blob: seq<byte>, nNodes: nat, nnz: nat): (r: Parse) {
    if |blob| < BlobSize(nNodes, nnz) then Rejected(Truncated)
    else Parsed(ParseArrays(blob, ColsOffset(nNodes), DocsOffset(nNodes, nnz), BlobSize(nNodes, nnz)))
  }

  function ParseArrays(blob: seq<byte>, cols: nat, docs: nat, rest: nat): (g: GraphEngine)
    requires 8 <= cols <= docs <= rest <= |blob|
  {
    GraphEngine(
      DecodeAll(blob[8..cols], 4),
      DecodeAll(blob[cols..docs], 4),
      DecodeAll(blob[docs..rest], 8),
      blob[rest..])
  }

  function ToBlob(g: GraphEngine): (blob: seq<byte>)
    requires g.rowPtr != []
  {
    LeBytes(|g.rowPtr| - 1, 4) + LeBytes(|g.colIdx|, 4)
    + EncodeAll(g.rowPtr, 4) + EncodeAll(g.colIdx, 4) + EncodeAll(g.docOffsets, 8)
    + g.arena
  }

  lemma Segments(a: seq<byte>, b: seq<byte>, c: seq<byte>, d: seq<byte>, e: seq<byte>, f: seq<byte>,
                 cols: nat, docs: nat, rest: nat)
    requires |a| == 4 && |b| == 4
    requires cols == 8 + |c| && docs == cols + |d| && rest == docs + |e|
    ensures var blob := a + b + c + d + e + f;
            && blob[0..4] == a && blob[4..8] == b && blob[8..cols] == c
            && blob[cols..docs] == d && blob[docs..rest] == e && blob[rest..] == f
  {
  }

  lemma ReadHeader(blob: seq<byte>, nNodes: u32, nnz: u32)
    requires |blob| >= 8 && blob[0..4] == LeBytes(nNodes, 4) && blob[4..8] == LeBytes(nnz, 4)
    ensures LeU32(blob[0..4]) == nNodes && LeU32(blob[4..8]) == nnz
  {
    Pow256Values();
    LeRoundTrip(nNodes, 4);
    LeRoundTrip(nnz, 4);
  }

  lemma WrittenSegments(g: GraphEngine, blob: seq<byte>, cols: nat, docs: nat, rest: nat)
    requires g.Storable() && blob == ToBlob(g)
    requires cols == 8 + 4 * |g.rowPtr| && docs == cols + 4 * |g.colIdx| && rest == docs + 8 * |g.colIdx|
    ensures |blob| == rest + |g.arena|
    ensures blob[0..4] == LeBytes(|g.rowPtr| - 1, 4) && blob[4..8] == LeBytes(|g.colIdx|, 4)
    ensures blob[8..cols] == EncodeAll(g.rowPtr, 4) && blob[cols..docs] == EncodeAll(g.colIdx, 4)
    ensures blob[docs..rest] == EncodeAll(g.docOffsets, 8) && blob[rest..] == g.arena
  {
    Segments(LeBytes(|g.rowPtr| - 1, 4), LeBytes(|g.colIdx|, 4), EncodeAll(g.rowPtr, 4),
             EncodeAll(g.colIdx, 4), EncodeAll(g.docOffsets, 8), g.arena, cols, docs, rest);
  }

  lemma DecodedSegments(g: GraphEngine)
    requires g.Storable()
    ensures DecodeAll(EncodeAll(g.rowPtr, 4), 4) == g.rowPtr
    ensures DecodeAll(EncodeAll(g.colIdx, 4), 4) == g.colIdx
    ensures DecodeAll(EncodeAll(g.docOffsets, 8), 8) == g.docOffsets
  {
    DecodeEncodeAll(g.rowPtr, 4);
    DecodeEncodeAll(g.colIdx, 4);
    DecodeEncodeAll(g.docOffsets, 8);
  }

  lemma ReadSegments(g: GraphEngine, blob: seq<byte>, cols: nat, docs: nat, rest: nat)
    requires g.Storable() && 8 <= cols <= docs <= rest <= |blob|
    requires blob[8..cols] == EncodeAll(g.rowPtr, 4) && blob[cols..docs] == EncodeAll(g.colIdx, 4)
    requires blob[docs..rest] == EncodeAll(g.docOffsets, 8) && blob[rest..] == g.arena
    ensures ParseArrays(blob, cols, docs, rest) == g
  {
    DecodedSegments(g);
  }

  /** Reading back a written blob gives the graph that was written. */
  lemma ReadOfWritten(g: GraphEngine)
    requires g.Storable()
    ensures FromBlob(ToBlob(g)) == Parsed(g)
  {
    var (nNodes, nnz) := (|g.rowPtr| - 1, |g.colIdx|);
    WrittenSegments(g, ToBlob(g), ColsOffset(nNodes), DocsOffset(nNodes, nnz), BlobSize(nNodes, nnz));
    ReadSegments(g, ToBlob(g), ColsOffset(nNodes), DocsOffset(nNodes, nnz), BlobSize(nNodes, nnz));
    ReadHeader(ToBlob(g), nNodes, nnz);
  }

  lemma CutBlob(blob: seq<byte>, cols: nat, docs: nat, rest: nat)
    requires 8 <= cols <= docs <= rest <= |blob|
    ensures blob == blob[0..4] + blob[4..8] + blob[8..cols] + blob[cols..docs] + blob[docs..rest] + blob[rest..]
  {
  }

  lemma PartsAreImages(blob: seq<byte>, nNodes: nat, nnz: nat, cols: nat, docs: nat, rest: nat)
    requires cols == 8 + (nNodes + 1) * 4 && docs == cols + nnz * 4 && rest == docs + nnz * 8 <= |blob|
    ensures |DecodeAll(blob[8..cols], 4)| == nNodes + 1
    ensures |DecodeAll(blob[cols..docs], 4)| == nnz == |DecodeAll(blob[docs..rest], 8)|
    ensures EncodeAll(DecodeAll(blob[8..cols], 4), 4) == blob[8..cols]
    ensures EncodeAll(DecodeAll(blob[cols..docs], 4), 4) == blob[cols..docs]
    ensures EncodeAll(DecodeAll(blob[docs..rest], 8), 8) == blob[docs..rest]
    ensures LeBytes(LeValue(blob[0..4]), 4) == blob[0..4]
    ensures LeBytes(LeValue(blob[4..8]), 4) == blob[4..8]
  {
    EncodeDecodeAll(blob[8..cols], 4, nNodes + 1);
    EncodeDecodeAll(blob[cols..docs], 4, nnz);
    EncodeDecodeAll(blob[docs..rest], 8, nnz);
    LeImage(blob[0..4]);
    LeImage(blob[4..8]);
  }

  lemma WriteSegments(blob: seq<byte>, nNodes: u32, nnz: u32)
    requires BlobSize(nNodes, nnz) <= |blob|
    requires nNodes == LeValue(blob[0..4]) && nnz == LeValue(blob[4..8])
    ensures ParseBody(blob, nNodes, nnz).graph.Storable()
    ensures ToBlob(ParseBody(blob, nNodes, nnz).graph) == blob
  {
    PartsAreImages(blob, nNodes, nnz, ColsOffset(nNodes), DocsOffset(nNodes, nnz), BlobSize(nNodes, nnz));
    CutBlob(blob, ColsOffset(nNodes), DocsOffset(nNodes, nnz), BlobSize(nNodes, nnz));
  }

  /** Every accepted blob re-serialises to itself. */
  lemma WriteOfRead(blob: seq<byte>)
    requires FromBlob(blob).Parsed?
    ensures FromBlob(blob).graph.Storable()
    ensures ToBlob(FromBlob(blob).graph) == blob
  {
    WriteSegments(blob, LeU32(blob[0..4]), LeU32(blob[4..8]));
  }

  lemma ListAtPlace(blob: seq<byte>, lo: nat, hi: nat, width: nat, n: nat, i: nat)
    requires width > 0 && lo <= hi <= |blob| && hi - lo == width * n
    ensures |DecodeAll(blob[lo..hi], width)| == n
    ensures i < n ==> 0 <= width * i <= width * i + width <= hi - lo
    ensures i < n ==> DecodeAll(blob[lo..hi], width)[i] == LeValue(blob[lo + width * i..lo + width * i + width])
  {
    var s := blob[lo..hi];
    EncodeDecodeAll(s, width, n);
    if i < n {
      DecodeAllAt(s, width, n, i);
      var a := width * i;
      SliceOfSlice(blob, lo, hi, a, a + width);
    }
  }

  lemma RowsAtPlace(blob: seq<byte>, n: nat, cols: nat, i: nat)
    requires cols == 8 + 4 * (n + 1) <= |blob|
    ensures |DecodeAll(blob[8..cols], 4)| == n + 1
    ensures i <= n ==> DecodeAll(blob[8..cols], 4)[i] == LeValue(blob[8 + 4 * i..8 + 4 * i + 4])
  {
    ListAtPlace(blob, 8, cols, 4, n + 1, i);
  }

  lemma BodyLayout(blob: seq<byte>, n: nat, m: nat, cols: nat, docs: nat, rest: nat, i: nat)
    requires cols == 8 + 4 * (n + 1) && docs == cols + 4 * m && rest == docs + 8 * m <= |blob|
    ensures var g := ParseArrays(blob, cols, docs, rest);
            && |g.rowPtr| == n + 1 && |g.colIdx| == m == |g.docOffsets| && g.arena == blob[rest..]
            && (i <= n ==> g.rowPtr[i] == LeValue(blob[8 + 4 * i..8 + 4 * i + 4]))
            && (i < m ==> g.colIdx[i] == LeValue(blob[cols + 4 * i..cols + 4 * i + 4]))
            && (i < m ==> g.docOffsets[i] == LeValue(blob[docs + 8 * i..docs + 8 * i + 8]))
  {
    RowsAtPlace(blob, n, cols, i);
    ListAtPlace(blob, cols, docs, 4, m, i);
    ListAtPlace(blob, docs, rest, 8, m, i);
  }

  /** Where everything stands in an accepted blob of `n` nodes and `m` edges. */
  lemma BlobLayout(blob: seq<byte>, n: nat, m: nat, i: nat)
    requires FromBlob(blob).Parsed? && n == LeU32(blob[0..4]) && m == LeU32(blob[4..8])
    ensures |blob| >= 8 + 4 * (n + 1) + 12 * m
    ensures var (g, cols, docs) := (FromBlob(blob).graph, 8 + 4 * (n + 1), 8 + 4 * (n + 1) + 4 * m);
            && |g.rowPtr| == n + 1 && |g.colIdx| == m == |g.docOffsets|
            && g.arena == blob[8 + 4 * (n + 1) + 12 * m..]
            && (i <= n ==> g.rowPtr[i] == LeValue(blob[8 + 4 * i..8 + 4 * i + 4]))
            && (i < m ==> g.colIdx[i] == LeValue(blob[cols + 4 * i..cols + 4 * i + 4]))
            && (i < m ==> g.docOffsets[i] == LeValue(blob[docs + 8 * i..docs + 8 * i + 8]))
  {
    BodyLayout(blob, n, m, ColsOffset(n), DocsOffset(n, m), BlobSize(n, m), i);
  }

  /** Rejection, by the header's own numbers. */
  lemma RejectedExactly(blob: seq<byte>)
    ensures FromBlob(blob) == Rejected(TooShort) <==> |blob| < 8
    ensures FromBlob(blob) == Rejected(Truncated) <==>
              |blob| >= 8 && |blob| < 8 + 4 * (LeU32(blob[0..4]) + 1) + 12 * LeU32(blob[4..8])
  {
  }

  /** A slot's document is its whole extent of the arena, if that lies inside; else none. */
  lemma DocExactly(g: GraphEngine, i: nat, offset: nat, len: nat)
    requires i < |g.docOffsets| && g.docOffsets[i] == offset * 0x10_0000 + len && len < 0x10_0000
    ensures g.Doc(i).Some? <==> offset + len <= |g.arena|
    ensures g.Doc(i).Some? ==> g.Doc(i).value == g.arena[offset..offset + len] && |g.Doc(i).value| == len
  {
  }

  lemma ArenaIsLast(g: GraphEngine, n: nat)
    requires g.rowPtr != [] && n <= |g.arena|
    ensures |ToBlob(g)| >= |g.arena|
    ensures ToBlob(g.(arena := g.arena[..n])) == ToBlob(g)[..|ToBlob(g)| - |g.arena| + n]
  {
  }

  /** A blob cut short inside its arena is still accepted. It yields exactly the documents
      that end by the cut, and those unchanged. */
  lemma CutInsideArena(g: GraphEngine, n: nat, i: nat, offset: nat, len: nat)
    requires g.Storable() && n <= |g.arena| && i < |g.docOffsets|
    requires g.docOffsets[i] == offset * 0x10_0000 + len && len < 0x10_0000
    ensures |ToBlob(g)| >= |g.arena|
    ensures var parse := FromBlob(ToBlob(g)[..|ToBlob(g)| - |g.arena| + n]);
            && parse == Parsed(g.(arena := g.arena[..n]))
            && parse.graph.Doc(i) == if offset + len <= n then g.Doc(i) else None
  {
    var cut := g.(arena := g.arena[..n]);
    ArenaIsLast(g, n);
    ReadOfWritten(cut);
    DocExactly(g, i, offset, len);
    DocExactly(cut, i, offset, len);
    if offset + len <= n {
      assert g.arena[..n][offset..offset + len] == g.arena[offset..offset + len];
    }
  }

  /** The accepted blobs are exactly the written ones, and they are recognised by their
      length alone. */
  lemma AcceptedExactly(blob: seq<byte>)
    ensures FromBlob(blob).Parsed? <==> exists g: GraphEngine :: g.Storable() && ToBlob(g) == blob
    ensures FromBlob(blob).Parsed? <==>
              |blob| >= 8 && |blob| >= BlobSize(LeU32(blob[0..4]), LeU32(blob[4..8]))
    ensures FromBlob(blob) == Rejected(TooShort) <==> |blob| < 8
  {
    if FromBlob(blob).Parsed? {
      WriteOfRead(blob);
    }
    forall g: GraphEngine | g.Storable() && ToBlob(g) == blob ensures FromBlob(blob).Parsed? {
      ReadOfWritten(g);
    }
  }

  // ---- concatenation ----

  /** Where part `i` starts in the concatenation. */
  function StartOf<T>(parts: seq<seq<T>>, i: nat): (n: nat)
    requires i <= |parts|
  {
    |Concat(parts[..i])|
  }

  lemma StartStep<T>(parts: seq<seq<T>>, i: nat)
    requires i < |parts|
    ensures Concat(parts[..i + 1]) == Concat(parts[..i]) + parts[i]
    ensures StartOf(parts, i + 1) == StartOf(parts, i) + |parts[i]|
  {
    assert parts[..i + 1][..i] == parts[..i];
  }

  lemma {:induction false} ConcatSlice<T>(parts: seq<seq<T>>, i: nat, n: nat)
    requires i < n <= |parts|
    ensures StartOf(parts, i) <= StartOf(parts, i + 1) <= |Concat(parts[..n])|
    ensures Concat(parts[..n])[StartOf(parts, i)..StartOf(parts, i + 1)] == parts[i]
    decreases n
  {
    StartStep(parts, n - 1);
    if i + 1 < n {
      ConcatSlice(parts, i, n - 1);
      var (a, b) := (StartOf(parts, i), StartOf(parts, i + 1));
      assert Concat(parts[..n])[a..b] == Concat(parts[..n - 1])[a..b];
    }
  }

  lemma {:induction false} StartMonotone<T>(parts: seq<seq<T>>, i: nat, j: nat)
    requires i <= j <= |parts|
    ensures StartOf(parts, i) <= StartOf(parts, j)
    decreases j
  {
    if i < j {
      StartStep(parts, j - 1);
      StartMonotone(parts, i, j - 1);
    }
  }

  // ---- the generator ----

  function PackDoc(offset: nat, len: nat): (p: nat)
    ensures p / LEN_LIMIT == offset && p % LEN_LIMIT == len % LEN_LIMIT
  {
    offset * LEN_LIMIT + len % LEN_LIMIT
  }

  function RowStarts(adjacency: seq<seq<nat>>): (rp: seq<nat>)
    ensures |rp| == |adjacency| + 1
  {
    seq(|adjacency| + 1, i requires 0 <= i <= |adjacency| => StartOf(adjacency, i))
  }

  function PackedOffsets(bodies: seq<seq<byte>>): (ps: seq<nat>)
    ensures |ps| == |bodies|
  {
    seq(|bodies|, i requires 0 <= i < |bodies| => PackDoc(StartOf(bodies, i), |bodies[i]|))
  }

  /** The graph the generator describes, for given adjacency lists and documents. */
  function GraphOf(adjacency: seq<seq<nat>>, bodies: seq<seq<byte>>): (g: GraphEngine) {
    GraphEngine(RowStarts(adjacency), Concat(adjacency), PackedOffsets(bodies), Concat(bodies))
  }

  /** `struct.pack` of a list: fails on the first value that does not fit. */
  method PackAll(vs: seq<nat>, width: nat) returns (r: Option<seq<byte>>)
    ensures r.Some? <==> forall i | 0 <= i < |vs| :: vs[i] < Pow256(width)
    ensures r.Some? ==> r.value == EncodeAll(vs, width)
  {
    var buf: seq<byte> := [];
    for k := 0 to |vs|
      invariant forall i | 0 <= i < k :: vs[i] < Pow256(width)
      invariant buf + EncodeAll(vs[k..], width) == EncodeAll(vs, width)
    {
      if vs[k] >= Pow256(width) {
        return None;
      }
      assert vs[k..][1..] == vs[k + 1..];
      buf := buf + LeBytes(vs[k], width);
    }
    assert vs[|vs|..] == [];
    return Some(buf);
  }

  method BuildRows(adjacency: seq<seq<nat>>) returns (rowPtr: seq<nat>, colIdx: seq<nat>)
    ensures rowPtr == RowStarts(adjacency) && colIdx == Concat(adjacency)
  {
    rowPtr, colIdx := [0], [];
    for i := 0 to |adjacency|
      invariant colIdx == Concat(adjacency[..i])
      invariant rowPtr == RowStarts(adjacency)[..i + 1]
    {
      StartStep(adjacency, i);
      colIdx := colIdx + adjacency[i];
      rowPtr := rowPtr + [|colIdx|];
    }
    assert adjacency[..|adjacency|] == adjacency;
  }

  method BuildArena(bodies: seq<seq<byte>>) returns (docOffsets: seq<nat>, arena: seq<byte>)
    ensures docOffsets == PackedOffsets(bodies) && arena == Concat(bodies)
  {
    docOffsets, arena := [], [];
    for i := 0 to |bodies|
      invariant arena == Concat(bodies[..i])
      invariant docOffsets == PackedOffsets(bodies)[..i]
    {
      StartStep(bodies, i);
      docOffsets := docOffsets + [PackDoc(|arena|, |bodies[i]|)];
      arena := arena + bodies[i];
    }
    assert bodies[..|bodies|] == bodies;
  }

  /** One document per edge; the blob is written unless some value overflows its field. */
  method Gen(adjacency: seq<seq<nat>>, bodies: seq<seq<byte>>) returns (r: Option<seq<byte>>)
    requires |bodies| == |Concat(adjacency)|
    ensures r.Some? <==> GraphOf(adjacency, bodies).Storable()
    ensures r.Some? ==> r.value == ToBlob(GraphOf(adjacency, bodies))
  {
    var rowPtr, colIdx := BuildRows(adjacency);
    var nnz := |colIdx|;
    var docOffsets, arena := BuildArena(bodies);
    if |adjacency| >= U32 || nnz >= U32 {
      return None;
    }
    var rows := PackAll(rowPtr, 4);
    var cols := PackAll(colIdx, 4);
    var docs := PackAll(docOffsets, 8);
    if rows.None? || cols.None? || docs.None? {
      return None;
    }
    return Some(LeBytes(|adjacency|, 4) + LeBytes(nnz, 4) + rows.value + cols.value + docs.value + arena);
  }

  lemma DocOfBody(bodies: seq<seq<byte>>, i: nat, g: GraphEngine)
    requires i < |bodies| == |g.docOffsets| && g.arena == Concat(bodies)
    requires g.docOffsets[i] == PackDoc(StartOf(bodies, i), |bodies[i]|)
    ensures g.Doc(i) == Some(bodies[i][..|bodies[i]| % LEN_LIMIT])
    ensures g.Doc(i) == Some(bodies[i]) <==> |bodies[i]| < LEN_LIMIT
  {
    assert bodies[..|bodies|] == bodies;
    ConcatSlice(bodies, i, |bodies|);
    StartStep(bodies, i);
    var (a, b) := (StartOf(bodies, i), StartOf(bodies, i + 1));
    var len := |bodies[i]| % LEN_LIMIT;
    assert g.arena[a..a + len] == g.arena[a..b][..len];
    if |bodies[i]| < LEN_LIMIT {
      assert bodies[i][..len] == bodies[i];
    } else {
      assert |bodies[i][..len]| < |bodies[i]|;
    }
  }

  lemma GeneratedWellFormed(adjacency: seq<seq<nat>>, g: GraphEngine)
    requires g.rowPtr == RowStarts(adjacency) && g.colIdx == Concat(adjacency)
    requires |g.docOffsets| == |g.colIdx|
    ensures g.WellFormed()
  {
    assert adjacency[..|adjacency|] == adjacency;
    forall i, j | 0 <= i <= j < |g.rowPtr| ensures g.rowPtr[i] <= g.rowPtr[j] {
      StartMonotone(adjacency, i, j);
    }
    forall i | 0 <= i < |g.rowPtr| ensures g.rowPtr[i] <= |g.colIdx| {
      StartMonotone(adjacency, i, |adjacency|);
    }
  }

  lemma GeneratedRow(adjacency: seq<seq<nat>>, i: nat)
    requires i < |adjacency|
    ensures var rp := RowStarts(adjacency);
            rp[i] <= rp[i + 1] <= |Concat(adjacency)| && Concat(adjacency)[rp[i]..rp[i + 1]] == adjacency[i]
  {
    assert adjacency[..|adjacency|] == adjacency;
    ConcatSlice(adjacency, i, |adjacency|);
  }

  lemma GeneratedDocs(bodies: seq<seq<byte>>, g: GraphEngine)
    requires g.docOffsets == PackedOffsets(bodies) && g.arena == Concat(bodies)
    ensures forall i | 0 <= i < |bodies| :: g.Doc(i) == Some(bodies[i][..|bodies[i]| % LEN_LIMIT])
    ensures forall i | 0 <= i < |bodies| :: (g.Doc(i) == Some(bodies[i]) <==> |bodies[i]| < LEN_LIMIT)
  {
    forall i | 0 <= i < |bodies|
      ensures g.Doc(i) == Some(bodies[i][..|bodies[i]| % LEN_LIMIT])
      ensures g.Doc(i) == Some(bodies[i]) <==> |bodies[i]| < LEN_LIMIT
    {
      DocOfBody(bodies, i, g);
    }
  }

  /** The generated graph is well formed and gives back every adjacency list; each slot
      gives back its document cut to its length mod 2^20, so exactly the documents
      shorter than that survive. */
  lemma GeneratedGraph(adjacency: seq<seq<nat>>, bodies: seq<seq<byte>>)
    requires |bodies| == |Concat(adjacency)|
    ensures var g := GraphOf(adjacency, bodies);
            && g.WellFormed()
            && (forall i | 0 <= i < |adjacency| :: g.Row(i) == adjacency[i])
            && (forall i | 0 <= i < |bodies| :: g.Doc(i) == Some(bodies[i][..|bodies[i]| % 0x10_0000]))
            && (forall i | 0 <= i < |bodies| :: (g.Doc(i) == Some(bodies[i]) <==> |bodies[i]| < 0x10_0000))
  {
    var g := GraphOf(adjacency, bodies);
    GeneratedWellFormed(adjacency, g);
    GeneratedDocs(bodies, g);
    forall i | 0 <= i < |adjacency| ensures g.Row(i) == adjacency[i] {
      GeneratedRow(adjacency, i);
    }
  }

  // ---- arena accounting ----

  function UsedBytes(docOffsets: seq<nat>): (n: nat)
    ensures n <= |docOffsets| * LEN_LIMIT
  {
    if docOffsets == [] then 0
    else UsedBytes(docOffsets[..|docOffsets| - 1]) + docOffsets[|docOffsets| - 1] % LEN_LIMIT
  }

  /** The sum of the lengths in the low 20 bits. */
  lemma UsedMore(docOffsets: seq<nat>, offset: nat, len: nat)
    requires len < 0x10_0000
    ensures UsedBytes([]) == 0
    ensures UsedBytes(docOffsets + [offset * 0x10_0000 + len]) == UsedBytes(docOffsets) + len
  {
    assert (docOffsets + [offset * 0x10_0000 + len])[..|docOffsets|] == docOffsets;
  }

  function Unused(arenaLen: nat, used: nat): (waste: nat) {
    if used < arenaLen then arenaLen - used else 0
  }

  method SumLengths(docOffsets: seq<nat>) returns (used: u64)
    requires |docOffsets| < U32
    ensures used == UsedBytes(docOffsets)
  {
    used := 0;
    for k := 0 to |docOffsets|
      invariant used == UsedBytes(docOffsets[..k])
    {
      assert docOffsets[..k + 1][..k] == docOffsets[..k];
      assert UsedBytes(docOffsets[..k + 1]) < U64;
      used := (used + docOffsets[k] % LEN_LIMIT) % U64;
    }
    assert docOffsets[..|docOffsets|] == docOffsets;
  }

  /** Percentage of the arena no document length accounts for; the u64 sum cannot wrap. */
  method ArenaFragmentationPct(g: GraphEngine) returns (pct: real)
    requires |g.docOffsets| < U32
    ensures g.arena == [] ==> pct == 0.0
    ensures pct == 0.0 <==> |g.arena| <= UsedBytes(g.docOffsets)
    ensures UsedBytes(g.docOffsets) < |g.arena| ==>
              pct * (|g.arena| as real) == 100.0 * ((|g.arena| - UsedBytes(g.docOffsets)) as real)
  {
    if |g.arena| == 0 {
      return 0.0;
    }
    var used := SumLengths(g.docOffsets);
    pct := 100.0 * (Unused(|g.arena|, used) as real) / (|g.arena| as real);
  }

  lemma {:induction false} UsedByBodies(bodies: seq<seq<byte>>, offsets: seq<nat>)
    requires |offsets| == |bodies|
    requires forall i | 0 <= i < |bodies| :: offsets[i] % LEN_LIMIT == |bodies[i]| % LEN_LIMIT
    ensures UsedBytes(offsets) <= |Concat(bodies)|
    ensures UsedBytes(offsets) == |Concat(bodies)| <==>
              forall i | 0 <= i < |bodies| :: |bodies[i]| < LEN_LIMIT
  {
    if bodies != [] {
      var n := |bodies| - 1;
      UsedByBodies(bodies[..n], offsets[..n]);
      assert forall i | 0 <= i < n :: bodies[..n][i] == bodies[i];
      assert |bodies[n]| % LEN_LIMIT <= |bodies[n]|;
      assert |bodies[n]| % LEN_LIMIT == |bodies[n]| <==> |bodies[n]| < LEN_LIMIT;
    }
  }

  /** A generated arena is fully accounted for exactly when no document was cut. */
  lemma GeneratedFragmentation(adjacency: seq<seq<nat>>, bodies: seq<seq<byte>>)
    requires |bodies| == |Concat(adjacency)|
    ensures var g := GraphOf(adjacency, bodies);
            |g.arena| <= UsedBytes(g.docOffsets) <==> forall i | 0 <= i < |bodies| :: |bodies[i]| < 0x10_0000
  {
    UsedByBodies(bodies, GraphOf(adjacency, bodies).docOffsets);
  }
}
