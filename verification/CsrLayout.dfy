/** How a CSR store lies in its memory region: a 64-byte block with the packed header, which
    takes 60 bytes of it, the row pointers and the column indices, all little endian. */
module CsrLayout {
  import opened Bytes
  import opened Sorting
  import opened CsrModel

  const MAGIC: u64 := 0xC5B0_4E58_5553_0001
  const HEADER_BYTES: nat := 64

  // ---- the packed header ----

  datatype Field = Field(offset: nat, width: nat)

  const MAGIC_FIELD := Field(0, 8)
  const NODE_CAPACITY := Field(8, 4)
  const EDGE_CAPACITY := Field(12, 4)
  const NODE_COUNT := Field(16, 4)
  const EDGE_COUNT := Field(20, 4)
  const ROW_PTR_OFFSET := Field(24, 4)
  const COL_IDX_OFFSET := Field(28, 4)
  const BUMP_WATERMARK := Field(32, 4)
  const GENERATION := Field(36, 8)
  const PAD := Field(44, 16)

  /** The header up to its padding, which is never read. */
  const LIVE_BYTES: nat := 44

  predicate Live(f: Field) {
    f.offset + f.width <= LIVE_BYTES
  }

  predicate InHeader(f: Field) {
    f.offset + f.width <= HEADER_BYTES
  }

  predicate Apart(f: Field, g: Field) {
    f.offset + f.width <= g.offset || g.offset + g.width <= f.offset
  }

  function Get(m: seq<byte>, f: Field): (v: nat)
    requires |m| >= HEADER_BYTES && InHeader(f)
    ensures v < Pow256(f.width)
  {
    LeValue(m[f.offset..f.offset + f.width])
  }

  lemma FieldSlices(m: seq<byte>, f: Field, v: nat, g: Field)
    requires |m| >= HEADER_BYTES && InHeader(f) && InHeader(g) && v < Pow256(f.width)
    ensures Get(Splice(m, f.offset, LeBytes(v, f.width)), f) == v
    ensures Apart(f, g) ==> Get(Splice(m, f.offset, LeBytes(v, f.width)), g) == Get(m, g)
  {
    SpliceSlice(m, f.offset, LeBytes(v, f.width), f.offset, f.offset + f.width);
    SpliceSlice(m, f.offset, LeBytes(v, f.width), g.offset, g.offset + g.width);
    LeRoundTrip(v, f.width);
  }

  /** Writing one header field changes that field and no other byte range. */
  lemma FieldWritten(m: seq<byte>, r: seq<byte>, f: Field, v: nat)
    requires |m| >= HEADER_BYTES && InHeader(f) && v < Pow256(f.width)
    requires r == Splice(m, f.offset, LeBytes(v, f.width))
    ensures Get(r, f) == v
    ensures forall g | InHeader(g) && Apart(f, g) :: Get(r, g) == Get(m, g)
    ensures SameOutside(m, r, f.offset, f.offset + f.width)
  {
    SpliceSlice(m, f.offset, LeBytes(v, f.width), f.offset, f.offset);
    FieldSlices(m, f, v, f);
    forall g | InHeader(g) && Apart(f, g) ensures Get(r, g) == Get(m, g) {
      FieldSlices(m, f, v, g);
    }
  }

  method SetField(mem: array<byte>, f: Field, v: nat)
    requires mem.Length >= HEADER_BYTES && InHeader(f) && v < Pow256(f.width)
    modifies mem
    ensures Get(mem[..], f) == v
    ensures forall g | InHeader(g) && Apart(f, g) :: Get(mem[..], g) == Get(old(mem[..]), g)
    ensures SameOutside(old(mem[..]), mem[..], 0, HEADER_BYTES)
    ensures Live(f) ==> SameOutside(old(mem[..]), mem[..], 0, LIVE_BYTES)
  {
    ghost var before := mem[..];
    WriteBytes(mem, f.offset, LeBytes(v, f.width));
    FieldWritten(before, mem[..], f, v);
    Widen(before, mem[..], f.offset, f.offset + f.width, 0, HEADER_BYTES);
    if Live(f) {
      Widen(before, mem[..], f.offset, f.offset + f.width, 0, LIVE_BYTES);
    }
  }

  // ---- arrays of u32 words ----

  function WordAt(m: seq<byte>, base: nat, i: nat): (w: u32)
    requires base + 4 * i + 4 <= |m|
  {
    LeU32(m[base + 4 * i..base + 4 * i + 4])
  }

  function Words(m: seq<byte>, base: nat, n: nat): (ws: seq<u32>)
    requires base + 4 * n <= |m|
    ensures |ws| == n
    ensures forall i | 0 <= i < n :: ws[i] == WordAt(m, base, i)
  {
    seq(n, i requires 0 <= i < n => WordAt(m, base, i))
  }

  predicate AllZero(ws: seq<u32>) {
    forall i | 0 <= i < |ws| :: ws[i] == 0
  }

  lemma WordsPrefix(m: seq<byte>, base: nat, n: nat, k: nat)
    requires base + 4 * n <= |m| && k <= n
    ensures Words(m, base, n)[..k] == Words(m, base, k)
  {
  }

  lemma WordsElsewhere(a: seq<byte>, b: seq<byte>, lo: nat, hi: nat, base: nat, n: nat)
    requires lo <= hi <= |a| && SameOutside(a, b, lo, hi)
    requires base + 4 * n <= |a| && (base + 4 * n <= lo || hi <= base)
    ensures Words(a, base, n) == Words(b, base, n)
  {
    forall i | 0 <= i < n ensures WordAt(a, base, i) == WordAt(b, base, i) {
      SameSlice(a, b, lo, hi, base + 4 * i, base + 4 * i + 4);
    }
  }

  lemma HeaderElsewhere(a: seq<byte>, b: seq<byte>, lo: nat, hi: nat)
    requires |a| >= HEADER_BYTES && LIVE_BYTES <= lo <= hi <= |a| && SameOutside(a, b, lo, hi)
    ensures forall f | Live(f) :: Get(a, f) == Get(b, f)
  {
    forall f | Live(f) ensures Get(a, f) == Get(b, f) {
      SameSlice(a, b, lo, hi, f.offset, f.offset + f.width);
    }
  }

  lemma WordWritten(m: seq<byte>, base: nat, n: nat, i: nat, v: u32)
    requires base + 4 * n <= |m| && i < n
    ensures var r := Splice(m, base + 4 * i, LeBytes(v, 4));
            && Words(r, base, n) == Words(m, base, n)[i := v]
            && SameOutside(m, r, base, base + 4 * n)
  {
    var bs := LeBytes(v, 4);
    var r := Splice(m, base + 4 * i, bs);
    Pow256Values();
    LeRoundTrip(v, 4);
    forall j | 0 <= j < n
      ensures WordAt(r, base, j) == if j == i then v else WordAt(m, base, j)
    {
      SpliceSlice(m, base + 4 * i, bs, base + 4 * j, base + 4 * j + 4);
    }
    SpliceSlice(m, base + 4 * i, bs, 0, base);
    SpliceSlice(m, base + 4 * i, bs, base + 4 * n, |m|);
    assert r[..base] == r[0..base] && m[..base] == m[0..base];
    assert r[base + 4 * n..|m|] == r[base + 4 * n..] && m[base + 4 * n..|m|] == m[base + 4 * n..];
  }

  method SetWord(mem: array<byte>, base: nat, n: nat, i: nat, v: u32)
    requires base + 4 * n <= mem.Length && i < n
    modifies mem
    ensures Words(mem[..], base, n) == Words(old(mem[..]), base, n)[i := v]
    ensures SameOutside(old(mem[..]), mem[..], base, base + 4 * n)
  {
    WordWritten(mem[..], base, n, i, v);
    WriteBytes(mem, base + 4 * i, LeBytes(v, 4));
  }

  // ---- where the arrays go ----

  /** Computed in `usize`, so exact on a 64-bit host. */
  function RequiredBytes(nodeCap: u32, edgeCap: u32): (n: nat) {
    HEADER_BYTES + (nodeCap + 1) * 4 + edgeCap * 4
  }

  function Wrap(x: nat): (w: u32) {
    x % U32
  }

  /** The header's offsets are computed in `u32`. */
  function ColIdxStart(nodeCap: u32): (o: u32) {
    Wrap(HEADER_BYTES + Wrap(Wrap(nodeCap + 1) * 4))
  }

  function Watermark(nodeCap: u32, edgeCap: u32): (o: u32) {
    Wrap(ColIdxStart(nodeCap) + Wrap(edgeCap * 4))
  }

  /** Where the column indices have to start. */
  function ColStart(nodeCap: u32): (o: nat) {
    HEADER_BYTES + 4 * (nodeCap + 1)
  }

  /** The ranges [a, a + m) and [b, b + n) share no byte. */
  predicate Disjoint(a: nat, m: nat, b: nat, n: nat) {
    m == 0 || n == 0 || a + m <= b || b + n <= a
  }

  predicate Covers(start: nat, length: nat, k: nat) {
    start <= k < start + length
  }

  /** Ranges are disjoint when no byte is in both. */
  lemma DisjointMeaning(a: nat, m: nat, b: nat, n: nat)
    ensures Disjoint(a, m, b, n) <==> forall k: nat :: !(Covers(a, m, k) && Covers(b, n, k))
  {
    if !Disjoint(a, m, b, n) {
      var k := if a <= b then b else a;
      assert Covers(a, m, k) && Covers(b, n, k);
    }
  }

  /** Header, row pointers and column indices share no byte, and the arrays lie inside the
      region. */
  predicate ArraysApart(header: nat, nodeCap: u32, edgeCap: u32, rowPtr: nat, colIdx: nat, memLen: nat) {
    && Disjoint(0, header, rowPtr, 4 * (nodeCap + 1)) && rowPtr + 4 * (nodeCap + 1) <= memLen
    && Disjoint(0, header, colIdx, 4 * edgeCap) && colIdx + 4 * edgeCap <= memLen
    && Disjoint(rowPtr, 4 * (nodeCap + 1), colIdx, 4 * edgeCap)
  }

  /** Apart, and word aligned relative to the base. */
  predicate ArraysSafe(header: nat, nodeCap: u32, edgeCap: u32, rowPtr: nat, colIdx: nat, memLen: nat) {
    ArraysApart(header, nodeCap, edgeCap, rowPtr, colIdx, memLen) && rowPtr % 4 == 0 && colIdx % 4 == 0
  }

  /** There are no columns, or their start does not wrap, or it wraps to a place between the
      header and the row pointers with room for all of them. */
  predicate ColumnsPlaced(header: nat, nodeCap: u32, edgeCap: u32) {
    || edgeCap == 0
    || ColStart(nodeCap) < U32
    || (header <= ColIdxStart(nodeCap) && ColIdxStart(nodeCap) + 4 * edgeCap <= HEADER_BYTES)
  }

  lemma WrapFacts(x: nat)
    ensures Wrap(x) <= x
    ensures Wrap(x) == x <==> x < U32
  {
  }

  lemma WrapSum(a: nat, b: nat)
    ensures Wrap(Wrap(a) + Wrap(b)) == Wrap(a + b)
    ensures Wrap(a + Wrap(b)) == Wrap(a + b)
  {
  }

  lemma WrapQuadruple(x: nat)
    ensures Wrap(Wrap(x) * 4) == Wrap(x * 4)
  {
    assert x == Wrap(x) + U32 * (x / U32);
    WrapMore(Wrap(x) * 4, 4 * (x / U32));
  }

  lemma {:induction false} WrapMore(x: nat, k: nat)
    ensures Wrap(x + U32 * k) == Wrap(x)
  {
    if k > 0 {
      WrapMore(x, k - 1);
      assert x + U32 * k == x + U32 * (k - 1) + U32;
    }
  }

  /** The u32 arithmetic loses exactly the multiples of 2^32. */
  lemma WrappedOffsets(nodeCap: u32, edgeCap: u32)
    ensures ColIdxStart(nodeCap) == Wrap(ColStart(nodeCap))
    ensures Watermark(nodeCap, edgeCap) == Wrap(RequiredBytes(nodeCap, edgeCap))
  {
    WrapQuadruple(nodeCap + 1);
    WrapSum(HEADER_BYTES, (nodeCap + 1) * 4);
    WrapSum(ColStart(nodeCap), edgeCap * 4);
  }

  lemma WrapKeepsAlignment(x: nat)
    requires x % 4 == 0
    ensures Wrap(x) % 4 == 0
  {
  }

  /** Where columns that do not start past their due place may start. */
  lemma SafeExactly(header: nat, nodeCap: u32, edgeCap: u32, colIdx: nat, memLen: nat)
    requires header <= HEADER_BYTES && RequiredBytes(nodeCap, edgeCap) <= memLen
    requires colIdx <= ColStart(nodeCap) && (colIdx == ColStart(nodeCap) <==> ColStart(nodeCap) < U32)
    ensures ArraysApart(header, nodeCap, edgeCap, HEADER_BYTES, colIdx, memLen)
       <==> edgeCap == 0 || ColStart(nodeCap) < U32 || (header <= colIdx && colIdx + 4 * edgeCap <= HEADER_BYTES)
  {
  }

  lemma ColumnsStart(nodeCap: u32)
    ensures ColIdxStart(nodeCap) <= ColStart(nodeCap) && ColIdxStart(nodeCap) % 4 == 0
    ensures ColIdxStart(nodeCap) == ColStart(nodeCap) <==> ColStart(nodeCap) < U32
  {
    WrappedOffsets(nodeCap, 0);
    WrapFacts(ColStart(nodeCap));
    WrapKeepsAlignment(ColStart(nodeCap));
  }

  /** The watermark is where the arrays end exactly when that fits 32 bits. */
  lemma WatermarkExactly(nodeCap: u32, edgeCap: u32)
    ensures Watermark(nodeCap, edgeCap) == RequiredBytes(nodeCap, edgeCap) % U32
    ensures Watermark(nodeCap, edgeCap) == RequiredBytes(nodeCap, edgeCap) <==> RequiredBytes(nodeCap, edgeCap) < U32
  {
    WrappedOffsets(nodeCap, edgeCap);
    WrapFacts(RequiredBytes(nodeCap, edgeCap));
  }

  /** The region-size check of `init` does not make the layout safe by itself. For a header
      of any size up to the whole block, the arrays are safe exactly when the columns are
      placed. */
  lemma LayoutSafeExactly(header: nat, nodeCap: u32, edgeCap: u32, memLen: nat)
    requires header <= HEADER_BYTES && RequiredBytes(nodeCap, edgeCap) <= memLen
    ensures ArraysSafe(header, nodeCap, edgeCap, HEADER_BYTES, ColIdxStart(nodeCap), memLen)
       <==> ColumnsPlaced(header, nodeCap, edgeCap)
  {
    ColumnsStart(nodeCap);
    SafeExactly(header, nodeCap, edgeCap, ColIdxStart(nodeCap), memLen);
  }

  /** Sizes that pass the check: one whose only column overlaps the first row pointer, one
      whose only column wraps to the unused end of the header block, and one whose arrays
      are safe although the watermark has wrapped. */
  lemma LayoutWraps()
    ensures RequiredBytes(0x3FFF_FFFF, 1) == 0x1_0000_0044 && ColIdxStart(0x3FFF_FFFF) == HEADER_BYTES
    ensures !ArraysApart(LIVE_BYTES, 0x3FFF_FFFF, 1, HEADER_BYTES, ColIdxStart(0x3FFF_FFFF), 0x1_0000_0044)
    ensures RequiredBytes(0x3FFF_FFFE, 1) == 0x1_0000_0040 && ColIdxStart(0x3FFF_FFFE) == PAD.offset + PAD.width
    ensures ArraysSafe(60, 0x3FFF_FFFE, 1, HEADER_BYTES, ColIdxStart(0x3FFF_FFFE), 0x1_0000_0040)
    ensures RequiredBytes(10, 0x4000_0000) == 0x1_0000_006C && Watermark(10, 0x4000_0000) == 0x6C
    ensures ArraysSafe(60, 10, 0x4000_0000, HEADER_BYTES, ColIdxStart(10), 0x1_0000_006C)
  {
    assert Wrap(11) == 11;
  }

  /** What the overlap does: storing the first target overwrites where node 0's row starts. */
  lemma OverlapCorrupts(m: seq<byte>, target: u32)
    requires RequiredBytes(0x3FFF_FFFF, 1) <= |m|
    ensures WordAt(Splice(m, ColIdxStart(0x3FFF_FFFF), LeBytes(target, 4)), HEADER_BYTES, 0) == target
  {
    LayoutWraps();
    WordWritten(m, HEADER_BYTES, 1, 0, target);
    var r := Splice(m, HEADER_BYTES, LeBytes(target, 4));
    assert Words(r, HEADER_BYTES, 1)[0] == WordAt(r, HEADER_BYTES, 0);
  }

  /** The bytes `m` hold the store `s`, under the header's offsets of columns and watermark. */
  ghost predicate RepresentsAt(m: seq<byte>, s: Store, colIdx: nat, end: nat) {
    && RequiredBytes(s.nodeCap, s.edgeCap) <= |m|
    && s.Valid()
    && HeaderHolds(m, s, colIdx, end)
    && ColumnsApart(m, s)
    && ArraysRepresent(m, s)
  }

  /** The bytes `m` hold the store `s`; the header's offsets are exact modulo 2^32. */
  ghost predicate Represents(m: seq<byte>, s: Store) {
    RepresentsAt(m, s, Wrap(ColStart(s.nodeCap)), Wrap(RequiredBytes(s.nodeCap, s.edgeCap)))
  }

  /** The columns share no byte with the row pointers or with a header field in use. */
  ghost predicate ColumnsApart(m: seq<byte>, s: Store)
    requires |m| >= HEADER_BYTES
  {
    ArraysApart(LIVE_BYTES, s.nodeCap, s.edgeCap, HEADER_BYTES, Get(m, COL_IDX_OFFSET), |m|)
  }

  ghost predicate HeaderHolds(m: seq<byte>, s: Store, colIdx: nat, end: nat)
    requires |m| >= HEADER_BYTES
  {
    && Get(m, MAGIC_FIELD) == MAGIC
    && Get(m, NODE_CAPACITY) == s.nodeCap
    && Get(m, EDGE_CAPACITY) == s.edgeCap
    && Get(m, NODE_COUNT) == NodeCountOf(s.log)
    && Get(m, EDGE_COUNT) == |s.log|
    && Get(m, ROW_PTR_OFFSET) == HEADER_BYTES
    && Get(m, COL_IDX_OFFSET) == colIdx
    && Get(m, BUMP_WATERMARK) == end
    && Get(m, GENERATION) == s.generation
  }

  ghost predicate ArraysRepresent(m: seq<byte>, s: Store)
    requires RequiredBytes(s.nodeCap, s.edgeCap) <= |m|
    requires s.Valid() && ColumnsApart(m, s)
  {
    && Words(m, HEADER_BYTES, s.nodeCap + 1) == RowPtrOf(s.log, s.nodeCap)
    && Words(m, Get(m, COL_IDX_OFFSET), |s.log|) == ColIdxOf(s.log)
  }

  lemma HeaderFields(m: seq<byte>, s: Store, col: nat, end: nat)
    requires |m| >= HEADER_BYTES && HeaderHolds(m, s, col, end)
    ensures LeValue(m[0..8]) == 0xC5B0_4E58_5553_0001
    ensures LeValue(m[8..12]) == s.nodeCap && LeValue(m[12..16]) == s.edgeCap
    ensures LeValue(m[16..20]) == NodeCountOf(s.log) && LeValue(m[20..24]) == |s.log|
    ensures LeValue(m[24..28]) == 64 && LeValue(m[28..32]) == col && LeValue(m[32..36]) == end
    ensures LeValue(m[36..44]) == s.generation
  {
  }

  /** The header of a store, byte by byte. */
  lemma HeaderBytes(m: seq<byte>, s: Store)
    requires Represents(m, s)
    ensures LeValue(m[0..8]) == 0xC5B0_4E58_5553_0001
    ensures LeValue(m[8..12]) == s.nodeCap && LeValue(m[12..16]) == s.edgeCap
    ensures LeValue(m[16..20]) == NodeCountOf(s.log) && LeValue(m[20..24]) == |s.log|
    ensures LeValue(m[24..28]) == 64 && LeValue(m[28..32]) == (64 + 4 * (s.nodeCap + 1)) % 0x1_0000_0000
    ensures LeValue(m[32..36]) == (64 + 4 * (s.nodeCap + 1) + 4 * s.edgeCap) % 0x1_0000_0000
    ensures LeValue(m[36..44]) == s.generation
  {
    HeaderFields(m, s, Wrap(ColStart(s.nodeCap)), Wrap(RequiredBytes(s.nodeCap, s.edgeCap)));
  }

  /** `rows` row pointers and `n` columns starting at `col` that writes can tell apart, and
      that end by `size`. */
  ghost predicate Separable(rows: nat, col: nat, n: nat, size: nat) {
    && LIVE_BYTES <= col && (col + 4 * n <= HEADER_BYTES || HEADER_BYTES + 4 * rows <= col)
    && HEADER_BYTES + 4 * rows <= size && col + 4 * n <= size
  }

  lemma ColumnsSeparable(m: seq<byte>, s: Store)
    requires Represents(m, s) && s.edgeCap > 0
    ensures Separable(s.nodeCap + 1, Wrap(ColStart(s.nodeCap)), s.edgeCap, RequiredBytes(s.nodeCap, s.edgeCap))
  {
    WrapFacts(ColStart(s.nodeCap));
  }

  lemma SeparableApart(rows: nat, col: nat, edgeCap: u32, nodeCap: u32, size: nat, memLen: nat)
    requires rows == nodeCap + 1 && size <= memLen && Separable(rows, col, edgeCap, size)
    ensures ArraysApart(LIVE_BYTES, nodeCap, edgeCap, HEADER_BYTES, col, memLen)
  {
  }
}
