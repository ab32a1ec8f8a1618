/** The control plane's side of the schema protocol: filling a descriptor from a spec and
    writing a test payload in place, against the component's decoder. */
module ControlPlane {
  import opened Bytes
  import opened Sequences
  import opened Schema

  const PAYLOAD_BYTES: nat := 256
  const HEADER: nat := 8

  datatype FieldKind = KindU64 | KindF64 | KindBytes | KindStr | KindOther

  function KindOf(typ: string): (k: FieldKind) {
    if typ == "u64" then KindU64
    else if typ == "f64" then KindF64
    else if typ == "bytes" then KindBytes
    else if typ == "str" then KindStr
    else KindOther
  }

  datatype FieldSpec = FieldSpec(typ: string, offset: u16)
  {
    function Kind(): (k: FieldKind) {
      KindOf(typ)
    }
  }

  datatype SchemaSpec = SchemaSpec(tenantId: u32, version: u64, fields: seq<FieldSpec>)

  // ---- descriptors ----

  /** Unknown type names count as u64. */
  function FieldTypeFromString(s: string): (t: byte) {
    TypeCode(KindOf(s))
  }

  function TypeCode(k: FieldKind): (t: byte) {
    match k
    case KindU64 => 0
    case KindF64 => 1
    case KindBytes => 2
    case KindStr => 3
    case KindOther => 0
  }

  /** The count is cut to 16 bits, the arrays to 64 entries. */
  function DescriptorOf(spec: SchemaSpec): (d: Descriptor)
    ensures d.Valid()
  {
    Descriptor(
      spec.version,
      |spec.fields| % U16,
      seq(MAX_FIELDS, i requires 0 <= i => if i < |spec.fields| then spec.fields[i].offset else 0),
      seq(MAX_FIELDS, i requires 0 <= i => if i < |spec.fields| then FieldTypeFromString(spec.fields[i].typ) else 0))
  }

  /** The type codes by name. */
  lemma TypeCodes(s: string)
    ensures FieldTypeFromString(s) == 1 <==> s == "f64"
    ensures FieldTypeFromString(s) == 2 <==> s == "bytes"
    ensures FieldTypeFromString(s) == 3 <==> s == "str"
    ensures FieldTypeFromString(s) <= 3
  {
    Names(s);
  }

  lemma Names(s: string)
    ensures s == "u64" ==> s != "f64" && s != "bytes" && s != "str"
    ensures s == "f64" ==> s != "bytes" && s != "str"
    ensures s == "bytes" ==> s != "str"
  {
    if s == "u64" {
      assert s[0] == 'u';
    } else if s == "f64" {
      assert s[0] == 'f';
    } else if s == "bytes" {
      assert s[0] == 'b';
    }
  }

  method FillDescriptor(spec: SchemaSpec) returns (d: Descriptor)
    ensures d == DescriptorOf(spec)
    ensures d.version == spec.version && d.fieldCount == |spec.fields| % 0x1_0000
    ensures |d.offsets| == 64 == |d.types|
    ensures forall i | 0 <= i < 64 && i < |spec.fields| ::
              && d.offsets[i] == spec.fields[i].offset && d.types[i] <= 3
              && (d.types[i] == 1 <==> spec.fields[i].typ == "f64")
              && (d.types[i] == 2 <==> spec.fields[i].typ == "bytes")
              && (d.types[i] == 3 <==> spec.fields[i].typ == "str")
    ensures forall i | |spec.fields| <= i < 64 :: d.offsets[i] == 0 == d.types[i]
  {
    var offsets := new nat[MAX_FIELDS](_ => 0);
    var types := new byte[MAX_FIELDS](_ => 0);
    var i := 0;
    while i < |spec.fields| && i < MAX_FIELDS
      invariant 0 <= i <= |spec.fields| && i <= MAX_FIELDS
      invariant offsets[..] == DescriptorOf(spec).offsets[..i] + seq(MAX_FIELDS - i, _ => 0)
      invariant types[..] == DescriptorOf(spec).types[..i] + seq(MAX_FIELDS - i, _ => 0)
    {
      offsets[i] := spec.fields[i].offset;
      types[i] := FieldTypeFromString(spec.fields[i].typ);
      i := i + 1;
    }
    assert offsets[..] == DescriptorOf(spec).offsets;
    assert types[..] == DescriptorOf(spec).types;
    d := Descriptor(spec.version, |spec.fields| % U16, offsets[..], types[..]);
    forall i | 0 <= i < |spec.fields|
      ensures FieldTypeFromString(spec.fields[i].typ) <= 3
      ensures FieldTypeFromString(spec.fields[i].typ) == 1 <==> spec.fields[i].typ == "f64"
      ensures FieldTypeFromString(spec.fields[i].typ) == 2 <==> spec.fields[i].typ == "bytes"
      ensures FieldTypeFromString(spec.fields[i].typ) == 3 <==> spec.fields[i].typ == "str"
    {
      TypeCodes(spec.fields[i].typ);
    }
  }

  /** Once a pushed spec is accepted, and until a newer version is, its frames are decoded
      if and only if its field count, cut to 16 bits, is at most the descriptor's 64;
      otherwise every one of them aborts and leaves the component as it was. Afterwards
      they are mismatches. */
  lemma OversizedSpecTraps(calls: seq<Call>, spec: SchemaSpec, i: nat, k: nat)
    requires AcceptedAt(calls, i) && DecodeDescriptor(calls[i].raw) == DescriptorOf(spec)
    requires i < k < |calls| && calls[k].Process? && calls[k].version == spec.version
    ensures if exists j: nat :: i < j < k && AcceptedAt(calls, j) then Mismatches(Run(calls[..k]), calls[k])
            else
              && Run(calls[..k]).schema == DescriptorOf(spec)
              && (DecodedAt(calls, k) <==> |spec.fields| % U16 <= MAX_FIELDS)
              && (DecodeFrame(DescriptorOf(spec), calls[k].frame).Trapped? <==> |spec.fields| % U16 > MAX_FIELDS)
              && (|spec.fields| % U16 > MAX_FIELDS ==> Run(calls[..k + 1]) == Run(calls[..k]))
  {
    if j: nat :| i < j < k && AcceptedAt(calls, j) {
      AcceptedIncrease(calls, i, j);
      NeverDecodedAgain(calls, j, k);
    } else {
      InForce(calls, i, k);
      RunStep(calls, k);
      MatchingFrame(Run(calls[..k]), calls[k].frame);
    }
  }

  // ---- the payload writer ----

  const U64_SAMPLE: u64 := 0xDEAD_BEEF_CAFE_BABE
  const F64_SAMPLE: u64 := 0x4009_21FB_5444_2D18

  /** The number written for a numeric field. */
  function SampleNumber(k: FieldKind): (v: u64) {
    match k
    case KindU64 => U64_SAMPLE
    case KindF64 => F64_SAMPLE
    case _ => 0
  }

  /** "nexuscore" */
  function Name(): (s: seq<byte>)
    ensures |s| == 9 && forall i | 0 <= i < 9 :: s[i] <= 0x7F
  {
    [110, 101, 120, 117, 115, 99, 111, 114, 101]
  }

  /** What is written for a field, starting at its offset past the header. */
  function Image(k: FieldKind): (bs: seq<byte>) {
    match k
    case KindU64 => BeBytes(SampleNumber(k), 8)
    case KindF64 => BeBytes(SampleNumber(k), 8)
    case KindStr => BeBytes(9, 2) + Name()
    case _ => []
  }

  /** The bytes that must fit, or the write panics; the name itself is cut at the end of
      the buffer. */
  function Required(k: FieldKind): (n: nat)
    ensures n <= |Image(k)|
  {
    if k == KindStr then 2 else |Image(k)|
  }

  predicate Panics(f: FieldSpec) {
    Required(f.Kind()) > 0 && f.offset + HEADER + Required(f.Kind()) > PAYLOAD_BYTES
  }

  function Clipped(f: FieldSpec): (bs: seq<byte>)
    requires !Panics(f)
    ensures Image(f.Kind()) != [] ==> f.offset + HEADER + |bs| <= PAYLOAD_BYTES
  {
    var room := PAYLOAD_BYTES - HEADER - f.offset;
    if |Image(f.Kind())| <= room then Image(f.Kind()) else if room >= 0 then Image(f.Kind())[..room] else []
  }

  function WriteField(buf: seq<byte>, f: FieldSpec): (r: seq<byte>)
    requires |buf| == PAYLOAD_BYTES && !Panics(f)
    ensures |r| == PAYLOAD_BYTES
  {
    if Image(f.Kind()) == [] then buf else Splice(buf, f.offset + HEADER, Clipped(f))
  }

  function Zeros(n: nat): (s: seq<byte>)
    ensures |s| == n
  {
    seq(n, _ => 0)
  }

  function EmptyPayload(tenantId: u32): (buf: seq<byte>)
    ensures |buf| == PAYLOAD_BYTES
  {
    BeBytes(tenantId, 4) + BeBytes(PAYLOAD_BYTES, 2) + Zeros(PAYLOAD_BYTES - 6)
  }

  /** The payload with the fields written in order. */
  function PayloadOf(tenantId: u32, fields: seq<FieldSpec>): (buf: seq<byte>)
    requires forall f | f in fields :: !Panics(f)
    ensures |buf| == PAYLOAD_BYTES
  {
    if fields == [] then EmptyPayload(tenantId)
    else WriteField(PayloadOf(tenantId, fields[..|fields| - 1]), fields[|fields| - 1])
  }

  lemma U64SampleBytes()
    ensures BeBytes(U64_SAMPLE, 8) == [0xDE, 0xAD, 0xBE, 0xEF, 0xCA, 0xFE, 0xBA, 0xBE]
  {
    BeFour(0xDEAD_BEEF, 0xDEAD, 0xBEEF);
    BeFour(0xCAFE_BABE, 0xCAFE, 0xBABE);
    BeEight(U64_SAMPLE, 0xDEAD_BEEF, 0xCAFE_BABE);
  }

  lemma F64SampleBytes()
    ensures BeBytes(F64_SAMPLE, 8) == [0x40, 0x09, 0x21, 0xFB, 0x54, 0x44, 0x2D, 0x18]
  {
    BeFour(0x4009_21FB, 0x4009, 0x21FB);
    BeFour(0x5444_2D18, 0x5444, 0x2D18);
    BeEight(F64_SAMPLE, 0x4009_21FB, 0x5444_2D18);
  }

  lemma WrittenImage(buf: seq<byte>, f: FieldSpec, image: seq<byte>)
    requires |buf| == 256 && !Panics(f) && Image(f.Kind()) == image && image != []
    ensures f.offset <= 248
    ensures if |image| <= 248 - f.offset then WriteField(buf, f) == Splice(buf, f.offset + 8, image)
            else WriteField(buf, f) == Splice(buf, f.offset + 8, image[..248 - f.offset])
  {
  }

  /** The image of each type name; a text is cut at the end of the buffer. */
  lemma WrittenByName(buf: seq<byte>, f: FieldSpec)
    requires |buf| == 256 && !Panics(f)
    ensures f.typ == "u64" ==>
              && f.offset + 16 <= 256
              && WriteField(buf, f) == Splice(buf, f.offset + 8, [0xDE, 0xAD, 0xBE, 0xEF, 0xCA, 0xFE, 0xBA, 0xBE])
    ensures f.typ == "f64" ==>
              && f.offset + 16 <= 256
              && WriteField(buf, f) == Splice(buf, f.offset + 8, [0x40, 0x09, 0x21, 0xFB, 0x54, 0x44, 0x2D, 0x18])
    ensures f.typ == "str" ==>
              var text := [0, 9, 110, 101, 120, 117, 115, 99, 111, 114, 101];
              if f.offset + 19 <= 256 then WriteField(buf, f) == Splice(buf, f.offset + 8, text)
              else f.offset + 10 <= 256 && WriteField(buf, f) == Splice(buf, f.offset + 8, text[..248 - f.offset])
    ensures f.typ != "u64" && f.typ != "f64" && f.typ != "str" ==> WriteField(buf, f) == buf
  {
    Names(f.typ);
    PanicsByName(f);
    if f.typ == "u64" {
      U64SampleBytes();
      WrittenImage(buf, f, [0xDE, 0xAD, 0xBE, 0xEF, 0xCA, 0xFE, 0xBA, 0xBE]);
    } else if f.typ == "f64" {
      F64SampleBytes();
      WrittenImage(buf, f, [0x40, 0x09, 0x21, 0xFB, 0x54, 0x44, 0x2D, 0x18]);
    } else if f.typ == "str" {
      NameImage();
      WrittenImage(buf, f, [0, 9, 110, 101, 120, 117, 115, 99, 111, 114, 101]);
    }
  }

  lemma NameImage()
    ensures Image(KindStr) == [0, 9, 110, 101, 120, 117, 115, 99, 111, 114, 101]
  {
    assert BeBytes(9, 2) == [0, 9];
  }

  /** Which fields do not fit, by name. */
  lemma PanicsByName(f: FieldSpec)
    ensures Panics(f) <==> ((f.typ == "u64" || f.typ == "f64") && f.offset > 240) || (f.typ == "str" && f.offset > 246)
  {
    Names(f.typ);
  }

  lemma EmptyHeader(tenantId: u32)
    ensures var buf := EmptyPayload(tenantId);
            && buf[0] == tenantId / 0x100_0000 && buf[1] == tenantId / 0x1_0000 % 256
            && buf[2] == tenantId / 0x100 % 256 && buf[3] == tenantId % 256
            && buf[4..8] == [1, 0, 0, 0] && forall k | 8 <= k < 256 :: buf[k] == 0
  {
    Pow256Values();
    var b := BeBytes(tenantId, 4);
    BePlace(tenantId, 4, 3);
    BePlace(tenantId, 4, 2);
    BePlace(tenantId, 4, 1);
    BePlace(tenantId, 4, 0);
    assert BeBytes(256, 2) == [1, 0];
  }

  /** No field touches the first eight bytes: the tenant, the length 256, and two zeros. */
  lemma {:induction false} PayloadHeader(tenantId: u32, fields: seq<FieldSpec>)
    requires forall f | f in fields :: !Panics(f)
    ensures var buf := PayloadOf(tenantId, fields);
            && buf[0] == tenantId / 0x100_0000 && buf[1] == tenantId / 0x1_0000 % 256
            && buf[2] == tenantId / 0x100 % 256 && buf[3] == tenantId % 256
            && buf[4..8] == [1, 0, 0, 0]
  {
    if fields == [] {
      EmptyHeader(tenantId);
    } else {
      PayloadHeader(tenantId, fields[..|fields| - 1]);
      HeaderUntouched(PayloadOf(tenantId, fields[..|fields| - 1]), fields[|fields| - 1]);
    }
  }

  lemma HeaderUntouched(buf: seq<byte>, f: FieldSpec)
    requires |buf| == PAYLOAD_BYTES && !Panics(f)
    ensures WriteField(buf, f)[..8] == buf[..8]
    ensures WriteField(buf, f)[4..8] == buf[4..8]
  {
    assert WriteField(buf, f)[4..8] == WriteField(buf, f)[..8][4..];
    assert buf[4..8] == buf[..8][4..];
  }

  method NewPayload(tenantId: u32) returns (buf: array<byte>)
    ensures fresh(buf) && buf[..] == EmptyPayload(tenantId)
  {
    buf := new byte[PAYLOAD_BYTES](_ => 0);
    WriteBytes(buf, 0, BeBytes(tenantId, 4));
    WriteBytes(buf, 4, BeBytes(PAYLOAD_BYTES, 2));
    buf[6], buf[7] := 0, 0;
    assert buf[..] == EmptyPayload(tenantId);
  }

  lemma PayloadStep(tenantId: u32, fields: seq<FieldSpec>, i: nat)
    requires i < |fields| && !Panics(fields[i]) && forall f | f in fields[..i] :: !Panics(f)
    ensures forall f | f in fields[..i + 1] :: !Panics(f)
    ensures PayloadOf(tenantId, fields[..i + 1]) == WriteField(PayloadOf(tenantId, fields[..i]), fields[i])
  {
    assert fields[..i + 1] == fields[..i] + [fields[i]];
    assert fields[..i + 1][..i] == fields[..i];
  }

  method WriteInPlace(buf: array<byte>, f: FieldSpec)
    requires buf.Length == PAYLOAD_BYTES && !Panics(f)
    modifies buf
    ensures buf[..] == WriteField(old(buf[..]), f)
  {
    if Image(f.Kind()) != [] {
      WriteBytes(buf, f.offset + HEADER, Clipped(f));
    }
  }

  /** Writes the fields in place; `None` where the writer panics. */
  method BuildTestPayload(spec: SchemaSpec) returns (r: Option<seq<byte>>)
    ensures r.None? <==> exists f :: f in spec.fields && Panics(f)
    ensures r.None? <==> exists f :: f in spec.fields
                                     && (((f.typ == "u64" || f.typ == "f64") && f.offset > 240)
                                         || (f.typ == "str" && f.offset > 246))
    ensures r.Some? ==> r.value == PayloadOf(spec.tenantId, spec.fields)
  {
    forall f: FieldSpec
      ensures Panics(f) <==>
                ((f.typ == "u64" || f.typ == "f64") && f.offset > 240) || (f.typ == "str" && f.offset > 246)
    {
      PanicsByName(f);
    }
    var buf := NewPayload(spec.tenantId);
    for i := 0 to |spec.fields|
      invariant forall f | f in spec.fields[..i] :: !Panics(f)
      invariant buf[..] == PayloadOf(spec.tenantId, spec.fields[..i])
    {
      var f := spec.fields[i];
      if Panics(f) {
        return None;
      }
      PayloadStep(spec.tenantId, spec.fields, i);
      WriteInPlace(buf, f);
    }
    assert spec.fields[..|spec.fields|] == spec.fields;
    return Some(buf[..]);
  }

  // ---- round trip ----

  /** The bytes a field of this type is decoded from. */
  function Extent(k: FieldKind): (n: nat)
    ensures |Image(k)| <= n
  {
    if k == KindStr then 11 else if k == KindBytes then 2 else 8
  }

  predicate Fits(f: FieldSpec) {
    f.offset + Extent(f.Kind()) <= PAYLOAD_BYTES - HEADER
  }

  predicate Disjoint(f: FieldSpec, g: FieldSpec) {
    f.offset + Extent(f.Kind()) <= g.offset || g.offset + Extent(g.Kind()) <= f.offset
  }

  ghost predicate WellPlaced(fields: seq<FieldSpec>) {
    && (forall i | 0 <= i < |fields| :: Fits(fields[i]))
    && forall i, j | 0 <= i < j < |fields| :: Disjoint(fields[i], fields[j])
  }

  lemma FittingNeverPanics(f: FieldSpec)
    requires Fits(f)
    ensures !Panics(f) && Clipped(f) == Image(f.Kind())
  {
  }

  function Region(buf: seq<byte>, f: FieldSpec): (bs: seq<byte>)
    requires Fits(f) && |buf| == PAYLOAD_BYTES
  {
    buf[f.offset + HEADER..f.offset + HEADER + Extent(f.Kind())]
  }

  function Written(k: FieldKind): (bs: seq<byte>)
    ensures |bs| == Extent(k)
  {
    if Image(k) == [] then Zeros(Extent(k)) else Image(k)
  }

  lemma WriteOwnRegion(buf: seq<byte>, f: FieldSpec)
    requires |buf| == PAYLOAD_BYTES && Fits(f) && Region(buf, f) == Zeros(Extent(f.Kind()))
    ensures !Panics(f) && Region(WriteField(buf, f), f) == Written(f.Kind())
  {
    FittingNeverPanics(f);
    if Image(f.Kind()) != [] {
      SpliceSlice(buf, f.offset + HEADER, Image(f.Kind()), f.offset + HEADER, f.offset + HEADER + Extent(f.Kind()));
    }
  }

  lemma WriteOtherRegion(buf: seq<byte>, f: FieldSpec, g: FieldSpec)
    requires |buf| == PAYLOAD_BYTES && Fits(f) && Fits(g) && Disjoint(f, g)
    ensures !Panics(f) && Region(WriteField(buf, f), g) == Region(buf, g)
  {
    FittingNeverPanics(f);
    if Image(f.Kind()) != [] {
      SpliceSlice(buf, f.offset + HEADER, Image(f.Kind()), g.offset + HEADER, g.offset + HEADER + Extent(g.Kind()));
    }
  }

  lemma FittingFields(fields: seq<FieldSpec>, n: nat)
    requires WellPlaced(fields) && n <= |fields|
    ensures forall f | f in fields[..n] :: !Panics(f)
  {
    forall f | f in fields[..n] ensures !Panics(f) {
      FittingNeverPanics(f);
    }
  }

  /** What region `i` holds once the first `n` fields are written. */
  function RegionContent(fields: seq<FieldSpec>, n: nat, i: nat): (bs: seq<byte>)
    requires i < |fields|
  {
    if i < n then Written(fields[i].Kind()) else Zeros(Extent(fields[i].Kind()))
  }

  lemma RegionStep(fields: seq<FieldSpec>, n: nat, i: nat, buf: seq<byte>)
    requires WellPlaced(fields) && n < |fields| && i < |fields| && |buf| == PAYLOAD_BYTES
    requires Region(buf, fields[i]) == RegionContent(fields, n, i)
    ensures !Panics(fields[n])
    ensures Region(WriteField(buf, fields[n]), fields[i]) == RegionContent(fields, n + 1, i)
  {
    if i == n {
      WriteOwnRegion(buf, fields[i]);
    } else {
      WriteOtherRegion(buf, fields[n], fields[i]);
    }
  }

  /** In-place writes to disjoint extents do not disturb one another: after `n` writes each
      earlier field's region holds its image, each later one is still zero. */
  lemma {:induction false} RegionAfter(tenantId: u32, fields: seq<FieldSpec>, n: nat, i: nat)
    requires WellPlaced(fields) && n <= |fields| && i < |fields|
    ensures forall f | f in fields[..n] :: !Panics(f)
    ensures Region(PayloadOf(tenantId, fields[..n]), fields[i]) == RegionContent(fields, n, i)
    decreases n
  {
    FittingFields(fields, n);
    if n == 0 {
      EmptyRegion(tenantId, fields[i]);
    } else {
      RegionAfter(tenantId, fields, n - 1, i);
      RegionStep(fields, n - 1, i, PayloadOf(tenantId, fields[..n - 1]));
      PayloadStep(tenantId, fields, n - 1);
    }
  }

  lemma EmptyRegion(tenantId: u32, f: FieldSpec)
    requires Fits(f)
    ensures Region(EmptyPayload(tenantId), f) == Zeros(Extent(f.Kind()))
  {
  }

  function Expected(k: FieldKind): (v: FieldValue) {
    match k
    case KindU64 => U64Val(SampleNumber(k))
    case KindF64 => F64Val(SampleNumber(k))
    case KindBytes => BytesVal([])
    case KindStr => StrVal(Name())
    case KindOther => U64Val(0)
  }

  function ExpectedValues(fields: seq<FieldSpec>): (vs: seq<FieldValue>) {
    seq(|fields|, i requires 0 <= i < |fields| => Expected(fields[i].Kind()))
  }

  lemma {:induction false} ZeroValue(n: nat)
    ensures BeValue(Zeros(n)) == 0
  {
    if n > 0 {
      assert Zeros(n)[..n - 1] == Zeros(n - 1);
      ZeroValue(n - 1);
    }
  }

  lemma DecodeNumber(k: FieldKind)
    requires k != KindStr && k != KindBytes
    ensures BeValue(Written(k)) == SampleNumber(k)
  {
    Pow256Values();
    BeRoundTrip(SampleNumber(k), 8);
    ZeroValue(8);
  }

  lemma NameSlices(frame: seq<byte>, offset: nat)
    requires offset + 11 <= |frame| && frame[offset..offset + 11] == BeBytes(9, 2) + Name()
    ensures frame[offset..offset + 2] == BeBytes(9, 2)
    ensures frame[offset + 2..offset + 11] == Name()
  {
    var region := frame[offset..offset + 11];
    assert frame[offset..offset + 2] == region[..2];
    assert frame[offset + 2..offset + 11] == region[2..];
  }

  lemma DecodeName(frame: seq<byte>, offset: nat)
    requires offset + 11 <= |frame| && frame[offset..offset + 11] == Written(KindStr)
    ensures FieldAt(3, offset, frame) == StrVal(Name())
  {
    Pow256Values();
    BeRoundTrip(9, 2);
    NameSlices(frame, offset);
    assert Prefixed(frame, offset) == BytesVal(Name());
    AsciiIsValid(Name());
  }

  lemma DecodeEmptyBytes(frame: seq<byte>, offset: nat)
    requires offset + 2 <= |frame| && frame[offset..offset + 2] == Written(KindBytes)
    ensures FieldAt(2, offset, frame) == BytesVal([])
  {
    ZeroValue(2);
  }

  lemma DecodeRegion(k: FieldKind, frame: seq<byte>, offset: nat)
    requires offset + Extent(k) <= |frame| && frame[offset..offset + Extent(k)] == Written(k)
    ensures FieldAt(TypeCode(k), offset, frame) == Expected(k)
  {
    match k
    case KindStr => DecodeName(frame, offset);
    case KindBytes => DecodeEmptyBytes(frame, offset);
    case _ => DecodeNumber(k);
  }

  function FrameOf(spec: SchemaSpec): (frame: seq<byte>)
    requires forall f | f in spec.fields :: !Panics(f)
  {
    PayloadOf(spec.tenantId, spec.fields)[HEADER..]
  }

  lemma RegionDecodes(buf: seq<byte>, f: FieldSpec)
    requires |buf| == PAYLOAD_BYTES && Fits(f) && Region(buf, f) == Written(f.Kind())
    ensures FieldAt(TypeCode(f.Kind()), f.offset, buf[HEADER..]) == Expected(f.Kind())
  {
    assert buf[HEADER..][f.offset..f.offset + Extent(f.Kind())] == Region(buf, f);
    DecodeRegion(f.Kind(), buf[HEADER..], f.offset);
  }

  lemma FieldDecodes(spec: SchemaSpec, i: nat)
    requires i < |spec.fields| <= MAX_FIELDS && WellPlaced(spec.fields)
    requires forall f | f in spec.fields :: !Panics(f)
    ensures FieldAt(DescriptorOf(spec).types[i], DescriptorOf(spec).offsets[i], FrameOf(spec))
         == ExpectedValues(spec.fields)[i]
  {
    assert spec.fields[..|spec.fields|] == spec.fields;
    RegionAfter(spec.tenantId, spec.fields, |spec.fields|, i);
    RegionDecodes(PayloadOf(spec.tenantId, spec.fields), spec.fields[i]);
  }

  /** The first `n` fields under `d` decode to `values`. */
  ghost predicate DecodesTo(d: Descriptor, frame: seq<byte>, values: seq<FieldValue>, n: nat)
    requires d.Valid() && n <= |values| && n <= MAX_FIELDS
  {
    forall i | 0 <= i < n :: FieldAt(d.types[i], d.offsets[i], frame) == values[i]
  }

  lemma DecodesOneMore(d: Descriptor, frame: seq<byte>, values: seq<FieldValue>, n: nat)
    requires d.Valid() && n < |values| && n < MAX_FIELDS && DecodesTo(d, frame, values, n)
    requires FieldAt(d.types[n], d.offsets[n], frame) == values[n]
    ensures DecodesTo(d, frame, values, n + 1)
  {
  }

  lemma DecodedPointwise(d: Descriptor, frame: seq<byte>, values: seq<FieldValue>, n: nat)
    requires d.Valid() && n == d.fieldCount == |values| && n <= MAX_FIELDS && DecodesTo(d, frame, values, n)
    ensures DecodeFrame(d, frame) == Fields(values)
  {
  }

  lemma DecodesNext(spec: SchemaSpec, n: nat)
    requires n < |spec.fields| <= MAX_FIELDS && WellPlaced(spec.fields)
    requires forall f | f in spec.fields :: !Panics(f)
    requires DecodesTo(DescriptorOf(spec), FrameOf(spec), ExpectedValues(spec.fields), n)
    ensures DecodesTo(DescriptorOf(spec), FrameOf(spec), ExpectedValues(spec.fields), n + 1)
  {
    FieldDecodes(spec, n);
    DecodesOneMore(DescriptorOf(spec), FrameOf(spec), ExpectedValues(spec.fields), n);
  }

  lemma {:induction false} DecodesUpTo(spec: SchemaSpec, n: nat)
    requires n <= |spec.fields| <= MAX_FIELDS && WellPlaced(spec.fields)
    requires forall f | f in spec.fields :: !Panics(f)
    ensures DecodesTo(DescriptorOf(spec), FrameOf(spec), ExpectedValues(spec.fields), n)
  {
    if n > 0 {
      DecodesUpTo(spec, n - 1);
      DecodesNext(spec, n - 1);
    }
  }

  lemma SpecShape(spec: SchemaSpec)
    requires |spec.fields| <= MAX_FIELDS
    ensures DescriptorOf(spec).fieldCount == |spec.fields| == |ExpectedValues(spec.fields)|
  {
  }

  lemma DecodesAll(spec: SchemaSpec)
    requires |spec.fields| <= MAX_FIELDS && WellPlaced(spec.fields)
    requires forall f | f in spec.fields :: !Panics(f)
    ensures DecodeFrame(DescriptorOf(spec), FrameOf(spec)) == Fields(ExpectedValues(spec.fields))
  {
    DecodesUpTo(spec, |spec.fields|);
    SpecShape(spec);
    DecodedPointwise(DescriptorOf(spec), FrameOf(spec), ExpectedValues(spec.fields), |spec.fields|);
  }

  /** What is read back for each type name. */
  lemma ExpectedByName(typ: string)
    ensures typ == "u64" ==> Expected(KindOf(typ)) == U64Val(0xDEAD_BEEF_CAFE_BABE)
    ensures typ == "f64" ==> Expected(KindOf(typ)) == F64Val(0x4009_21FB_5444_2D18)
    ensures typ == "str" ==> Expected(KindOf(typ)).StrVal? && Spells(Expected(KindOf(typ)).s, "nexuscore")
    ensures typ == "bytes" ==> Expected(KindOf(typ)) == BytesVal([])
    ensures typ != "u64" && typ != "f64" && typ != "str" && typ != "bytes" ==> Expected(KindOf(typ)) == U64Val(0)
  {
    Names(typ);
  }

  /** The ASCII bytes of a string. */
  ghost predicate Spells(bs: seq<byte>, text: string) {
    |bs| == |text| && forall i | 0 <= i < |bs| :: bs[i] == text[i] as int
  }

  /** Field by field and name by name, what a pushed schema decodes from its payload. */
  lemma DecodedByName(spec: SchemaSpec, i: nat)
    requires |spec.fields| <= 64 && WellPlaced(spec.fields) && i < |spec.fields|
    ensures forall f | f in spec.fields :: !Panics(f)
    ensures var (decoded, typ) := (DecodeFrame(DescriptorOf(spec), FrameOf(spec)), spec.fields[i].typ);
            && decoded.Fields? && |decoded.values| == |spec.fields|
            && (typ == "u64" ==> decoded.values[i] == U64Val(0xDEAD_BEEF_CAFE_BABE))
            && (typ == "f64" ==> decoded.values[i] == F64Val(0x4009_21FB_5444_2D18))
            && (typ == "str" ==> decoded.values[i].StrVal? && Spells(decoded.values[i].s, "nexuscore"))
            && (typ == "bytes" ==> decoded.values[i] == BytesVal([]))
            && (typ != "u64" && typ != "f64" && typ != "str" && typ != "bytes" ==> decoded.values[i] == U64Val(0))
  {
    PayloadRoundTrip(spec);
    ExpectedByName(spec.fields[i].typ);
  }

  /** How many bytes a field is decoded from, by name. */
  function ExtentOf(typ: string): (n: nat) {
    if typ == "str" then 11 else if typ == "bytes" then 2 else 8
  }

  /** Well placed, by name: every extent lies within the 248 bytes past the header, and no two
      overlap. */
  lemma WellPlacedByName(fields: seq<FieldSpec>)
    ensures WellPlaced(fields) <==>
              && (forall i | 0 <= i < |fields| :: fields[i].offset + ExtentOf(fields[i].typ) <= 248)
              && forall i, j | 0 <= i < j < |fields| ::
                   || fields[i].offset + ExtentOf(fields[i].typ) <= fields[j].offset
                   || fields[j].offset + ExtentOf(fields[j].typ) <= fields[i].offset
  {
    forall i | 0 <= i < |fields| ensures Extent(fields[i].Kind()) == ExtentOf(fields[i].typ) {
      Names(fields[i].typ);
    }
  }

  lemma DecodesFewer(spec: SchemaSpec, frame: seq<byte>, values: seq<FieldValue>)
    requires |spec.fields| == |values| > MAX_FIELDS
    ensures DecodeFrame(DescriptorOf(spec), frame) != Fields(values)
  {
  }

  /** Decoding the payload past its header under the spec's own descriptor gives back, in
      order, exactly what was written, if and only if there are at most 64 fields. */
  lemma PayloadRoundTrip(spec: SchemaSpec)
    requires WellPlaced(spec.fields)
    ensures forall f | f in spec.fields :: !Panics(f)
    ensures DecodeFrame(DescriptorOf(spec), FrameOf(spec)) == Fields(ExpectedValues(spec.fields))
       <==> |spec.fields| <= MAX_FIELDS
  {
    AllFit(spec);
    if |spec.fields| <= MAX_FIELDS {
      DecodesAll(spec);
    } else {
      DecodesFewer(spec, FrameOf(spec), ExpectedValues(spec.fields));
    }
  }

  /** More than 64 fields can be well placed: bytes fields take two bytes each. */
  lemma CrowdedSpec() returns (fields: seq<FieldSpec>)
    ensures |fields| > MAX_FIELDS && WellPlaced(fields)
  {
    fields := seq(MAX_FIELDS + 1, i requires 0 <= i <= MAX_FIELDS => FieldSpec("bytes", 2 * i));
    forall i | 0 <= i < |fields| ensures fields[i].Kind() == KindBytes {
      ShortName(fields[i].typ);
    }
  }

  lemma ShortName(typ: string)
    requires typ == "bytes"
    ensures KindOf(typ) == KindBytes
  {
    assert typ[0] == 'b';
  }

  lemma AllFit(spec: SchemaSpec)
    requires WellPlaced(spec.fields)
    ensures forall f | f in spec.fields :: !Panics(f)
  {
    assert spec.fields[..|spec.fields|] == spec.fields;
    FittingFields(spec.fields, |spec.fields|);
  }

  /** The whole protocol: a component that receives the pushed descriptor of a newer
      version accepts it and then decodes the spec's payload to the written values. */
  lemma PushThenDecode(c: Component, spec: SchemaSpec)
    requires c.schema.version < spec.version
    requires |spec.fields| <= MAX_FIELDS && WellPlaced(spec.fields)
    ensures forall f | f in spec.fields :: !Panics(f)
    ensures var raw := EncodeDescriptor(DescriptorOf(spec));
            var pushed := Next(c, Apply(raw));
            && Accepts(c, Apply(raw))
            && pushed.schema == DescriptorOf(spec)
            && Decodes(pushed, Process(FrameOf(spec), spec.version))
            && DecodeFrame(pushed.schema, FrameOf(spec)) == Fields(ExpectedValues(spec.fields))
  {
    DescriptorRoundTrip(DescriptorOf(spec), []);
    assert EncodeDescriptor(DescriptorOf(spec)) + [] == EncodeDescriptor(DescriptorOf(spec));
    PayloadRoundTrip(spec);
  }
}
