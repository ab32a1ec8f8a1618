/** The tenant component: a schema slot that only moves to higher versions, and a frame
    decoder driven by it. */
module Schema {
  import opened Bytes
  import opened Sequences

  const MAX_FIELDS: nat := 64
  const DESCRIPTOR_BYTES: nat := 202

  // ---- descriptors ----

  datatype Descriptor = Descriptor(version: u64, fieldCount: u16, offsets: seq<nat>, types: seq<byte>)
  {
    ghost predicate Valid() {
      |offsets| == |types| == MAX_FIELDS && forall i | 0 <= i < MAX_FIELDS :: offsets[i] < U16
    }
  }

  function InitialSchema(): (d: Descriptor)
    ensures d.Valid() && d.version == 0
  {
    Descriptor(0, 0, seq(MAX_FIELDS, _ => 0), seq(MAX_FIELDS, _ => 0))
  }

  function EncodeDescriptor(d: Descriptor): (raw: seq<byte>) {
    LeBytes(d.version, 8) + LeBytes(d.fieldCount, 2) + EncodeAll(d.offsets, 2) + d.types
  }

  /** The packed layout; bytes past it are ignored. */
  function DecodeDescriptor(raw: seq<byte>): (d: Descriptor)
    requires |raw| >= DESCRIPTOR_BYTES
  {
    Descriptor(LeU64(raw[0..8]), LeU16(raw[8..10]), DecodeAll(raw[10..138], 2), raw[138..202])
  }

  lemma DecodedIsValid(raw: seq<byte>)
    requires |raw| >= DESCRIPTOR_BYTES
    ensures DecodeDescriptor(raw).Valid()
  {
    Pow256Values();
    EncodeDecodeAll(raw[10..138], 2, MAX_FIELDS);
  }

  lemma DescriptorRoundTrip(d: Descriptor, rest: seq<byte>)
    requires d.Valid()
    ensures |EncodeDescriptor(d)| == DESCRIPTOR_BYTES
    ensures DecodeDescriptor(EncodeDescriptor(d) + rest) == d
  {
    Pow256Values();
    var raw := EncodeDescriptor(d) + rest;
    LeRoundTrip(d.version, 8);
    LeRoundTrip(d.fieldCount, 2);
    DecodeEncodeAll(d.offsets, 2);
    assert raw[0..8] == LeBytes(d.version, 8);
    assert raw[8..10] == LeBytes(d.fieldCount, 2);
    assert raw[10..138] == EncodeAll(d.offsets, 2);
    assert raw[138..202] == d.types;
  }

  /** A descriptor keeps every byte of the packed layout. */
  lemma DescriptorImage(raw: seq<byte>)
    requires |raw| >= DESCRIPTOR_BYTES
    ensures EncodeDescriptor(DecodeDescriptor(raw)) == raw[..DESCRIPTOR_BYTES]
  {
    LeImage(raw[0..8]);
    LeImage(raw[8..10]);
    EncodeDecodeAll(raw[10..138], 2, MAX_FIELDS);
    assert raw[..DESCRIPTOR_BYTES] == raw[0..8] + raw[8..10] + raw[10..138] + raw[138..202];
  }

  /** The packed layout, byte by byte. */
  lemma DescriptorBytes(raw: seq<byte>, i: nat)
    requires |raw| >= 202 && i < 64
    ensures var d := DecodeDescriptor(raw);
            && d.version == LeU64(raw[0..8]) && d.fieldCount == raw[8] as int + 0x100 * (raw[9] as int)
            && |d.offsets| == 64 == |d.types|
            && d.offsets[i] == raw[10 + 2 * i] as int + 0x100 * (raw[11 + 2 * i] as int)
            && d.types[i] == raw[138 + i]
  {
    TwoBytes(raw[8..10]);
    TwoBytes(raw[10 + 2 * i..10 + 2 * i + 2]);
    DecodeAllAt(raw[10..138], 2, 64, i);
    SliceOfSlice(raw, 10, 138, 2 * i, 2 * i + 2);
  }

  // ---- frames ----

  datatype FieldValue = U64Val(v: u64) | F64Val(bits: u64) | BytesVal(b: seq<byte>) | StrVal(s: seq<byte>) | Unknown

  predicate Tail(b: byte) {
    0x80 <= b <= 0xBF
  }

  /** Well-formed UTF-8, section 4 of RFC 3629. */
  predicate Utf8Valid(s: seq<byte>) {
    if s == [] then true
    else if s[0] <= 0x7F then Utf8Valid(s[1..])
    else if 0xC2 <= s[0] <= 0xDF then |s| >= 2 && Tail(s[1]) && Utf8Valid(s[2..])
    else if 0xE0 <= s[0] <= 0xEF then
      && |s| >= 3 && Tail(s[1]) && Tail(s[2])
      && (s[0] == 0xE0 ==> s[1] >= 0xA0) && (s[0] == 0xED ==> s[1] <= 0x9F)
      && Utf8Valid(s[3..])
    else if 0xF0 <= s[0] <= 0xF4 then
      && |s| >= 4 && Tail(s[1]) && Tail(s[2]) && Tail(s[3])
      && (s[0] == 0xF0 ==> s[1] >= 0x90) && (s[0] == 0xF4 ==> s[1] <= 0x8F)
      && Utf8Valid(s[4..])
    else false
  }

  /** A Unicode scalar value. */
  predicate Scalar(c: nat) {
    c < 0xD800 || 0xE000 <= c < 0x11_0000
  }

  /** Its UTF-8 encoding. */
  function EncodeScalar(c: nat): (bs: seq<byte>)
    requires Scalar(c)
  {
    if c < 0x80 then [c]
    else if c < 0x800 then [0xC0 + c / 64, 0x80 + c % 64]
    else if c < 0x1_0000 then [0xE0 + c / 4096, 0x80 + c / 64 % 64, 0x80 + c % 64]
    else [0xF0 + c / 0x4_0000, 0x80 + c / 4096 % 64, 0x80 + c / 64 % 64, 0x80 + c % 64]
  }

  function EncodeText(cs: seq<nat>): (bs: seq<byte>)
    requires forall c | c in cs :: Scalar(c)
  {
    if cs == [] then [] else EncodeScalar(cs[0]) + EncodeText(cs[1..])
  }

  ghost predicate IsText(s: seq<byte>) {
    exists cs: seq<nat> :: (forall c | c in cs :: Scalar(c)) && EncodeText(cs) == s
  }

  lemma FirstScalarValid(c: nat, rest: seq<byte>)
    requires Scalar(c)
    ensures Utf8Valid(EncodeScalar(c) + rest) <==> Utf8Valid(rest)
  {
    var (bs, s) := (EncodeScalar(c), EncodeScalar(c) + rest);
    assert s[|bs|..] == rest;
  }

  lemma {:induction false} TextIsValid(cs: seq<nat>)
    requires forall c | c in cs :: Scalar(c)
    ensures Utf8Valid(EncodeText(cs))
  {
    if cs != [] {
      TextIsValid(cs[1..]);
      FirstScalarValid(cs[0], EncodeText(cs[1..]));
    }
  }

  /** The first scalar value of a non-empty well-formed sequence. */
  lemma FirstScalar(s: seq<byte>) returns (c: nat, n: nat)
    requires s != [] && Utf8Valid(s)
    ensures Scalar(c) && 1 <= n <= |s| && s[..n] == EncodeScalar(c) && Utf8Valid(s[n..])
  {
    if s[0] <= 0x7F {
      c, n := s[0], 1;
    } else if s[0] <= 0xDF {
      c, n := TwoByteScalar(s[0], s[1]), 2;
      TwoByteMeaning(s[0], s[1]);
    } else if s[0] <= 0xEF {
      c, n := ThreeByteScalar(s[0], s[1], s[2]), 3;
      ThreeByteMeaning(s[0], s[1], s[2]);
    } else {
      c, n := FourByteScalar(s[0], s[1], s[2], s[3]), 4;
      FourByteMeaning(s[0], s[1], s[2], s[3]);
    }
  }

  function TwoByteScalar(a: byte, b: byte): (c: int) {
    (a as int - 0xC0) * 64 + (b as int - 0x80)
  }

  function ThreeByteScalar(a: byte, b: byte, d: byte): (c: int) {
    (a as int - 0xE0) * 4096 + (b as int - 0x80) * 64 + (d as int - 0x80)
  }

  function FourByteScalar(a: byte, b: byte, d: byte, e: byte): (c: int) {
    (a as int - 0xF0) * 0x4_0000 + (b as int - 0x80) * 4096 + (d as int - 0x80) * 64 + (e as int - 0x80)
  }

  lemma TwoByteMeaning(a: byte, b: byte)
    requires 0xC2 <= a <= 0xDF && Tail(b)
    ensures 0x80 <= TwoByteScalar(a, b) < 0x800 && EncodeScalar(TwoByteScalar(a, b)) == [a, b]
  {
  }

  lemma ThreeByteMeaning(a: byte, b: byte, d: byte)
    requires 0xE0 <= a <= 0xEF && Tail(b) && Tail(d) && (a == 0xE0 ==> b >= 0xA0) && (a == 0xED ==> b <= 0x9F)
    ensures 0x800 <= ThreeByteScalar(a, b, d) < 0x1_0000 && Scalar(ThreeByteScalar(a, b, d))
    ensures EncodeScalar(ThreeByteScalar(a, b, d)) == [a, b, d]
  {
    var x: nat, y: nat, z: nat := a - 0xE0, b - 0x80, d - 0x80;
    LastDigit(64 * x + y, z);
    LastDigit(x, y);
    Nested(ThreeByteScalar(a, b, d));
  }

  lemma FourByteEncoding(x: nat, y: nat, z: nat, w: nat, c: nat, bs: seq<byte>)
    requires x < 8 && y < 64 && z < 64 && w < 64 && c == x * 0x4_0000 + y * 4096 + z * 64 + w
    requires 0x1_0000 <= c < 0x11_0000 && bs == [0xF0 + x, 0x80 + y, 0x80 + z, 0x80 + w]
    ensures EncodeScalar(c) == bs
  {
    FourDigits(x, y, z, w, c);
  }

  lemma FourByteMeaning(a: byte, b: byte, d: byte, e: byte)
    requires 0xF0 <= a <= 0xF4 && Tail(b) && Tail(d) && Tail(e)
    requires (a == 0xF0 ==> b >= 0x90) && (a == 0xF4 ==> b <= 0x8F)
    ensures 0x1_0000 <= FourByteScalar(a, b, d, e) < 0x11_0000
    ensures EncodeScalar(FourByteScalar(a, b, d, e)) == [a, b, d, e]
  {
    FourByteRange(a - 0xF0, b - 0x80, d - 0x80, e - 0x80, FourByteScalar(a, b, d, e));
    FourByteEncoding(a - 0xF0, b - 0x80, d - 0x80, e - 0x80, FourByteScalar(a, b, d, e), [a, b, d, e]);
  }

  lemma FourByteRange(x: nat, y: nat, z: nat, w: nat, c: int)
    requires x <= 4 && y < 64 && z < 64 && w < 64 && (x == 0 ==> y >= 16) && (x == 4 ==> y <= 15)
    requires c == x * 0x4_0000 + y * 4096 + z * 64 + w
    ensures 0x1_0000 <= c < 0x11_0000
  {
  }

  lemma LastDigit(p: nat, w: nat)
    requires w < 64
    ensures (64 * p + w) / 64 == p && (64 * p + w) % 64 == w
  {
  }

  lemma FourDigits(x: nat, y: nat, z: nat, w: nat, c: nat)
    requires y < 64 && z < 64 && w < 64 && c == x * 0x4_0000 + y * 4096 + z * 64 + w
    ensures c / 0x4_0000 == x && c / 4096 % 64 == y && c / 64 % 64 == z && c % 64 == w
  {
    LastDigit(64 * (64 * x + y) + z, w);
    LastDigit(64 * x + y, z);
    LastDigit(x, y);
    Nested(c);
  }

  lemma Nested(c: nat)
    ensures c / 4096 == c / 64 / 64 && c / 0x4_0000 == c / 64 / 64 / 64
  {
  }

  lemma {:induction false} ValidIsText(s: seq<byte>) returns (cs: seq<nat>)
    requires Utf8Valid(s)
    ensures (forall c | c in cs :: Scalar(c)) && EncodeText(cs) == s
    decreases |s|
  {
    if s == [] {
      cs := [];
    } else {
      var c, n := FirstScalar(s);
      var rest := ValidIsText(s[n..]);
      cs := [c] + rest;
      assert cs[1..] == rest && s == s[..n] + s[n..];
    }
  }

  /** The decoder's texts are exactly the encodings of sequences of scalar values. */
  lemma Utf8Exactly(s: seq<byte>)
    ensures Utf8Valid(s) <==> IsText(s)
  {
    if Utf8Valid(s) {
      var cs := ValidIsText(s);
    }
    forall cs: seq<nat> | (forall c | c in cs :: Scalar(c)) && EncodeText(cs) == s ensures Utf8Valid(s) {
      TextIsValid(cs);
    }
  }

  lemma {:induction false} AsciiIsValid(s: seq<byte>)
    requires forall i | 0 <= i < |s| :: s[i] <= 0x7F
    ensures Utf8Valid(s)
  {
    if s != [] {
      AsciiIsValid(s[1..]);
    }
  }

  /** The length-prefixed bytes at `offset`, if they lie inside the frame. */
  function Prefixed(frame: seq<byte>, offset: nat): (r: FieldValue)
    requires offset + 2 <= |frame|
  {
    var end := offset + 2 + BeU16(frame[offset..offset + 2]);
    if end <= |frame| then BytesVal(frame[offset + 2..end]) else Unknown
  }

  function FieldAt(ftype: byte, offset: nat, frame: seq<byte>): (r: FieldValue) {
    if ftype == 0 && offset + 8 <= |frame| then U64Val(BeU64(frame[offset..offset + 8]))
    else if ftype == 1 && offset + 8 <= |frame| then F64Val(BeU64(frame[offset..offset + 8]))
    else if ftype == 2 && offset + 2 <= |frame| then Prefixed(frame, offset)
    else if ftype == 3 && offset + 2 <= |frame| then
      match Prefixed(frame, offset) {
        case BytesVal(b) => if Utf8Valid(b) then StrVal(b) else Unknown
        case _ => Unknown
      }
    else Unknown
  }

  // ---- what a decoded field says about the frame ----

  function TypeOf(v: FieldValue): (t: byte)
    requires !v.Unknown?
  {
    match v
    case U64Val(_) => 0
    case F64Val(_) => 1
    case BytesVal(_) => 2
    case StrVal(_) => 3
  }

  ghost predicate Representable(v: FieldValue) {
    match v
    case BytesVal(b) => |b| < U16
    case StrVal(s) => |s| < U16 && Utf8Valid(s)
    case Unknown => false
    case _ => true
  }

  /** The wire form of a value. */
  function EncodeField(v: FieldValue): (bs: seq<byte>)
    requires !v.Unknown?
  {
    match v
    case U64Val(n) => BeBytes(n, 8)
    case F64Val(n) => BeBytes(n, 8)
    case BytesVal(b) => BeBytes(|b|, 2) + b
    case StrVal(s) => BeBytes(|s|, 2) + s
  }

  ghost predicate LiesAt(bs: seq<byte>, frame: seq<byte>, offset: nat) {
    offset + |bs| <= |frame| && frame[offset..offset + |bs|] == bs
  }

  lemma NumberLiesAt(frame: seq<byte>, offset: nat, n: u64)
    ensures LiesAt(BeBytes(n, 8), frame, offset)
       <==> offset + 8 <= |frame| && BeU64(frame[offset..offset + 8]) == n
  {
    Pow256Values();
    BeRoundTrip(n, 8);
    if offset + 8 <= |frame| {
      BeImage(frame[offset..offset + 8]);
    }
  }

  lemma PrefixedSlices(frame: seq<byte>, offset: nat, head: seq<byte>, b: seq<byte>)
    requires |head| == 2
    ensures LiesAt(head + b, frame, offset)
       <==> && offset + 2 + |b| <= |frame|
            && frame[offset..offset + 2] == head
            && frame[offset + 2..offset + 2 + |b|] == b
  {
    if offset + 2 + |b| <= |frame| {
      var whole := frame[offset..offset + 2 + |b|];
      assert whole[..2] == frame[offset..offset + 2];
      assert whole[2..] == frame[offset + 2..offset + 2 + |b|];
      assert whole == whole[..2] + whole[2..];
    }
  }

  lemma PrefixedReads(frame: seq<byte>, offset: nat, b: seq<byte>)
    requires offset + 2 <= |frame|
    ensures Prefixed(frame, offset) == BytesVal(b)
       <==> && offset + 2 + |b| <= |frame|
            && BeU16(frame[offset..offset + 2]) == |b|
            && frame[offset + 2..offset + 2 + |b|] == b
  {
  }

  /** Two bytes read as the length `n` exactly when they are its big-endian image. */
  lemma LengthBytes(two: seq<byte>, n: nat)
    requires |two| == 2 && n < U16
    ensures BeU16(two) == n <==> two == BeBytes(n, 2)
  {
    Pow256Values();
    BeRoundTrip(n, 2);
    BeImage(two);
  }

  lemma PrefixedLiesAt(frame: seq<byte>, offset: nat, b: seq<byte>)
    ensures |b| < U16 && LiesAt(BeBytes(|b|, 2) + b, frame, offset)
       <==> offset + 2 <= |frame| && Prefixed(frame, offset) == BytesVal(b)
  {
    PrefixedSlices(frame, offset, BeBytes(|b|, 2), b);
    if offset + 2 <= |frame| {
      PrefixedReads(frame, offset, b);
      if |b| < U16 {
        LengthBytes(frame[offset..offset + 2], |b|);
      }
    }
  }

  /** A field decodes to a known value exactly when the value's wire form, of the field's
      own type, lies at the field's offset inside the frame. */
  lemma DecodesExactly(ftype: byte, offset: nat, frame: seq<byte>, v: FieldValue)
    requires !v.Unknown?
    ensures FieldAt(ftype, offset, frame) == v
       <==> TypeOf(v) == ftype && Representable(v) && LiesAt(EncodeField(v), frame, offset)
  {
    match v
    case U64Val(n) => NumberLiesAt(frame, offset, n);
    case F64Val(n) => NumberLiesAt(frame, offset, n);
    case BytesVal(b) => PrefixedLiesAt(frame, offset, b);
    case StrVal(s) => PrefixedLiesAt(frame, offset, s);
  }

  /** A field count above 64 indexes past the descriptor's arrays, which aborts. */
  datatype Decoded = Trapped | Fields(values: seq<FieldValue>)

  function DecodeFrame(d: Descriptor, frame: seq<byte>): (r: Decoded)
    requires d.Valid()
    ensures r.Trapped? <==> d.fieldCount > MAX_FIELDS
    ensures r.Fields? ==> |r.values| == d.fieldCount
  {
    if d.fieldCount > MAX_FIELDS then Trapped
    else Fields(seq(d.fieldCount, i requires 0 <= i < d.fieldCount => FieldAt(d.types[i], d.offsets[i], frame)))
  }

  // ---- the component ----

  datatype UpdateResult = Ok | StaleUpdate | InvalidDescriptor

  datatype Component = Component(schema: Descriptor, processed: u64, errors: u64, updates: u64)

  function InitialComponent(): (c: Component) {
    Component(InitialSchema(), 0, 0, 0)
  }

  datatype Call = Apply(raw: seq<byte>) | Process(frame: seq<byte>, version: u64)

  predicate IsDescriptor(raw: seq<byte>) {
    |raw| >= DESCRIPTOR_BYTES
  }

  function Newer(schema: Descriptor, raw: seq<byte>): (d: Descriptor) {
    if IsDescriptor(raw) && DecodeDescriptor(raw).version > schema.version
    then DecodeDescriptor(raw)
    else schema
  }

  predicate Accepts(c: Component, call: Call) {
    call.Apply? && IsDescriptor(call.raw) && DecodeDescriptor(call.raw).version > c.schema.version
  }

  predicate Decodes(c: Component, call: Call) {
    call.Process? && call.version == c.schema.version && c.schema.fieldCount <= MAX_FIELDS
  }

  predicate Mismatches(c: Component, call: Call) {
    call.Process? && call.version != c.schema.version
  }

  lemma InitialFrames(frame: seq<byte>)
    ensures InitialSchema().version == 0 && DecodeFrame(InitialSchema(), frame) == Fields([])
  {
  }

  /** The 64-bit counters wrap. */
  function Next(c: Component, call: Call): (r: Component) {
    Component(
      if call.Apply? then Newer(c.schema, call.raw) else c.schema,
      (c.processed + if Decodes(c, call) then 1 else 0) % U64,
      (c.errors + if Mismatches(c, call) then 1 else 0) % U64,
      (c.updates + if Accepts(c, call) then 1 else 0) % U64)
  }

  class TenantComponent {
    var schema: Descriptor
    var processed: u64
    var errors: u64
    var updates: u64

    ghost predicate Valid()
      reads this
    {
      schema.Valid()
    }

    ghost function View(): Component
      reads this
    {
      Component(schema, processed, errors, updates)
    }

    constructor ()
      ensures Valid() && View() == InitialComponent()
    {
      schema, processed, errors, updates := InitialSchema(), 0, 0, 0;
    }

    method ApplySchemaUpdate(raw: seq<byte>) returns (r: UpdateResult)
      requires Valid()
      modifies this
      ensures Valid() && View() == Next(old(View()), Apply(raw))
      ensures r == Ok <==> Accepts(old(View()), Apply(raw))
      ensures r == InvalidDescriptor <==> |raw| < 202
      ensures r == StaleUpdate <==> |raw| >= 202 && LeU64(raw[0..8]) <= old(schema.version)
      ensures r == Ok <==> |raw| >= 202 && LeU64(raw[0..8]) > old(schema.version)
    {
      if |raw| < DESCRIPTOR_BYTES {
        return InvalidDescriptor;
      }
      DecodedIsValid(raw);
      var newSchema := DecodeDescriptor(raw);
      if newSchema.version <= schema.version {
        return StaleUpdate;
      }
      schema := newSchema;
      updates := (updates + 1) % U64;
      return Ok;
    }

    /** A frame of another version is an error and yields nothing. */
    method ProcessFrame(frame: seq<byte>, version: u64) returns (r: Decoded)
      requires Valid()
      modifies this
      ensures Valid() && View() == Next(old(View()), Process(frame, version))
      ensures r == if version == schema.version then DecodeFrame(schema, frame) else Fields([])
    {
      if version != schema.version {
        errors := (errors + 1) % U64;
        return Fields([]);
      }
      var fields: seq<FieldValue> := [];
      for i := 0 to schema.fieldCount
        invariant unchanged(this) && |fields| == i <= MAX_FIELDS
        invariant forall k | 0 <= k < i :: fields[k] == FieldAt(schema.types[k], schema.offsets[k], frame)
      {
        if i >= MAX_FIELDS {
          return Trapped;
        }
        fields := fields + [FieldAt(schema.types[i], schema.offsets[i], frame)];
      }
      processed := (processed + 1) % U64;
      return Fields(fields);
    }
  }

  /** A newer descriptor is installed whatever bytes follow it. */
  lemma NewerInstalled(c: Component, d: Descriptor, rest: seq<byte>)
    requires d.Valid() && d.version > c.schema.version
    ensures var raw := EncodeDescriptor(d) + rest;
            && |raw| == 202 + |rest| && Accepts(c, Apply(raw)) && Next(c, Apply(raw)).schema == d
            && Next(c, Apply(raw)).updates == (c.updates + 1) % 0x1_0000_0000_0000_0000
  {
    DescriptorRoundTrip(d, rest);
  }

  // ---- convergence ----

  function Deliver(schema: Descriptor, raws: seq<seq<byte>>): (d: Descriptor) {
    if raws == [] then schema else Newer(Deliver(schema, raws[..|raws| - 1]), raws[|raws| - 1])
  }

  /** After any deliveries the schema is the starting one or a delivered descriptor, and
      nothing delivered has a higher version. */
  lemma {:induction false} DeliverMeaning(schema: Descriptor, raws: seq<seq<byte>>)
    ensures var d := Deliver(schema, raws);
            && d.version >= schema.version
            && (d == schema || (d.version > schema.version
                                && exists raw :: raw in raws && IsDescriptor(raw) && d == DecodeDescriptor(raw)))
            && forall raw | raw in raws && IsDescriptor(raw) :: DecodeDescriptor(raw).version <= d.version
  {
    if raws != [] {
      DeliverMeaning(schema, raws[..|raws| - 1]);
      assert raws == raws[..|raws| - 1] + [raws[|raws| - 1]];
    }
  }

  /** No two delivered descriptors share a version and differ. */
  ghost predicate VersionsDetermine(raws: seq<seq<byte>>) {
    forall a, b | a in raws && b in raws && IsDescriptor(a) && IsDescriptor(b)
                  && DecodeDescriptor(a).version == DecodeDescriptor(b).version ::
      DecodeDescriptor(a) == DecodeDescriptor(b)
  }

  /** `raw` is a delivered descriptor newer than the schema, of the highest version delivered. */
  ghost predicate Tops(schema: Descriptor, raws: seq<seq<byte>>, raw: seq<byte>) {
    && raw in raws && IsDescriptor(raw) && DecodeDescriptor(raw).version > schema.version
    && forall other | other in raws && IsDescriptor(other) ::
         DecodeDescriptor(other).version <= DecodeDescriptor(raw).version
  }

  /** The delivered descriptors of the highest version, if it is news, are one and the same. */
  ghost predicate TopAgrees(schema: Descriptor, raws: seq<seq<byte>>) {
    forall a, b | Tops(schema, raws, a) && Tops(schema, raws, b) :: DecodeDescriptor(a) == DecodeDescriptor(b)
  }

  ghost predicate SameDeliveries(left: seq<seq<byte>>, right: seq<seq<byte>>) {
    forall raw :: raw in left <==> raw in right
  }

  ghost predicate Reordered(left: seq<seq<byte>>, right: seq<seq<byte>>) {
    multiset(left) == multiset(right)
  }

  lemma TopDelivered(schema: Descriptor, raws: seq<seq<byte>>)
    ensures Deliver(schema, raws) == schema
            || exists raw :: Tops(schema, raws, raw) && DecodeDescriptor(raw) == Deliver(schema, raws)
  {
    DeliverMeaning(schema, raws);
    var d := Deliver(schema, raws);
    if d != schema {
      var raw :| raw in raws && IsDescriptor(raw) && d == DecodeDescriptor(raw);
      assert Tops(schema, raws, raw);
    }
  }

  /** Where the newest deliveries agree, order and repetition do not matter. */
  lemma TopAgreementConverges(schema: Descriptor, left: seq<seq<byte>>, right: seq<seq<byte>>)
    requires TopAgrees(schema, left) && SameDeliveries(left, right)
    ensures Deliver(schema, left) == Deliver(schema, right)
  {
    DeliverMeaning(schema, left);
    DeliverMeaning(schema, right);
    TopDelivered(schema, left);
    TopDelivered(schema, right);
    assert forall raw :: Tops(schema, left, raw) <==> Tops(schema, right, raw);
  }

  /** A descriptor nothing later is newer than stays once it is taken. */
  lemma {:induction false} FirstTopStays(schema: Descriptor, a: seq<byte>, rest: seq<seq<byte>>)
    requires Tops(schema, [a] + rest, a)
    ensures Deliver(schema, [a] + rest) == DecodeDescriptor(a)
  {
    var raws := [a] + rest;
    if rest == [] {
      assert raws == [a] && raws[..0] == [];
    } else {
      var (before, last) := (rest[..|rest| - 1], rest[|rest| - 1]);
      assert raws[..|raws| - 1] == [a] + before && raws[|raws| - 1] == last;
      assert last in raws;
      FirstTopStays(schema, a, before);
    }
  }

  lemma TopFirst(schema: Descriptor, raws: seq<seq<byte>>, a: seq<byte>) returns (right: seq<seq<byte>>)
    requires Tops(schema, raws, a)
    ensures Reordered(raws, right) && Deliver(schema, right) == DecodeDescriptor(a)
  {
    var i :| 0 <= i < |raws| && raws[i] == a;
    var rest := raws[..i] + raws[i + 1..];
    right := [a] + rest;
    assert raws == raws[..i] + [a] + raws[i + 1..];
    assert forall raw :: raw in right <==> raw in raws;
    FirstTopStays(schema, a, rest);
  }

  /** Every reordering of the deliveries ends in the same schema, and so does every sequence
      of the same deliveries repeated at will, exactly when the newest of them agree. */
  lemma ConvergesExactly(schema: Descriptor, raws: seq<seq<byte>>)
    ensures TopAgrees(schema, raws)
       <==> forall right | Reordered(raws, right) :: Deliver(schema, right) == Deliver(schema, raws)
    ensures TopAgrees(schema, raws)
       <==> forall right | SameDeliveries(raws, right) :: Deliver(schema, right) == Deliver(schema, raws)
  {
    forall right | Reordered(raws, right) ensures SameDeliveries(raws, right) {
      SameMembers(raws, right);
    }
    if TopAgrees(schema, raws) {
      forall right | SameDeliveries(raws, right) ensures Deliver(schema, right) == Deliver(schema, raws) {
        TopAgreementConverges(schema, raws, right);
      }
    } else {
      var a, b :| Tops(schema, raws, a) && Tops(schema, raws, b) && DecodeDescriptor(a) != DecodeDescriptor(b);
      var left := TopFirst(schema, raws, a);
      var right := TopFirst(schema, raws, b);
      assert Reordered(raws, left) && Reordered(raws, right);
    }
  }

  /** If versions determine descriptors, order and repetition of deliveries never matter. */
  lemma Convergence(schema: Descriptor, left: seq<seq<byte>>, right: seq<seq<byte>>)
    requires VersionsDetermine(left) && SameDeliveries(left, right)
    ensures Deliver(schema, left) == Deliver(schema, right)
  {
    TopAgreementConverges(schema, left, right);
  }

  lemma DeliverTwo(schema: Descriptor, a: seq<byte>, b: seq<byte>)
    requires IsDescriptor(a) && IsDescriptor(b)
    requires DecodeDescriptor(a).version == DecodeDescriptor(b).version > schema.version
    ensures Deliver(schema, [a, b]) == DecodeDescriptor(a)
  {
    assert [a, b] == [a] + [b];
    FirstTopStays(schema, a, [b]);
  }

  /** Where two descriptors share a version and differ, the first to arrive stays. */
  lemma OrderMatters(schema: Descriptor, a: seq<byte>, b: seq<byte>)
    requires IsDescriptor(a) && IsDescriptor(b)
    requires DecodeDescriptor(a).version == DecodeDescriptor(b).version > schema.version
    ensures Deliver(schema, [a, b]) == DecodeDescriptor(a)
    ensures Deliver(schema, [b, a]) == DecodeDescriptor(b)
  {
    DeliverTwo(schema, a, b);
    DeliverTwo(schema, b, a);
  }

  ghost predicate Conflict(schema: Descriptor, a: seq<byte>, b: seq<byte>) {
    && IsDescriptor(a) && IsDescriptor(b) && DecodeDescriptor(a) != DecodeDescriptor(b)
    && DecodeDescriptor(a).version == DecodeDescriptor(b).version > schema.version
  }

  lemma NewerSettles(schema: Descriptor, raws: seq<seq<byte>>, newer: seq<byte>)
    requires newer in raws && IsDescriptor(newer)
    requires forall raw | raw in raws && IsDescriptor(raw) && raw != newer ::
               DecodeDescriptor(raw).version < DecodeDescriptor(newer).version
    ensures TopAgrees(schema, raws)
  {
    forall a | Tops(schema, raws, a) ensures a == newer {
    }
  }

  /** Conflicting deliveries end differently in their two orders, and alike in every order
      once a newer descriptor is among them. */
  lemma ConflictResolved(schema: Descriptor, a: seq<byte>, b: seq<byte>, newer: seq<byte>)
    requires Conflict(schema, a, b)
    requires IsDescriptor(newer) && DecodeDescriptor(newer).version > DecodeDescriptor(a).version
    ensures Deliver(schema, [a, b]) != Deliver(schema, [b, a])
    ensures TopAgrees(schema, [a, b, newer])
  {
    OrderMatters(schema, a, b);
    assert [a, b, newer][2] == newer;
    NewerSettles(schema, [a, b, newer], newer);
  }

  function Sparse(version: u64, fieldCount: u16): (raw: seq<byte>) {
    EncodeDescriptor(InitialSchema().(version := version, fieldCount := fieldCount))
  }

  lemma SparseDecodes(version: u64, fieldCount: u16)
    ensures IsDescriptor(Sparse(version, fieldCount))
    ensures DecodeDescriptor(Sparse(version, fieldCount))
         == InitialSchema().(version := version, fieldCount := fieldCount)
  {
    DescriptorRoundTrip(InitialSchema().(version := version, fieldCount := fieldCount), []);
    assert Sparse(version, fieldCount) + [] == Sparse(version, fieldCount);
  }

  /** Two descriptors of version 1 that no initial component reconciles. */
  lemma ConflictExists() returns (a: seq<byte>, b: seq<byte>)
    ensures Conflict(InitialSchema(), a, b)
  {
    a, b := Sparse(1, 0), Sparse(1, 1);
    SparseDecodes(1, 0);
    SparseDecodes(1, 1);
  }

  // ---- whole runs ----

  ghost function Run(calls: seq<Call>): (c: Component) {
    if calls == [] then InitialComponent() else Next(Run(calls[..|calls| - 1]), calls[|calls| - 1])
  }

  ghost predicate AcceptedAt(calls: seq<Call>, i: nat) {
    i < |calls| && Accepts(Run(calls[..i]), calls[i])
  }

  ghost predicate DecodedAt(calls: seq<Call>, i: nat) {
    i < |calls| && Decodes(Run(calls[..i]), calls[i])
  }

  lemma RunStep(calls: seq<Call>, i: nat)
    requires i < |calls|
    ensures Run(calls[..i + 1]) == Next(Run(calls[..i]), calls[i])
  {
    assert calls[..i + 1][..i] == calls[..i];
  }

  lemma {:induction false} VersionsGrow(calls: seq<Call>, i: nat, j: nat)
    requires i <= j <= |calls|
    ensures Run(calls[..i]).schema.version <= Run(calls[..j]).schema.version
    decreases j
  {
    if i < j {
      RunStep(calls, j - 1);
      VersionsGrow(calls, i, j - 1);
    }
  }

  /** Accepted versions strictly increase over every run. */
  lemma AcceptedIncrease(calls: seq<Call>, i: nat, j: nat)
    requires AcceptedAt(calls, i) && AcceptedAt(calls, j) && i < j
    ensures DecodeDescriptor(calls[i].raw).version < DecodeDescriptor(calls[j].raw).version
  {
    RunStep(calls, i);
    VersionsGrow(calls, i + 1, j);
  }

  /** The schema changes only where an update is accepted. */
  lemma SchemaStep(calls: seq<Call>, k: nat)
    requires k < |calls|
    ensures AcceptedAt(calls, k) ==>
              Run(calls[..k + 1]).schema == DecodeDescriptor(calls[k].raw) && Run(calls[..k + 1]).schema.version > 0
    ensures !AcceptedAt(calls, k) ==> Run(calls[..k + 1]).schema == Run(calls[..k]).schema
  {
    RunStep(calls, k);
  }

  lemma {:induction false} SchemaStays(calls: seq<Call>, i: nat, k: nat)
    requires i <= k <= |calls| && forall j: nat | i <= j < k :: !AcceptedAt(calls, j)
    ensures Run(calls[..k]).schema == Run(calls[..i]).schema
    decreases k
  {
    if i < k {
      SchemaStays(calls, i, k - 1);
      SchemaStep(calls, k - 1);
    }
  }

  /** An accepted descriptor is in force until the next one is accepted. */
  lemma InForce(calls: seq<Call>, i: nat, k: nat)
    requires AcceptedAt(calls, i) && i < k <= |calls|
    requires forall j: nat | i < j < k :: !AcceptedAt(calls, j)
    ensures Run(calls[..k]).schema == DecodeDescriptor(calls[i].raw)
  {
    SchemaStep(calls, i);
    SchemaStays(calls, i + 1, k);
  }

  /** A frame of the component's version is decoded unless the descriptor claims more than
      64 fields; then it aborts and leaves the component as it was. */
  lemma MatchingFrame(c: Component, frame: seq<byte>)
    requires c.schema.Valid()
    ensures Decodes(c, Process(frame, c.schema.version)) <==> c.schema.fieldCount <= 64
    ensures DecodeFrame(c.schema, frame).Trapped? <==> c.schema.fieldCount > 64
    ensures c.schema.fieldCount > 64 ==> Next(c, Process(frame, c.schema.version)) == c
  {
  }

  /** The schema in force was put there by an accepted update, or is still the initial one. */
  lemma {:induction false} SchemaOrigin(calls: seq<Call>, n: nat)
    requires n <= |calls|
    ensures var d := Run(calls[..n]).schema;
            if d.version == 0 then d == InitialSchema()
            else exists i: nat :: i < n && AcceptedAt(calls, i) && DecodeDescriptor(calls[i].raw) == d
  {
    if n > 0 {
      SchemaOrigin(calls, n - 1);
      SchemaStep(calls, n - 1);
    }
  }

  /** A version-v frame is decoded by the one accepted version-v descriptor (the initial
      one for version 0) and by nothing else. */
  lemma DecodedByItsVersion(calls: seq<Call>, k: nat)
    requires DecodedAt(calls, k)
    ensures calls[k].version == 0 ==> Run(calls[..k]).schema == InitialSchema()
    ensures calls[k].version > 0 ==>
              exists i: nat :: i < k && AcceptedAt(calls, i) && DecodeDescriptor(calls[i].raw) == Run(calls[..k]).schema
    ensures forall i: nat | AcceptedAt(calls, i) && DecodeDescriptor(calls[i].raw).version == calls[k].version ::
              i < k && DecodeDescriptor(calls[i].raw) == Run(calls[..k]).schema
  {
    SchemaOrigin(calls, k);
    forall i: nat | AcceptedAt(calls, i) && DecodeDescriptor(calls[i].raw).version == calls[k].version
      ensures i < k && DecodeDescriptor(calls[i].raw) == Run(calls[..k]).schema
    {
      if k <= i {
        VersionsGrow(calls, k, i);
      } else {
        RunStep(calls, i);
        VersionsGrow(calls, i + 1, k);
        var j: nat :| j < k && AcceptedAt(calls, j) && DecodeDescriptor(calls[j].raw) == Run(calls[..k]).schema;
        if i < j {
          AcceptedIncrease(calls, i, j);
        } else if j < i {
          AcceptedIncrease(calls, j, i);
        }
      }
    }
  }

  /** Once a higher version has been accepted, older frames are never decoded again. */
  lemma NeverDecodedAgain(calls: seq<Call>, i: nat, k: nat)
    requires AcceptedAt(calls, i) && i < k < |calls| && calls[k].Process?
    requires calls[k].version < DecodeDescriptor(calls[i].raw).version
    ensures !DecodedAt(calls, k)
    ensures Mismatches(Run(calls[..k]), calls[k])
  {
    RunStep(calls, i);
    VersionsGrow(calls, i + 1, k);
  }

  lemma FrameStep(c: Component, frame: seq<byte>, version: u64)
    ensures Mismatches(c, Process(frame, version)) <==> version != c.schema.version
    ensures version != c.schema.version ==> Next(c, Process(frame, version)) == c.(errors := (c.errors + 1) % U64)
    ensures version == c.schema.version ==> Next(c, Process(frame, version)).errors == c.errors
    ensures Next(c, Process(frame, version)).schema == c.schema
  {
  }

  /** In every run a frame is a mismatch, and counts as an error, exactly when its version is
      not the one in force, be it lower or higher. */
  lemma MismatchExactly(calls: seq<Call>, k: nat)
    requires k < |calls| && calls[k].Process?
    ensures Mismatches(Run(calls[..k]), calls[k]) <==> calls[k].version != Run(calls[..k]).schema.version
    ensures Run(calls[..k + 1]).errors
         == if calls[k].version != Run(calls[..k]).schema.version then (Run(calls[..k]).errors + 1) % U64
            else Run(calls[..k]).errors
  {
    RunStep(calls, k);
    FrameStep(Run(calls[..k]), calls[k].frame, calls[k].version);
  }

  datatype CallKind = Decoding | Mismatching | Accepting

  ghost predicate IsOf(c: Component, call: Call, kind: CallKind) {
    match kind
    case Decoding => Decodes(c, call)
    case Mismatching => Mismatches(c, call)
    case Accepting => Accepts(c, call)
  }

  /** The calls of the run that were of the given kind. */
  ghost function Tally(calls: seq<Call>, kind: CallKind): nat {
    if calls == [] then 0 else
      var before := calls[..|calls| - 1];
      Tally(before, kind) + if IsOf(Run(before), calls[|calls| - 1], kind) then 1 else 0
  }

  lemma CountStep(c: Component, call: Call, kind: CallKind, n: nat)
    requires Counter(c, kind) == n % U64
    ensures Counter(Next(c, call), kind) == (n + if IsOf(c, call, kind) then 1 else 0) % U64
  {
    WrapAdd(n, if IsOf(c, call, kind) then 1 else 0);
  }

  function Counter(c: Component, kind: CallKind): (n: u64) {
    match kind
    case Decoding => c.processed
    case Mismatching => c.errors
    case Accepting => c.updates
  }

  /** The three counters count decoded frames, version mismatches and accepted updates. */
  lemma {:induction false} StatsCount(calls: seq<Call>, kind: CallKind)
    ensures Counter(Run(calls), kind) == Tally(calls, kind) % U64
  {
    if calls != [] {
      var before := calls[..|calls| - 1];
      StatsCount(before, kind);
      CountStep(Run(before), calls[|calls| - 1], kind, Tally(before, kind));
    }
  }
}
