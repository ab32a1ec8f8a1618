/** Machine integers and their byte images: the little-endian and big-endian codecs
    that every binary format of the platform is built from. */
module Bytes {

  const U16: nat := 0x1_0000
  const U32: nat := 0x1_0000_0000
  const U64: nat := 0x1_0000_0000_0000_0000

  type byte = x: int | 0 <= x < 0x100
  type u8 = byte
  type u16 = x: int | 0 <= x < 0x1_0000
  type u32 = x: int | 0 <= x < 0x1_0000_0000
  type u64 = x: int | 0 <= x < 0x1_0000_0000_0000_0000

  /** Wrapping now or later is the same. */
  lemma WrapAdd(a: nat, b: nat)
    ensures (a % U64 + b) % U64 == (a + b) % U64
    ensures (a % U64 + b % U64) % U64 == (a + b) % U64
  {
  }

  function Pow256(n: nat): (p: nat)
    ensures p >= 1
  {
    if n == 0 then 1 else 256 * Pow256(n - 1)
  }

  lemma Pow256Values()
    ensures Pow256(1) == 0x100 && Pow256(2) == U16 && Pow256(4) == U32 && Pow256(8) == U64
  {
    assert Pow256(3) == 0x1_000000;
    assert Pow256(6) == 256 * Pow256(5);
  }

  // ---- little endian ----

  /** The low `n` bytes of `v`, least significant first. */
  function LeBytes(v: nat, n: nat): (s: seq<byte>)
    ensures |s| == n
  {
    if n == 0 then [] else [v % 256] + LeBytes(v / 256, n - 1)
  }

  function LeValue(s: seq<byte>): (v: nat)
    ensures v < Pow256(|s|)
  {
    if s == [] then 0 else s[0] + 256 * LeValue(s[1..])
  }

  lemma {:induction false} LeRoundTrip(v: nat, n: nat)
    requires v < Pow256(n)
    ensures LeValue(LeBytes(v, n)) == v
  {
    if n > 0 {
      LeRoundTrip(v / 256, n - 1);
      assert LeBytes(v, n)[1..] == LeBytes(v / 256, n - 1);
    }
  }

  lemma {:induction false} LeImage(s: seq<byte>)
    ensures LeBytes(LeValue(s), |s|) == s
  {
    if s != [] {
      LeImage(s[1..]);
      assert (s[0] + 256 * LeValue(s[1..])) / 256 == LeValue(s[1..]);
    }
  }

  lemma Multiples(d: nat, a: nat, b: nat)
    requires a < b
    ensures d * a + d <= d * b
  {
    assert d * a + d == d * (a + 1);
  }

  lemma QuotientUnique(v: nat, d: nat, q: nat)
    requires d > 0 && d * q <= v < d * q + d
    ensures v / d == q
  {
    var p := v / d;
    assert d * p <= v < d * p + d;
    if p < q {
      Multiples(d, p, q);
    } else if q < p {
      Multiples(d, q, p);
    }
  }

  lemma DivideTwice(v: nat, p: nat)
    requires p > 0
    ensures v / 256 / p == v / (256 * p)
  {
    var q := v / 256 / p;
    assert p * q <= v / 256 < p * q + p;
    assert 256 * (p * q) == 256 * p * q;
    QuotientUnique(v, 256 * p, q);
  }

  /** Byte `i` has place value 256^i. */
  lemma {:induction false} LePlace(v: nat, n: nat, i: nat)
    requires i < n
    ensures LeBytes(v, n)[i] == v / Pow256(i) % 256
  {
    if i > 0 {
      LePlace(v / 256, n - 1, i - 1);
      DivideTwice(v, Pow256(i - 1));
    }
  }

  lemma TwoBytes(s: seq<byte>)
    requires |s| == 2
    ensures LeValue(s) == s[0] as int + 0x100 * (s[1] as int)
  {
    assert s[1..][1..] == [];
    assert LeValue(s[1..]) == s[1];
  }

  lemma FourBytes(s: seq<byte>)
    requires |s| == 4
    ensures LeValue(s) == s[0] as int + 0x100 * (s[1] as int) + 0x1_0000 * (s[2] as int) + 0x100_0000 * (s[3] as int)
  {
    assert s[1..][1..] == s[2..4];
    assert LeValue(s[1..]) == s[1] + 256 * LeValue(s[2..4]);
    TwoBytes(s[2..4]);
  }

  function LeU16(s: seq<byte>): (v: u16)
    requires |s| == 2
  {
    Pow256Values(); LeValue(s)
  }

  function LeU32(s: seq<byte>): (v: u32)
    requires |s| == 4
  {
    Pow256Values(); LeValue(s)
  }

  function LeU64(s: seq<byte>): (v: u64)
    requires |s| == 8
  {
    Pow256Values(); LeValue(s)
  }

  // ---- big endian ----

  function BeBytes(v: nat, n: nat): (s: seq<byte>)
    ensures |s| == n
  {
    if n == 0 then [] else BeBytes(v / 256, n - 1) + [v % 256]
  }

  function BeValue(s: seq<byte>): (v: nat)
    ensures v < Pow256(|s|)
  {
    if s == [] then 0 else s[|s| - 1] + 256 * BeValue(s[..|s| - 1])
  }

  lemma {:induction false} BeRoundTrip(v: nat, n: nat)
    requires v < Pow256(n)
    ensures BeValue(BeBytes(v, n)) == v
  {
    if n > 0 {
      BeRoundTrip(v / 256, n - 1);
      assert BeBytes(v, n)[..n - 1] == BeBytes(v / 256, n - 1);
    }
  }

  lemma {:induction false} BeImage(s: seq<byte>)
    ensures BeBytes(BeValue(s), |s|) == s
  {
    if s != [] {
      BeImage(s[..|s| - 1]);
      assert (s[|s| - 1] + 256 * BeValue(s[..|s| - 1])) / 256 == BeValue(s[..|s| - 1]);
    }
  }

  lemma LastByte(q: nat, lo: nat)
    ensures (256 * q + lo) / 256 == q + lo / 256 && (256 * q + lo) % 256 == lo % 256
  {
  }

  lemma TakeOut256(hi: nat, p: nat)
    ensures hi * (256 * p) == 256 * (hi * p)
  {
  }

  lemma {:induction false} BeConcat(hi: nat, lo: nat, m: nat, n: nat, v: nat)
    requires lo < Pow256(n) && v == hi * Pow256(n) + lo
    ensures BeBytes(v, m + n) == BeBytes(hi, m) + BeBytes(lo, n)
  {
    if n > 0 {
      TakeOut256(hi, Pow256(n - 1));
      LastByte(hi * Pow256(n - 1), lo);
      BeConcat(hi, lo / 256, m, n - 1, v / 256);
    }
  }

  lemma BeFour(v: nat, hi: nat, lo: nat)
    requires hi < U16 && lo < U16 && v == 0x1_0000 * hi + lo
    ensures BeBytes(v, 4) == [hi / 256, hi % 256, lo / 256, lo % 256]
  {
    Pow256Values();
    BeConcat(hi, lo, 2, 2, v);
  }

  lemma BeEight(v: nat, hi: nat, lo: nat)
    requires lo < U32 && v == 0x1_0000_0000 * hi + lo
    ensures BeBytes(v, 8) == BeBytes(hi, 4) + BeBytes(lo, 4)
  {
    Pow256Values();
    BeConcat(hi, lo, 4, 4, v);
  }

  /** Byte `i` from the end has place value 256^i. */
  lemma {:induction false} BePlace(v: nat, n: nat, i: nat)
    requires i < n
    ensures BeBytes(v, n)[n - 1 - i] == v / Pow256(i) % 256
  {
    if i > 0 {
      BePlace(v / 256, n - 1, i - 1);
      DivideTwice(v, Pow256(i - 1));
    }
  }

  function BeU16(s: seq<byte>): (v: u16)
    requires |s| == 2
  {
    Pow256Values(); BeValue(s)
  }

  function BeU64(s: seq<byte>): (v: u64)
    requires |s| == 8
  {
    Pow256Values(); BeValue(s)
  }

  // ---- lists of fixed-width little-endian integers ----

  function EncodeAll(vs: seq<nat>, width: nat): (s: seq<byte>)
    ensures |s| == width * |vs|
  {
    if vs == [] then [] else LeBytes(vs[0], width) + EncodeAll(vs[1..], width)
  }

  /** The values of the complete `width`-byte chunks of `s`. */
  function DecodeAll(s: seq<byte>, width: nat): (vs: seq<nat>)
    requires width > 0
    ensures forall i :: 0 <= i < |vs| ==> vs[i] < Pow256(width)
  {
    if |s| < width then [] else [LeValue(s[..width])] + DecodeAll(s[width..], width)
  }

  lemma SliceOfRest(a: seq<byte>, b: seq<byte>, lo: nat, hi: nat)
    requires lo <= hi <= |b|
    ensures (a + b)[|a| + lo..|a| + hi] == b[lo..hi]
  {
  }

  lemma SliceOfSlice(s: seq<byte>, lo: nat, hi: nat, a: nat, b: nat)
    requires lo <= hi <= |s| && a <= b <= hi - lo
    ensures s[lo..hi][a..b] == s[lo + a..lo + b]
  {
    var (x, y) := (s[lo..hi][a..b], s[lo + a..lo + b]);
    assert |x| == |y| && forall k | 0 <= k < |x| :: x[k] == y[k];
  }

  lemma NextChunk(width: nat, i: nat, n: nat)
    requires 0 < i < n
    ensures width * i == width + width * (i - 1) && width * n == width + width * (n - 1)
    ensures width * (i - 1) + width <= width * (n - 1)
  {
    Multiples(width, i - 1, n - 1);
    assert width * (i - 1) + width == width * i && width * (n - 1) + width == width * n;
  }

  /** Value `i` fills the `i`-th `width` bytes. */
  lemma {:induction false} EncodeAllAt(vs: seq<nat>, width: nat, i: nat)
    requires i < |vs|
    ensures 0 <= width * i <= width * i + width <= width * |vs|
    ensures EncodeAll(vs, width)[width * i..width * i + width] == LeBytes(vs[i], width)
  {
    var (first, rest) := (LeBytes(vs[0], width), EncodeAll(vs[1..], width));
    if i == 0 {
      assert width <= width * |vs|;
      assert (first + rest)[0..width] == first;
    } else {
      EncodeAllAt(vs[1..], width, i - 1);
      NextChunk(width, i, |vs|);
      SliceOfRest(first, rest, width * (i - 1), width * (i - 1) + width);
    }
  }

  /** Reading value `i` back from its place. */
  lemma DecodeAllAt(s: seq<byte>, width: nat, n: nat, i: nat)
    requires width > 0 && |s| == width * n && i < n
    ensures |DecodeAll(s, width)| == n
    ensures 0 <= width * i <= width * i + width <= |s|
    ensures DecodeAll(s, width)[i] == LeValue(s[width * i..width * i + width])
  {
    EncodeDecodeAll(s, width, n);
    EncodeAllAt(DecodeAll(s, width), width, i);
    LeRoundTrip(DecodeAll(s, width)[i], width);
  }

  lemma {:induction false} DecodeEncodeAll(vs: seq<nat>, width: nat)
    requires width > 0
    requires forall i :: 0 <= i < |vs| ==> vs[i] < Pow256(width)
    ensures DecodeAll(EncodeAll(vs, width), width) == vs
  {
    if vs != [] {
      var s := EncodeAll(vs, width);
      assert s[..width] == LeBytes(vs[0], width);
      assert s[width..] == EncodeAll(vs[1..], width);
      LeRoundTrip(vs[0], width);
      DecodeEncodeAll(vs[1..], width);
    }
  }

  lemma {:induction false} EncodeDecodeAll(s: seq<byte>, width: nat, n: nat)
    requires width > 0 && |s| == width * n
    ensures |DecodeAll(s, width)| == n
    ensures EncodeAll(DecodeAll(s, width), width) == s
    decreases n
  {
    if n > 0 {
      assert width * n == width + width * (n - 1);
      var rest := s[width..];
      EncodeDecodeAll(rest, width, n - 1);
      LeImage(s[..width]);
      assert DecodeAll(s, width)[1..] == DecodeAll(rest, width);
      assert s == s[..width] + rest;
    }
  }

  // ---- in-place byte writes ----

  /** `m` with the bytes `bs` written at offset `o`. */
  function Splice(m: seq<byte>, o: nat, bs: seq<byte>): (r: seq<byte>)
    requires o + |bs| <= |m|
    ensures |r| == |m|
  {
    m[..o] + bs + m[o + |bs|..]
  }

  /** `a` and `b` agree outside the range [lo, hi). */
  ghost predicate SameOutside(a: seq<byte>, b: seq<byte>, lo: nat, hi: nat)
    requires lo <= hi <= |a|
  {
    |a| == |b| && a[..lo] == b[..lo] && a[hi..] == b[hi..]
  }

  lemma Widen(a: seq<byte>, b: seq<byte>, lo: nat, hi: nat, lo': nat, hi': nat)
    requires lo' <= lo <= hi <= hi' <= |a| && SameOutside(a, b, lo, hi)
    ensures SameOutside(a, b, lo', hi')
  {
    assert a[..lo'] == a[..lo][..lo'] && b[..lo'] == b[..lo][..lo'];
    assert a[hi'..] == a[hi..][hi' - hi..] && b[hi'..] == b[hi..][hi' - hi..];
  }

  lemma SameSlice(a: seq<byte>, b: seq<byte>, lo: nat, hi: nat, from: nat, to: nat)
    requires lo <= hi <= |a| && SameOutside(a, b, lo, hi)
    requires from <= to <= |a| && (to <= lo || hi <= from)
    ensures a[from..to] == b[from..to]
  {
    if to <= lo {
      assert a[from..to] == a[..lo][from..to];
      assert b[from..to] == b[..lo][from..to];
    } else {
      var (i, j) := (from - hi, to - hi);
      assert a[hi..][i..j] == a[from..to];
      assert b[hi..][i..j] == b[from..to];
    }
  }

  /** A slice of a written-to buffer: the image itself, or the old bytes. */
  lemma SpliceSlice(m: seq<byte>, o: nat, bs: seq<byte>, from: nat, to: nat)
    requires o + |bs| <= |m| && from <= to <= |m|
    ensures from == o && to == o + |bs| ==> Splice(m, o, bs)[from..to] == bs
    ensures to <= o || o + |bs| <= from ==> Splice(m, o, bs)[from..to] == m[from..to]
    ensures SameOutside(m, Splice(m, o, bs), o, o + |bs|)
  {
    var r := Splice(m, o, bs);
    assert r[..o] == m[..o] && r[o + |bs|..] == m[o + |bs|..];
    if to <= o || o + |bs| <= from {
      SameSlice(m, r, o, o + |bs|, from, to);
    }
  }

  method WriteBytes(mem: array<byte>, o: nat, bs: seq<byte>)
    requires o + |bs| <= mem.Length
    modifies mem
    ensures mem[..] == Splice(old(mem[..]), o, bs)
  {
    forall i | 0 <= i < |bs| {
      mem[o + i] := bs[i];
    }
    assert mem[..] == Splice(old(mem[..]), o, bs);
  }
}
