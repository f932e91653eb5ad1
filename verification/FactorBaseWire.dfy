module FactorBaseWire {
  /**
   The version-1 file format of src/factor_base/builder.cpp (86-151, 183-370): what is written,
   what is accepted, and that the two are inverse.
   */

  import opened Optional
  import opened NumberTheory
  import opened ByteEncoding
  import opened FactorBases
  import opened TrialDivision

  // ---------- byte strings inside a stream ----------

  predicate At(data: seq<U8>, pos: nat, s: seq<U8>) {
    pos + |s| <= |data| && data[pos..pos + |s|] == s
  }

  lemma AtSplit(data: seq<U8>, pos: nat, s: seq<U8>, t: seq<U8>)
    ensures At(data, pos, s + t) <==> At(data, pos, s) && At(data, pos + |s|, t)
  {
    if At(data, pos, s + t) {
      assert data[pos..pos + |s|] == data[pos..pos + |s + t|][..|s|] == s;
      assert data[pos + |s|..pos + |s| + |t|] == data[pos..pos + |s + t|][|s|..] == t;
    }
    if At(data, pos, s) && At(data, pos + |s|, t) {
      assert data[pos..pos + |s + t|] == data[pos..pos + |s|] + data[pos + |s|..pos + |s| + |t|];
    }
  }

  predicate NumberAt(data: seq<U8>, pos: nat, v: nat, size: nat, order: ByteOrder) {
    v < Pow256(size) && At(data, pos, Bytes(v, size, order))
  }

  lemma NumberUnique(data: seq<U8>, pos: nat, v: nat, w: nat, size: nat, order: ByteOrder)
    requires NumberAt(data, pos, v, size, order) && NumberAt(data, pos, w, size, order)
    ensures v == w
  {
    hide Bytes;
    hide Decode;
    hide Pow256;
    DecodeInverse(v, size, order);
    DecodeInverse(w, size, order);
  }

  /** The next integer of a stream, when there are enough bytes for it. */
  method ReadNumber(data: seq<U8>, pos: nat, size: nat, order: ByteOrder) returns (v: Option<nat>)
    ensures v.None? <==> pos + size > |data|
    ensures v.Some? ==> NumberAt(data, pos, v.value, size, order)
  {
    if pos + size > |data| {
      return None;
    }
    var bytes := data[pos..pos + size];
    DecodeOnto(bytes, order);
    v := Some(Decode(bytes, order));
  }

  // ---------- the file format ----------

  const MAGIC: U32 := 0x47464246
  const VERSION: U32 := 1
  const EXPLICIT_ZERO: U64 := 0x8000_0000_0000_0000

  function Header(order: ByteOrder): (r: seq<U8>)
    ensures |r| == 8
  {
    Bytes(MAGIC, 4, order) + Bytes(VERSION, 4, order)
  }

  function ParamBytes(p: Params, order: ByteOrder): (r: seq<U8>)
    ensures |r| == 17
  {
    Bytes(p.rationalBound, 4, order) + Bytes(p.algebraicBound, 4, order)
    + Bytes(p.largePrimeBound, 8, order) + Bytes(p.logScale, 1, order)
  }

  /** Unset is zero; an explicit zero is marked by the top bit. */
  function CountField(b: Base): U64 {
    if b.sieveCountSet && b.sieveCount == 0 then EXPLICIT_ZERO else b.sieveCount
  }

  function RationalBytes(s: seq<RationalPrime>, order: ByteOrder): (r: seq<U8>)
    ensures |r| == 8 * |s|
  {
    if |s| == 0 then []
    else var x := s[|s| - 1];
      RationalBytes(s[..|s| - 1], order) + (Bytes(x.p, 4, order) + Bytes(x.logP, 4, order))
  }

  function EntryBytes(a: AlgebraicPrime, order: ByteOrder): (r: seq<U8>)
    ensures |r| == 13
  {
    Bytes(a.p, 4, order) + Bytes(a.r, 4, order) + Bytes(a.logP, 4, order) + Bytes(a.degree, 1, order)
  }

  function AlgebraicBytes(s: seq<AlgebraicPrime>, order: ByteOrder): (r: seq<U8>)
    ensures |r| == 13 * |s|
  {
    if |s| == 0 then []
    else AlgebraicBytes(s[..|s| - 1], order) + EntryBytes(s[|s| - 1], order)
  }

  function Encode(b: Base, order: ByteOrder): (r: seq<U8>)
    ensures |r| == 41 + 8 * |b.rational| + 13 * |b.algebraic|
  {
    Header(order) + ParamBytes(b.params, order) + Bytes(CountField(b), 8, order)
    + Bytes(|b.rational|, 4, order) + RationalBytes(b.rational, order)
    + Bytes(|b.algebraic|, 4, order) + AlgebraicBytes(b.algebraic, order)
  }

  /** The parts of an encoded base, each at its place in the stream. */
  predicate Layout(data: seq<U8>, b: Base, order: ByteOrder) {
    var r := |b.rational|;
    && At(data, 0, Header(order))
    && At(data, 8, ParamBytes(b.params, order))
    && At(data, 25, Bytes(CountField(b), 8, order))
    && At(data, 33, Bytes(r, 4, order))
    && At(data, 37, RationalBytes(b.rational, order))
    && At(data, 37 + 8 * r, Bytes(|b.algebraic|, 4, order))
    && At(data, 41 + 8 * r, AlgebraicBytes(b.algebraic, order))
  }

  lemma LayoutIsPrefix(data: seq<U8>, b: Base, order: ByteOrder)
    ensures Layout(data, b, order) <==> Encode(b, order) <= data
  {
    hide At;
    hide Bytes;
    hide Header;
    hide ParamBytes;
    hide RationalBytes;
    hide AlgebraicBytes;
    var h, p, c := Header(order), ParamBytes(b.params, order), Bytes(CountField(b), 8, order);
    var n, rs := Bytes(|b.rational|, 4, order), RationalBytes(b.rational, order);
    var m, az := Bytes(|b.algebraic|, 4, order), AlgebraicBytes(b.algebraic, order);
    PrefixIsAt(data, Encode(b, order));
    AtSplit(data, 0, h + p + c + n + rs + m, az);
    AtSplit(data, 0, h + p + c + n + rs, m);
    AtSplit(data, 0, h + p + c + n, rs);
    AtSplit(data, 0, h + p + c, n);
    AtSplit(data, 0, h + p, c);
    AtSplit(data, 0, h, p);
  }

  lemma PrefixIsAt(data: seq<U8>, s: seq<U8>)
    ensures s <= data <==> At(data, 0, s)
  {
  }

  /** No header can be read in both byte orders. */
  lemma HeaderUnambiguous(data: seq<U8>)
    ensures !(At(data, 0, Header(Little)) && At(data, 0, Header(Big)))
  {
    assert Header(Little)[0] == 0x46;
    HeaderBig();
  }

  lemma HeaderBig()
    ensures Header(Big)[0] == 0x47
  {
    var s := LittleBytes(MAGIC, 4);
    LittleInverse(MAGIC, 4);
    assert LittleBytes(0x474642, 3)[1..] == LittleBytes(0x4746, 2);
    assert LittleBytes(0x4746, 2)[1..] == LittleBytes(0x47, 1);
    assert s[1..] == LittleBytes(0x474642, 3);
    assert s[3] == 0x47;
  }

  // ---------- entries at their places ----------

  lemma {:induction false} RationalPrefix(data: seq<U8>, pos: nat, s: seq<RationalPrime>, i: nat, order: ByteOrder)
    requires At(data, pos, RationalBytes(s, order)) && i <= |s|
    ensures At(data, pos, RationalBytes(s[..i], order))
    decreases |s|
  {
    hide At;
    hide Bytes;
    if i == |s| {
      assert s[..i] == s;
    } else {
      var k := |s| - 1;
      AtSplit(data, pos, RationalBytes(s[..k], order), Bytes(s[k].p, 4, order) + Bytes(s[k].logP, 4, order));
      RationalPrefix(data, pos, s[..k], i, order);
      assert s[..k][..i] == s[..i];
    }
  }

  lemma RationalEntry(data: seq<U8>, pos: nat, s: seq<RationalPrime>, i: nat, order: ByteOrder)
    requires At(data, pos, RationalBytes(s, order)) && i < |s|
    ensures NumberAt(data, pos + 8 * i, s[i].p, 4, order) && NumberAt(data, pos + 8 * i + 4, s[i].logP, 4, order)
  {
    hide At;
    hide Bytes;
    Widths();
    RationalPrefix(data, pos, s, i + 1, order);
    assert s[..i + 1][..i] == s[..i];
    var p, l := Bytes(s[i].p, 4, order), Bytes(s[i].logP, 4, order);
    AtSplit(data, pos, RationalBytes(s[..i], order), p + l);
    AtSplit(data, pos + 8 * i, p, l);
  }

  lemma RationalExtend(data: seq<U8>, pos: nat, s: seq<RationalPrime>, x: RationalPrime, order: ByteOrder)
    requires At(data, pos, RationalBytes(s, order))
    requires NumberAt(data, pos + 8 * |s|, x.p, 4, order) && NumberAt(data, pos + 8 * |s| + 4, x.logP, 4, order)
    ensures At(data, pos, RationalBytes(s + [x], order))
  {
    hide At;
    hide Bytes;
    assert (s + [x])[..|s|] == s;
    AtSplit(data, pos + 8 * |s|, Bytes(x.p, 4, order), Bytes(x.logP, 4, order));
    AtSplit(data, pos, RationalBytes(s, order), Bytes(x.p, 4, order) + Bytes(x.logP, 4, order));
  }

  lemma {:induction false} AlgebraicPrefix(data: seq<U8>, pos: nat, s: seq<AlgebraicPrime>, i: nat, order: ByteOrder)
    requires At(data, pos, AlgebraicBytes(s, order)) && i <= |s|
    ensures At(data, pos, AlgebraicBytes(s[..i], order))
    decreases |s|
  {
    hide At;
    hide EntryBytes;
    if i == |s| {
      assert s[..i] == s;
    } else {
      var k := |s| - 1;
      AtSplit(data, pos, AlgebraicBytes(s[..k], order), EntryBytes(s[k], order));
      AlgebraicPrefix(data, pos, s[..k], i, order);
      assert s[..k][..i] == s[..i];
    }
  }

  predicate EntryAt(data: seq<U8>, pos: nat, a: AlgebraicPrime, order: ByteOrder) {
    && NumberAt(data, pos, a.p, 4, order) && NumberAt(data, pos + 4, a.r, 4, order)
    && NumberAt(data, pos + 8, a.logP, 4, order) && NumberAt(data, pos + 12, a.degree, 1, order)
  }

  lemma EntryAtBytes(data: seq<U8>, pos: nat, a: AlgebraicPrime, order: ByteOrder)
    ensures EntryAt(data, pos, a, order) <==> At(data, pos, EntryBytes(a, order))
  {
    hide At;
    hide Bytes;
    Widths();
    var p, r, l, d := Bytes(a.p, 4, order), Bytes(a.r, 4, order), Bytes(a.logP, 4, order), Bytes(a.degree, 1, order);
    AtSplit(data, pos, p + r + l, d);
    AtSplit(data, pos, p + r, l);
    AtSplit(data, pos, p, r);
  }

  lemma AlgebraicEntry(data: seq<U8>, pos: nat, s: seq<AlgebraicPrime>, i: nat, order: ByteOrder)
    requires At(data, pos, AlgebraicBytes(s, order)) && i < |s|
    ensures EntryAt(data, pos + 13 * i, s[i], order)
  {
    hide At;
    hide EntryAt;
    hide EntryBytes;
    AlgebraicPrefix(data, pos, s, i + 1, order);
    assert s[..i + 1][..i] == s[..i];
    AtSplit(data, pos, AlgebraicBytes(s[..i], order), EntryBytes(s[i], order));
    EntryAtBytes(data, pos + 13 * i, s[i], order);
  }

  lemma AlgebraicExtend(data: seq<U8>, pos: nat, s: seq<AlgebraicPrime>, x: AlgebraicPrime, order: ByteOrder)
    requires At(data, pos, AlgebraicBytes(s, order)) && EntryAt(data, pos + 13 * |s|, x, order)
    ensures At(data, pos, AlgebraicBytes(s + [x], order))
  {
    hide At;
    hide EntryAt;
    hide EntryBytes;
    assert (s + [x])[..|s|] == s;
    EntryAtBytes(data, pos + 13 * |s|, x, order);
    AtSplit(data, pos, AlgebraicBytes(s, order), EntryBytes(x, order));
  }

  // ---------- the fields by their offsets ----------

  lemma NumberDecodes(data: seq<U8>, pos: nat, v: nat, size: nat, order: ByteOrder)
    requires NumberAt(data, pos, v, size, order)
    ensures pos + size <= |data| && Decode(data[pos..pos + size], order) == v
  {
    hide Bytes;
    hide Decode;
    DecodeInverse(v, size, order);
  }

  /** Everything in front of the entries, and the two counts. */
  lemma EncodedHead(b: Base, order: ByteOrder)
    requires |b.rational| <= 0xFFFF_FFFF && |b.algebraic| <= 0xFFFF_FFFF
    ensures var e, r := Encode(b, order), |b.rational|;
      && |e| == 41 + 8 * r + 13 * |b.algebraic|
      && Decode(e[0..4], order) == 0x47464246 && Decode(e[4..8], order) == 1
      && Decode(e[8..12], order) == b.params.rationalBound && Decode(e[12..16], order) == b.params.algebraicBound
      && Decode(e[16..24], order) == b.params.largePrimeBound && e[24] == b.params.logScale
      && Decode(e[25..33], order)
         == (if b.sieveCountSet && b.sieveCount == 0 then 0x8000_0000_0000_0000 else b.sieveCount)
      && Decode(e[33..37], order) == r && Decode(e[37 + 8 * r..41 + 8 * r], order) == |b.algebraic|
  {
    hide Encode;
    hide At;
    hide Bytes;
    hide Decode;
    hide RationalBytes;
    hide AlgebraicBytes;
    var e, r := Encode(b, order), |b.rational|;
    LayoutIsPrefix(e, b, order);
    Widths();
    AtSplit(e, 0, Bytes(MAGIC, 4, order), Bytes(VERSION, 4, order));
    NumberDecodes(e, 0, MAGIC, 4, order);
    NumberDecodes(e, 4, VERSION, 4, order);
    ParamsAtBytes(e, b.params, order);
    NumberDecodes(e, 8, b.params.rationalBound, 4, order);
    NumberDecodes(e, 12, b.params.algebraicBound, 4, order);
    NumberDecodes(e, 16, b.params.largePrimeBound, 8, order);
    NumberDecodes(e, 24, b.params.logScale, 1, order);
    OneByte(e[24..25], order);
    NumberDecodes(e, 25, CountField(b), 8, order);
    NumberDecodes(e, 33, r, 4, order);
    NumberDecodes(e, 37 + 8 * r, |b.algebraic|, 4, order);
  }

  lemma OneByte(s: seq<U8>, order: ByteOrder)
    requires |s| == 1
    ensures Decode(s, order) == s[0]
  {
    assert Reverse(s) == s;
    assert s[1..] == [] && FromLittle([]) == 0;
    assert FromLittle(s) == s[0] + 256 * FromLittle(s[1..]);
  }

  /** Every entry at its place: eight bytes for a rational one, thirteen for an algebraic one. */
  lemma EncodedEntries(b: Base, order: ByteOrder, i: nat)
    ensures var e, at := Encode(b, order), 37 + 8 * i;
      i < |b.rational| ==>
        && Decode(e[at..at + 4], order) == b.rational[i].p && Decode(e[at + 4..at + 8], order) == b.rational[i].logP
    ensures var e, at := Encode(b, order), 41 + 8 * |b.rational| + 13 * i;
      i < |b.algebraic| ==>
        && Decode(e[at..at + 4], order) == b.algebraic[i].p && Decode(e[at + 4..at + 8], order) == b.algebraic[i].r
        && Decode(e[at + 8..at + 12], order) == b.algebraic[i].logP && e[at + 12] == b.algebraic[i].degree
  {
    hide Encode;
    hide At;
    hide Bytes;
    hide Decode;
    hide NumberAt;
    hide RationalBytes;
    hide AlgebraicBytes;
    hide Header;
    hide ParamBytes;
    var e := Encode(b, order);
    LayoutIsPrefix(e, b, order);
    if i < |b.rational| {
      var at := 37 + 8 * i;
      RationalEntry(e, 37, b.rational, i, order);
      NumberDecodes(e, at, b.rational[i].p, 4, order);
      NumberDecodes(e, at + 4, b.rational[i].logP, 4, order);
    }
    if i < |b.algebraic| {
      var at := 41 + 8 * |b.rational| + 13 * i;
      AlgebraicEntry(e, 41 + 8 * |b.rational|, b.algebraic, i, order);
      NumberDecodes(e, at, b.algebraic[i].p, 4, order);
      NumberDecodes(e, at + 4, b.algebraic[i].r, 4, order);
      NumberDecodes(e, at + 8, b.algebraic[i].logP, 4, order);
      NumberDecodes(e, at + 12, b.algebraic[i].degree, 1, order);
      OneByte(e[at + 12..at + 13], order);
    }
  }

  // ---------- saving ----------

  class OutputStream {
    var written: seq<U8>

    constructor ()
      ensures written == []
    {
      written := [];
    }

    method Write(bytes: seq<U8>)
      modifies this
      ensures written == old(written) + bytes
    {
      written := written + bytes;
    }
  }

  /** Appends the little-endian encoding, or nothing when the base cannot be written. */
  method Save(fb: FactorBase, os: OutputStream) returns (ok: bool)
    requires fb.Valid()
    modifies os
    ensures ok <==> fb.sieveCount <= |fb.algebraic|
    ensures os.written == old(os.written) + if ok then Encode(fb.Contents(), Little) else []
  {
    hide Bytes;
    if fb.sieveCount > |fb.algebraic| {
      return false;
    }
    hide Head;
    hide Encode;
    hide RationalBytes;
    hide AlgebraicBytes;
    SaveHead(fb, os);
    SaveRational(fb.rational, os);
    os.Write(Bytes(|fb.algebraic|, 4, Little));
    SaveAlgebraic(fb.algebraic, os);
    EncodeParts(old(os.written), fb.Contents(), Little);
    ok := true;
  }

  function Head(b: Base, order: ByteOrder): seq<U8> {
    Header(order) + ParamBytes(b.params, order) + Bytes(CountField(b), 8, order) + Bytes(|b.rational|, 4, order)
  }

  lemma EncodeParts(before: seq<U8>, b: Base, order: ByteOrder)
    ensures before + Head(b, order) + RationalBytes(b.rational, order) + Bytes(|b.algebraic|, 4, order)
            + AlgebraicBytes(b.algebraic, order)
         == before + Encode(b, order)
  {
    hide Header;
    hide ParamBytes;
    hide Bytes;
    hide RationalBytes;
    hide AlgebraicBytes;
  }

  /** Everything in front of the rational entries. */
  method SaveHead(fb: FactorBase, os: OutputStream)
    modifies os
    ensures os.written == old(os.written) + Head(fb.Contents(), Little)
  {
    hide Bytes;
    var p := fb.params;
    os.Write(Bytes(MAGIC, 4, Little));
    os.Write(Bytes(VERSION, 4, Little));
    assert os.written == old(os.written) + Header(Little);
    hide Header;
    os.Write(Bytes(p.rationalBound, 4, Little));
    os.Write(Bytes(p.algebraicBound, 4, Little));
    os.Write(Bytes(p.largePrimeBound, 8, Little));
    os.Write(Bytes(p.logScale, 1, Little));
    assert os.written == old(os.written) + (Header(Little) + ParamBytes(p, Little));
    hide ParamBytes;
    var encoded := fb.sieveCount;
    if fb.sieveCountSet && fb.sieveCount == 0 {
      encoded := EXPLICIT_ZERO;
    }
    os.Write(Bytes(encoded, 8, Little));
    os.Write(Bytes(|fb.rational|, 4, Little));
  }

  method SaveRational(s: seq<RationalPrime>, os: OutputStream)
    modifies os
    ensures os.written == old(os.written) + RationalBytes(s, Little)
  {
    hide Bytes;
    for i := 0 to |s|
      invariant os.written == old(os.written) + RationalBytes(s[..i], Little)
    {
      os.Write(Bytes(s[i].p, 4, Little));
      os.Write(Bytes(s[i].logP, 4, Little));
      assert s[..i + 1][..i] == s[..i];
    }
    assert s[..|s|] == s;
  }

  method SaveAlgebraic(s: seq<AlgebraicPrime>, os: OutputStream)
    modifies os
    ensures os.written == old(os.written) + AlgebraicBytes(s, Little)
  {
    hide Bytes;
    for i := 0 to |s|
      invariant os.written == old(os.written) + AlgebraicBytes(s[..i], Little)
    {
      os.Write(Bytes(s[i].p, 4, Little));
      os.Write(Bytes(s[i].r, 4, Little));
      os.Write(Bytes(s[i].logP, 4, Little));
      os.Write(Bytes(s[i].degree, 1, Little));
      assert s[..i + 1][..i] == s[..i];
    }
    assert s[..|s|] == s;
  }

  // ---------- loading ----------

  datatype LoadError = Truncated | UnsupportedVersion | InvalidMagic | InvalidMarker | NotPrime | Duplicate
                     | NotIncreasing | RootOutOfRange | ZeroDegree | CountTooLarge

  datatype Loaded<T> = Loaded(value: T, consumed: nat) | Failed(error: LoadError)

  /** The stream starts with an encoding of b in one of the orders this host reads. */
  predicate Encodes(data: seq<U8>, b: Base, order: ByteOrder, host: ByteOrder) {
    Acceptable(b) && (order == Little || order == host) && Encode(b, order) <= data
  }

  predicate Reads(data: seq<U8>, b: Base, order: ByteOrder) {
    Acceptable(b) && Layout(data, b, order)
  }

  method ReadHeader(data: seq<U8>, host: ByteOrder) returns (order: Loaded<ByteOrder>)
    ensures order.Loaded? ==> order.consumed == 8 && (order.value == Little || order.value == host)
    ensures order.Loaded? ==> At(data, 0, Header(order.value))
    ensures order.Failed? ==> !At(data, 0, Header(Little)) && !At(data, 0, Header(host))
  {
    hide Bytes;
    hide Decode;
    if |data| < 8 {
      return Failed(Truncated);
    }
    HeaderDecodes(data, Little);
    HeaderDecodes(data, host);
    var littleMagic, littleVersion := Decode(data[0..4], Little), Decode(data[4..8], Little);
    var nativeMagic, nativeVersion := Decode(data[0..4], host), Decode(data[4..8], host);
    if littleMagic == MAGIC && littleVersion == VERSION {
      order := Loaded(Little, 8);
    } else if nativeMagic == MAGIC && nativeVersion == VERSION {
      order := Loaded(host, 8);
    } else if littleMagic == MAGIC || nativeMagic == MAGIC {
      order := Failed(UnsupportedVersion);
    } else {
      order := Failed(InvalidMagic);
    }
  }

  lemma HeaderDecodes(data: seq<U8>, order: ByteOrder)
    requires |data| >= 8
    ensures At(data, 0, Header(order)) <==> Decode(data[0..4], order) == MAGIC && Decode(data[4..8], order) == VERSION
  {
    hide Bytes;
    hide Decode;
    Widths();
    AtSplit(data, 0, Bytes(MAGIC, 4, order), Bytes(VERSION, 4, order));
    DecodeInverse(MAGIC, 4, order);
    DecodeInverse(VERSION, 4, order);
    DecodeOnto(data[0..4], order);
    DecodeOnto(data[4..8], order);
  }

  method ReadParams(data: seq<U8>, order: ByteOrder) returns (params: Loaded<Params>)
    ensures params.Loaded? ==> params.consumed == 25 && At(data, 8, ParamBytes(params.value, order))
    ensures forall p :: At(data, 8, ParamBytes(p, order)) ==> params.Loaded? && p == params.value
  {
    hide Bytes;
    hide At;
    hide NumberAt;
    Widths();
    forall p | At(data, 8, ParamBytes(p, order))
      ensures ParamsAt(data, p, order) && |data| >= 25
    {
      ParamsAtBytes(data, p, order);
      AtInside(data, 8, ParamBytes(p, order));
    }
    var rb := ReadNumber(data, 8, 4, order);
    if rb.None? { return Failed(Truncated); }
    var ab := ReadNumber(data, 12, 4, order);
    if ab.None? { return Failed(Truncated); }
    var lp := ReadNumber(data, 16, 8, order);
    if lp.None? { return Failed(Truncated); }
    var ls := ReadNumber(data, 24, 1, order);
    if ls.None? { return Failed(Truncated); }
    NumberFits(data, 8, rb.value, 4, order);
    NumberFits(data, 12, ab.value, 4, order);
    NumberFits(data, 16, lp.value, 8, order);
    NumberFits(data, 24, ls.value, 1, order);
    var result := Params(rb.value, ab.value, lp.value, ls.value);
    ParamsAtBytes(data, result, order);
    forall p | At(data, 8, ParamBytes(p, order))
      ensures p == result
    {
      NumberUnique(data, 8, p.rationalBound, rb.value, 4, order);
      NumberUnique(data, 12, p.algebraicBound, ab.value, 4, order);
      NumberUnique(data, 16, p.largePrimeBound, lp.value, 8, order);
      NumberUnique(data, 24, p.logScale, ls.value, 1, order);
    }
    params := Loaded(result, 25);
  }

  lemma NumberFits(data: seq<U8>, pos: nat, v: nat, size: nat, order: ByteOrder)
    requires NumberAt(data, pos, v, size, order)
    ensures v < Pow256(size)
  {
  }

  lemma AtInside(data: seq<U8>, pos: nat, s: seq<U8>)
    requires At(data, pos, s)
    ensures pos + |s| <= |data|
  {
  }

  predicate ParamsAt(data: seq<U8>, p: Params, order: ByteOrder) {
    && NumberAt(data, 8, p.rationalBound, 4, order) && NumberAt(data, 12, p.algebraicBound, 4, order)
    && NumberAt(data, 16, p.largePrimeBound, 8, order) && NumberAt(data, 24, p.logScale, 1, order)
  }

  lemma ParamsAtBytes(data: seq<U8>, p: Params, order: ByteOrder)
    ensures ParamsAt(data, p, order) <==> At(data, 8, ParamBytes(p, order))
  {
    hide At;
    hide Bytes;
    Widths();
    var r, a := Bytes(p.rationalBound, 4, order), Bytes(p.algebraicBound, 4, order);
    var l, s := Bytes(p.largePrimeBound, 8, order), Bytes(p.logScale, 1, order);
    AtSplit(data, 8, r + a + l, s);
    AtSplit(data, 8, r + a, l);
    AtSplit(data, 8, r, a);
  }

  /** Rational entries with numbers, primality and order checked one by one. */
  method ReadRational(data: seq<U8>, order: ByteOrder, guess: nat)
    returns (list: Loaded<seq<RationalPrime>>)
    ensures list.Loaded? ==>
      && |list.value| <= MAX_COUNT && RationalOk(list.value) && list.consumed == 37 + 8 * |list.value|
      && At(data, 33, Bytes(|list.value|, 4, order)) && At(data, 37, RationalBytes(list.value, order))
    ensures forall s :: RationalListAt(data, s, order) ==> list.Loaded? && s == list.value
  {
    hide IsPrime;
    hide Bytes;
    hide At;
    hide NumberAt;
    hide RationalBytes;
    hide RationalListAt;
    Widths();
    var count := ReadNumber(data, 33, 4, order);
    if count.None? {
      CountMissing(data, order);
      return Failed(Truncated);
    }
    var n := count.value;
    NumberFits(data, 33, n, 4, order);
    RationalStart(data, order, n);
    var got: seq<RationalPrime> := [];
    var keys: set<nat> := {};
    while |got| < n
      invariant |got| <= n && RationalOk(got)
      invariant keys == RationalKeys(got)
      invariant At(data, 37, RationalBytes(got, order))
      invariant forall s :: RationalListAt(data, s, order) ==> |s| == n && s[..|got|] == got
      decreases n - |got|
    {
      var i := |got|;
      forall s: seq<RationalPrime> | RationalListAt(data, s, order) ensures RationalNext(data, s, i, order) {
        RationalForced(data, s, got, order);
      }
      var p := ReadNumber(data, 37 + 8 * i, 4, order);
      if p.None? { return Failed(Truncated); }
      var l := ReadNumber(data, 37 + 8 * i + 4, 4, order);
      if l.None? { return Failed(Truncated); }
      NumberFits(data, 37 + 8 * i, p.value, 4, order);
      NumberFits(data, 37 + 8 * i + 4, l.value, 4, order);
      var rp := RationalPrime(p.value, l.value);
      forall s: seq<RationalPrime> | RationalListAt(data, s, order) ensures s[i] == rp && IsPrime(rp.p) && (i > 0 ==> got[i - 1].p < rp.p)
      {
        NumberUnique(data, 37 + 8 * i, s[i].p, p.value, 4, order);
        NumberUnique(data, 37 + 8 * i + 4, s[i].logP, l.value, 4, order);
        assert i > 0 ==> s[i - 1] == s[..i][i - 1] == got[i - 1];
      }
      var prime := IsPrimeU32(rp.p, guess);
      if rp.p < 2 || !prime { SmallNotPrime(rp.p); return Failed(NotPrime); }
      if rp.p in keys { DuplicateBreaksOrder(got, rp.p); return Failed(Duplicate); }
      if |got| > 0 && rp.p < got[|got| - 1].p { return Failed(NotIncreasing); }
      RationalExtend(data, 37, got, rp, order);
      RationalOkExtend(got, rp);
      keys := keys + {rp.p};
      got := got + [rp];
      forall s: seq<RationalPrime> | RationalListAt(data, s, order) ensures s[..i + 1] == got {
        assert s[..i + 1] == s[..i] + [s[i]];
      }
    }
    forall s: seq<RationalPrime> | RationalListAt(data, s, order) ensures s == got {
      assert s[..n] == s;
    }
    NumberIsAt(data, 33, n, 4, order);
    list := Loaded(got, 37 + 8 * n);
  }

  predicate RationalListAt(data: seq<U8>, s: seq<RationalPrime>, order: ByteOrder) {
    |s| <= MAX_COUNT && RationalOk(s) && At(data, 33, Bytes(|s|, 4, order)) && At(data, 37, RationalBytes(s, order))
  }

  /** What any list in the stream must hold at its next place. */
  predicate RationalNext(data: seq<U8>, s: seq<RationalPrime>, i: nat, order: ByteOrder) {
    && i < |s| && NumberAt(data, 37 + 8 * i, s[i].p, 4, order) && NumberAt(data, 37 + 8 * i + 4, s[i].logP, 4, order)
    && 37 + 8 * i + 8 <= |data| && IsPrime(s[i].p) && (i > 0 ==> s[i - 1].p < s[i].p)
  }

  lemma NumberIsAt(data: seq<U8>, pos: nat, v: nat, size: nat, order: ByteOrder)
    requires NumberAt(data, pos, v, size, order)
    ensures At(data, pos, Bytes(v, size, order)) && pos + size <= |data|
  {
  }

  lemma CountMissing(data: seq<U8>, order: ByteOrder)
    requires 37 > |data|
    ensures forall s :: !RationalListAt(data, s, order)
  {
  }

  lemma SmallNotPrime(p: nat)
    ensures p < 2 ==> !IsPrime(p)
  {
  }

  lemma RationalStart(data: seq<U8>, order: ByteOrder, n: nat)
    requires NumberAt(data, 33, n, 4, order)
    ensures At(data, 37, RationalBytes([], order))
    ensures forall s :: RationalListAt(data, s, order) ==> |s| == n && s[..0] == []
  {
    hide Bytes;
    hide IsPrime;
    hide RationalBytes;
    Widths();
    forall s: seq<RationalPrime> | RationalListAt(data, s, order) ensures |s| == n {
      NumberUnique(data, 33, |s|, n, 4, order);
    }
    assert RationalBytes([], order) == [];
  }

  lemma RationalForced(data: seq<U8>, s: seq<RationalPrime>, got: seq<RationalPrime>, order: ByteOrder)
    requires RationalListAt(data, s, order) && |got| < |s|
    ensures RationalNext(data, s, |got|, order)
  {
    hide Bytes;
    hide At;
    hide IsPrime;
    hide NumberAt;
    hide RationalBytes;
    RationalEntry(data, 37, s, |got|, order);
    NumberIsAt(data, 37 + 8 * |got| + 4, s[|got|].logP, 4, order);
  }

  lemma DuplicateBreaksOrder(got: seq<RationalPrime>, p: nat)
    requires RationalOk(got) && p in RationalKeys(got)
    ensures |got| > 0 && p <= got[|got| - 1].p
  {
    var i :| 0 <= i < |got| && got[i].p == p;
  }

  lemma RationalOkExtend(got: seq<RationalPrime>, rp: RationalPrime)
    requires RationalOk(got) && IsPrime(rp.p) && rp.p !in RationalKeys(got)
    requires |got| > 0 ==> got[|got| - 1].p <= rp.p
    ensures RationalOk(got + [rp])
    ensures RationalKeys(got + [rp]) == RationalKeys(got) + {rp.p}
  {
    hide IsPrime;
    var s := got + [rp];
    assert s[|got|] == rp;
    assert forall i :: 0 <= i < |got| ==> s[i] == got[i];
    forall i | 0 <= i < |got| ensures s[i].p < rp.p {
      assert got[i].p in RationalKeys(got);
    }
    assert s[|got|].p in RationalKeys(s);
    forall p | p in RationalKeys(got) ensures p in RationalKeys(s) {
      var i :| 0 <= i < |got| && got[i].p == p;
      assert s[i].p == p;
    }
  }

  /** Algebraic entries, each checked as it is read. */
  method ReadAlgebraic(data: seq<U8>, pos: nat, order: ByteOrder, guess: nat)
    returns (list: Loaded<seq<AlgebraicPrime>>)
    ensures list.Loaded? ==>
      && |list.value| <= MAX_COUNT && AlgebraicOk(list.value) && list.consumed == pos + 4 + 13 * |list.value|
      && At(data, pos, Bytes(|list.value|, 4, order)) && At(data, pos + 4, AlgebraicBytes(list.value, order))
    ensures forall s :: AlgebraicListAt(data, pos, s, order) ==> list.Loaded? && s == list.value
  {
    hide IsPrime;
    hide Bytes;
    hide At;
    hide NumberAt;
    hide AlgebraicBytes;
    hide AlgebraicListAt;
    hide Key;
    Widths();
    var count := ReadNumber(data, pos, 4, order);
    if count.None? {
      AlgebraicCountMissing(data, pos, order);
      return Failed(Truncated);
    }
    var n := count.value;
    NumberFits(data, pos, n, 4, order);
    AlgebraicStart(data, pos, order, n);
    var got: seq<AlgebraicPrime> := [];
    var keys: set<nat> := {};
    while |got| < n
      invariant |got| <= n && AlgebraicOk(got)
      invariant keys == PackedKeys(got)
      invariant At(data, pos + 4, AlgebraicBytes(got, order))
      invariant forall s :: AlgebraicListAt(data, pos, s, order) ==> |s| == n && s[..|got|] == got
      decreases n - |got|
    {
      var i, at := |got|, pos + 4 + 13 * |got|;
      forall s: seq<AlgebraicPrime> | AlgebraicListAt(data, pos, s, order) ensures AlgebraicNext(data, at, s, i, order) {
        AlgebraicForced(data, pos, s, i, order);
      }
      var p := ReadNumber(data, at, 4, order);
      if p.None? { return Failed(Truncated); }
      var r := ReadNumber(data, at + 4, 4, order);
      if r.None? { return Failed(Truncated); }
      var l := ReadNumber(data, at + 8, 4, order);
      if l.None? { return Failed(Truncated); }
      var d := ReadNumber(data, at + 12, 1, order);
      if d.None? { return Failed(Truncated); }
      NumberFits(data, at, p.value, 4, order);
      NumberFits(data, at + 4, r.value, 4, order);
      NumberFits(data, at + 8, l.value, 4, order);
      NumberFits(data, at + 12, d.value, 1, order);
      var ap := AlgebraicPrime(p.value, r.value, l.value, d.value);
      forall s: seq<AlgebraicPrime> | AlgebraicListAt(data, pos, s, order) ensures s[i] == ap && EntryOk(ap) && FreshKey(got, ap) {
        EntryUnique(data, at, s[i], ap, order);
        assert forall j :: 0 <= j < i ==> s[j] == s[..i][j];
      }
      var prime := IsPrimeU32(ap.p, guess);
      if ap.p < 2 || !prime { SmallNotPrime(ap.p); return Failed(NotPrime); }
      if ap.r != PROJECTIVE_ROOT && ap.r >= ap.p { return Failed(RootOutOfRange); }
      if ap.degree == 0 { return Failed(ZeroDegree); }
      FreshKeyIs(got, ap);
      if Key(ap.p, ap.r) in keys { return Failed(Duplicate); }
      AlgebraicExtend(data, pos + 4, got, ap, order);
      AlgebraicOkExtend(got, ap);
      keys := keys + {Key(ap.p, ap.r)};
      got := got + [ap];
      forall s: seq<AlgebraicPrime> | AlgebraicListAt(data, pos, s, order) ensures s[..i + 1] == got {
        assert s[..i + 1] == s[..i] + [s[i]];
      }
    }
    forall s: seq<AlgebraicPrime> | AlgebraicListAt(data, pos, s, order) ensures s == got {
      assert s[..n] == s;
    }
    NumberIsAt(data, pos, n, 4, order);
    list := Loaded(got, pos + 4 + 13 * n);
  }

  predicate AlgebraicListAt(data: seq<U8>, pos: nat, s: seq<AlgebraicPrime>, order: ByteOrder) {
    && |s| <= MAX_COUNT && AlgebraicOk(s)
    && At(data, pos, Bytes(|s|, 4, order)) && At(data, pos + 4, AlgebraicBytes(s, order))
  }

  function PackedKeys(s: seq<AlgebraicPrime>): set<nat> {
    set i | 0 <= i < |s| :: Key(s[i].p, s[i].r)
  }

  predicate FreshKey(got: seq<AlgebraicPrime>, a: AlgebraicPrime) {
    forall j :: 0 <= j < |got| ==> (got[j].p, got[j].r) != (a.p, a.r)
  }

  lemma FreshKeyIs(got: seq<AlgebraicPrime>, a: AlgebraicPrime)
    ensures FreshKey(got, a) <==> Key(a.p, a.r) !in PackedKeys(got)
  {
    hide Key;
    if Key(a.p, a.r) in PackedKeys(got) {
      var i :| 0 <= i < |got| && Key(got[i].p, got[i].r) == Key(a.p, a.r);
      KeyInjective(got[i].p, got[i].r, a.p, a.r);
    }
  }

  predicate AlgebraicNext(data: seq<U8>, at: nat, s: seq<AlgebraicPrime>, i: nat, order: ByteOrder) {
    && i < |s| && EntryAt(data, at, s[i], order) && at + 13 <= |data| && EntryOk(s[i]) && FreshKey(s[..i], s[i])
  }

  lemma EntryUnique(data: seq<U8>, at: nat, a: AlgebraicPrime, b: AlgebraicPrime, order: ByteOrder)
    requires EntryAt(data, at, a, order) && EntryAt(data, at, b, order)
    ensures a == b
  {
    hide NumberAt;
    NumberUnique(data, at, a.p, b.p, 4, order);
    NumberUnique(data, at + 4, a.r, b.r, 4, order);
    NumberUnique(data, at + 8, a.logP, b.logP, 4, order);
    NumberUnique(data, at + 12, a.degree, b.degree, 1, order);
  }

  lemma AlgebraicCountMissing(data: seq<U8>, pos: nat, order: ByteOrder)
    requires pos + 4 > |data|
    ensures forall s :: !AlgebraicListAt(data, pos, s, order)
  {
  }

  lemma AlgebraicStart(data: seq<U8>, pos: nat, order: ByteOrder, n: nat)
    requires NumberAt(data, pos, n, 4, order)
    ensures At(data, pos + 4, AlgebraicBytes([], order))
    ensures forall s :: AlgebraicListAt(data, pos, s, order) ==> |s| == n && s[..0] == []
  {
    hide Bytes;
    hide IsPrime;
    hide AlgebraicBytes;
    Widths();
    forall s: seq<AlgebraicPrime> | AlgebraicListAt(data, pos, s, order) ensures |s| == n {
      NumberUnique(data, pos, |s|, n, 4, order);
    }
    assert AlgebraicBytes([], order) == [];
  }

  lemma AlgebraicForced(data: seq<U8>, pos: nat, s: seq<AlgebraicPrime>, i: nat, order: ByteOrder)
    requires AlgebraicListAt(data, pos, s, order) && i < |s|
    ensures AlgebraicNext(data, pos + 4 + 13 * i, s, i, order)
  {
    hide Bytes;
    hide At;
    hide IsPrime;
    hide NumberAt;
    hide AlgebraicBytes;
    AlgebraicEntry(data, pos + 4, s, i, order);
    NumberIsAt(data, pos + 4 + 13 * i + 12, s[i].degree, 1, order);
  }

  lemma AlgebraicOkExtend(got: seq<AlgebraicPrime>, a: AlgebraicPrime)
    requires AlgebraicOk(got) && EntryOk(a) && FreshKey(got, a)
    ensures AlgebraicOk(got + [a])
    ensures PackedKeys(got + [a]) == PackedKeys(got) + {Key(a.p, a.r)}
  {
    hide IsPrime;
    hide Key;
    var s := got + [a];
    assert s[|got|] == a;
    assert forall i :: 0 <= i < |got| ==> s[i] == got[i];
  }

  /**
   The loader.  It succeeds exactly on streams that start with the encoding of a base it
   accepts, in little-endian or in the host's order, and returns that base.
   */
  method LoadBase(data: seq<U8>, host: ByteOrder, guess: nat) returns (base: Loaded<Base>)
    ensures base.Loaded? ==> exists order :: Encodes(data, base.value, order, host)
                                       && base.consumed == |Encode(base.value, order)|
    ensures forall b, order :: Encodes(data, b, order, host) ==> base.Loaded? && base.value == b
  {
    hide IsPrime;
    hide Bytes;
    hide At;
    hide Encode;
    hide NumberAt;
    hide RationalBytes;
    hide AlgebraicBytes;
    hide Layout;
    hide RationalListAt;
    hide AlgebraicListAt;
    hide Header;
    hide ParamBytes;
    Widths();
    forall b, order | Encodes(data, b, order, host) ensures Layout(data, b, order) {
      LayoutIsPrefix(data, b, order);
    }
    var header := ReadHeader(data, host);
    if header.Failed? {
      forall b, order | Encodes(data, b, order, host) ensures At(data, 0, Header(order)) {
        LayoutParts(data, b, order);
      }
      return Failed(header.error);
    }
    var order := header.value;
    forall b, o | Encodes(data, b, o, host) ensures o == order && Reads(data, b, order) {
      LayoutParts(data, b, o);
      HeaderUnambiguous(data);
    }
    base := LoadBody(data, order, guess);
    if base.Loaded? {
      LayoutIsPrefix(data, base.value, order);
      assert Encodes(data, base.value, order, host);
    }
  }

  lemma LayoutParts(data: seq<U8>, b: Base, order: ByteOrder)
    requires Layout(data, b, order)
    ensures At(data, 0, Header(order)) && At(data, 8, ParamBytes(b.params, order))
    ensures NumberAt(data, 25, CountField(b), 8, order)
    ensures Acceptable(b) ==> RationalListAt(data, b.rational, order)
    ensures Acceptable(b) ==> AlgebraicListAt(data, 37 + 8 * |b.rational|, b.algebraic, order)
  {
    hide IsPrime;
    hide At;
    hide Bytes;
    hide Header;
    hide ParamBytes;
    hide RationalBytes;
    hide AlgebraicBytes;
    hide RationalOk;
    hide AlgebraicOk;
    Widths();
  }

  method LoadBody(data: seq<U8>, order: ByteOrder, guess: nat) returns (base: Loaded<Base>)
    requires At(data, 0, Header(order))
    ensures base.Loaded? ==> Reads(data, base.value, order) && base.consumed == |Encode(base.value, order)|
    ensures forall b :: Reads(data, b, order) ==> base.Loaded? && base.value == b
  {
    hide IsPrime;
    hide Bytes;
    hide At;
    hide Encode;
    hide NumberAt;
    hide RationalBytes;
    hide AlgebraicBytes;
    hide RationalListAt;
    hide AlgebraicListAt;
    hide RationalOk;
    hide AlgebraicOk;
    hide Header;
    hide ParamBytes;
    hide Layout;
    Widths();
    forall b | Reads(data, b, order) ensures PartsOf(data, b, order) {
      LayoutParts(data, b, order);
    }
    var params := ReadParams(data, order);
    if params.Failed? { return Failed(params.error); }
    var field := ReadNumber(data, 25, 8, order);
    if field.None? {
      forall b | Reads(data, b, order) ensures false {
        NumberIsAt(data, 25, CountField(b), 8, order);
      }
      return Failed(Truncated);
    }
    NumberFits(data, 25, field.value, 8, order);
    forall b | Reads(data, b, order) ensures CountField(b) == field.value {
      NumberUnique(data, 25, CountField(b), field.value, 8, order);
    }
    var explicitZero := field.value >= EXPLICIT_ZERO;
    var sac := field.value % EXPLICIT_ZERO;
    if explicitZero && sac != 0 {
      return Failed(InvalidMarker);
    }
    var rational := ReadRational(data, order, guess);
    if rational.Failed? { return Failed(rational.error); }
    var algebraic := ReadAlgebraic(data, rational.consumed, order, guess);
    if algebraic.Failed? { return Failed(algebraic.error); }
    if sac > |algebraic.value| {
      return Failed(CountTooLarge);
    }
    var result := Base(params.value, sac, explicitZero || sac != 0, rational.value, algebraic.value);
    NumberIsAt(data, 25, field.value, 8, order);
    AssembleLayout(data, result, order, field.value);
    base := Loaded(result, algebraic.consumed);
  }

  ghost predicate PartsOf(data: seq<U8>, b: Base, order: ByteOrder) {
    && At(data, 8, ParamBytes(b.params, order))
    && NumberAt(data, 25, CountField(b), 8, order)
    && RationalListAt(data, b.rational, order)
    && AlgebraicListAt(data, 37 + 8 * |b.rational|, b.algebraic, order)
    && b.sieveCount <= |b.algebraic| <= MAX_COUNT && (b.sieveCountSet || b.sieveCount == 0)
  }

  lemma AssembleLayout(data: seq<U8>, b: Base, order: ByteOrder, field: U64)
    requires At(data, 0, Header(order)) && At(data, 8, ParamBytes(b.params, order))
    requires field == CountField(b) && At(data, 25, Bytes(field, 8, order))
    requires At(data, 33, Bytes(|b.rational|, 4, order)) && At(data, 37, RationalBytes(b.rational, order))
    requires At(data, 37 + 8 * |b.rational|, Bytes(|b.algebraic|, 4, order))
    requires At(data, 41 + 8 * |b.rational|, AlgebraicBytes(b.algebraic, order))
    ensures Layout(data, b, order)
  {
  }

  // ---------- the main statements ----------

  /** Two accepted bases have encodings that start one stream only if they are the same base. */
  lemma EncodingsPrefixFree(data: seq<U8>, b: Base, c: Base, o: ByteOrder, o': ByteOrder)
    requires Acceptable(b) && Acceptable(c) && Encode(b, o) <= data && Encode(c, o') <= data
    ensures b == c && o == o'
  {
    hide Encode;
    hide Acceptable;
    LayoutIsPrefix(data, b, o);
    LayoutIsPrefix(data, c, o');
    LayoutUnique(data, b, c, o, o');
  }

  lemma LayoutUnique(data: seq<U8>, b: Base, c: Base, o: ByteOrder, o': ByteOrder)
    requires Acceptable(b) && Acceptable(c) && Layout(data, b, o) && Layout(data, c, o')
    ensures b == c && o == o'
  {
    hide IsPrime;
    hide At;
    hide Bytes;
    hide Layout;
    hide NumberAt;
    hide RationalBytes;
    hide AlgebraicBytes;
    hide Header;
    LayoutParts(data, b, o);
    LayoutParts(data, c, o');
    HeaderUnambiguous(data);
    ParamsAtBytes(data, b.params, o);
    ParamsAtBytes(data, c.params, o);
    NumberUnique(data, 8, b.params.rationalBound, c.params.rationalBound, 4, o);
    NumberUnique(data, 12, b.params.algebraicBound, c.params.algebraicBound, 4, o);
    NumberUnique(data, 16, b.params.largePrimeBound, c.params.largePrimeBound, 8, o);
    NumberUnique(data, 24, b.params.logScale, c.params.logScale, 1, o);
    NumberUnique(data, 25, CountField(b), CountField(c), 8, o);
    RationalUnique(data, b.rational, c.rational, o);
    AlgebraicUnique(data, 37 + 8 * |b.rational|, b.algebraic, c.algebraic, o);
  }

  lemma RationalUnique(data: seq<U8>, s: seq<RationalPrime>, t: seq<RationalPrime>, order: ByteOrder)
    requires RationalListAt(data, s, order) && RationalListAt(data, t, order)
    ensures s == t
  {
    hide IsPrime;
    hide Bytes;
    Widths();
    NumberUnique(data, 33, |s|, |t|, 4, order);
    hide At;
    hide NumberAt;
    hide RationalBytes;
    forall i | 0 <= i < |s| ensures s[i] == t[i] {
      RationalEntry(data, 37, s, i, order);
      RationalEntry(data, 37, t, i, order);
      NumberUnique(data, 37 + 8 * i, s[i].p, t[i].p, 4, order);
      NumberUnique(data, 37 + 8 * i + 4, s[i].logP, t[i].logP, 4, order);
    }
  }

  lemma AlgebraicUnique(data: seq<U8>, pos: nat, s: seq<AlgebraicPrime>, t: seq<AlgebraicPrime>, order: ByteOrder)
    requires AlgebraicListAt(data, pos, s, order) && AlgebraicListAt(data, pos, t, order)
    ensures s == t
  {
    hide IsPrime;
    hide Bytes;
    Widths();
    NumberUnique(data, pos, |s|, |t|, 4, order);
    hide At;
    hide NumberAt;
    hide AlgebraicBytes;
    hide EntryAt;
    forall i | 0 <= i < |s| ensures s[i] == t[i] {
      AlgebraicEntry(data, pos + 4, s, i, order);
      AlgebraicEntry(data, pos + 4, t, i, order);
      EntryUnique(data, pos + 4 + 13 * i, s[i], t[i], order);
    }
  }

  /** Loading into an object rebuilds the lookup tables. */
  method Load(data: seq<U8>, host: ByteOrder, guess: nat) returns (fb: FactorBase?, consumed: nat)
    ensures fb == null <==> forall b, order :: !Encodes(data, b, order, host)
    ensures fb != null ==> fresh(fb) && fb.Valid()
    ensures fb != null ==>
      exists order :: Encodes(data, fb.Contents(), order, host) && consumed == |Encode(fb.Contents(), order)|
  {
    hide Encode;
    hide IsPrime;
    fb, consumed := null, 0;
    var base := LoadBase(data, host, guess);
    if base.Loaded? {
      var b := base.value;
      fb := new FactorBase(b.params);
      fb.sieveCount, fb.sieveCountSet := b.sieveCount, b.sieveCountSet;
      fb.rational, fb.algebraic := b.rational, b.algebraic;
      var ok := fb.BuildIndex();
      consumed := base.consumed;
    }
  }

  /** Whatever the object contains and whatever follows it, load undoes save. */
  method SaveThenLoad(fb: FactorBase, tail: seq<U8>, host: ByteOrder, guess: nat) returns (back: FactorBase?)
    requires fb.Valid() && Acceptable(fb.Contents())
    ensures back != null && back.Valid() && back.Contents() == fb.Contents()
  {
    hide Encode;
    hide Acceptable;
    var os := new OutputStream();
    assert fb.sieveCount <= |fb.algebraic| by { CountInside(fb.Contents()); }
    var ok := Save(fb, os);
    os.Write(tail);
    ghost var b := fb.Contents();
    assert Encodes(os.written, b, Little, host);
    var consumed;
    back, consumed := Load(os.written, host, guess);
    ghost var order :| Encodes(os.written, back.Contents(), order, host);
    EncodingsPrefixFree(os.written, b, back.Contents(), Little, order);
  }

  lemma CountInside(b: Base)
    requires Acceptable(b)
    ensures b.sieveCount <= |b.algebraic|
  {
  }

  /** Saving what was loaded from a little-endian stream writes the bytes that were consumed. */
  method LoadThenSave(data: seq<U8>, host: ByteOrder, guess: nat) returns (again: seq<U8>, consumed: nat, ok: bool)
    requires At(data, 0, Header(Little))
    ensures ok ==> consumed <= |data| && again == data[..consumed]
    ensures !ok ==> forall b, order :: !Encodes(data, b, order, host)
  {
    hide Encode;
    hide Acceptable;
    var fb;
    fb, consumed := Load(data, host, guess);
    if fb == null {
      return [], 0, false;
    }
    ghost var order :| Encodes(data, fb.Contents(), order, host) && consumed == |Encode(fb.Contents(), order)|;
    assert order == Little by {
      LayoutIsPrefix(data, fb.Contents(), order);
      LayoutParts(data, fb.Contents(), order);
      HeaderUnambiguous(data);
    }
    CountInside(fb.Contents());
    var os := new OutputStream();
    var saved := Save(fb, os);
    again, ok := os.written, true;
  }
}
