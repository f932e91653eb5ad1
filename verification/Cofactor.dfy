module Cofactor {
  /**
   Cofactor identities and their random streams (src/cofactor/attempt_context.cpp 21-38, 60-77,
   89-102, 118-151).  SHA-256 enters as an arbitrary function on byte strings.
   */

  import opened Optional
  import opened NumberTheory
  import opened ByteEncoding

  type Sha = seq<U8> -> seq<U8>

  // ---------- big-endian integers ----------

  /** Byte i holds value >> 8 * (7 - i), truncated to eight bits. */
  method EncodeU64Be(value: U64) returns (encoded: array<U8>)
    ensures fresh(encoded) && encoded[..] == Bytes(value, 8, Big)
  {
    encoded := new U8[8](_ => 0);
    for index := 0 to 8
      invariant forall k :: 0 <= k < index ==> encoded[k] == value / Pow256(7 - k) % 256
    {
      encoded[index] := value / Pow256(7 - index) % 256;
    }
    forall k | 0 <= k < 8 ensures encoded[k] == Bytes(value, 8, Big)[k] {
      LittleByte(value, 8, 7 - k);
    }
  }

  lemma {:induction false} LittleByte(v: nat, size: nat, k: nat)
    requires k < size
    ensures LittleBytes(v, size)[k] == v / Pow256(k) % 256
  {
    if k > 0 {
      LittleByte(v / 256, size - 1, k - 1);
      DivideTwice(v, 256, Pow256(k - 1));
    }
  }

  lemma DivideTwice(v: nat, a: nat, b: nat)
    requires a > 0 && b > 0
    ensures a * b > 0 && v / a / b == v / (a * b)
  {
    MulMonotone(a, 1, b);
    DivideParts(v, a, b, a * b, v / a, v % a, v / a / b, v / a % b);
  }

  lemma DivideParts(v: nat, a: nat, b: nat, m: nat, q: nat, r: nat, s: nat, t: nat)
    requires m == a * b && m > 0 && v == a * q + r && q == b * s + t && r < a && t < b
    ensures v / m == s
  {
    Regroup(v, a, b, q, r, s, t);
    SmallRemainder(a, b, t, r);
    QuotientIs(v, m, s, a * t + r);
  }

  lemma Regroup(v: int, a: int, b: int, q: int, r: int, s: int, t: int)
    requires v == a * q + r && q == b * s + t
    ensures v == (a * b) * s + (a * t + r)
  {
    Distribute(a, b * s, t);
    assert a * (b * s) == (a * b) * s;
  }

  lemma SmallRemainder(a: nat, b: nat, t: nat, r: nat)
    requires 0 <= t < b && 0 <= r < a
    ensures 0 <= a * t + r < a * b
  {
    Distribute(a, t, 1);
    MulMonotone(a, t + 1, b);
    MulMonotone(a, 0, t);
  }

  /** The minimal big-endian bytes of n; none for zero. */
  function Magnitude(n: nat): seq<U8> {
    if n == 0 then [] else Magnitude(n / 256) + [n % 256]
  }

  function FromBig(bytes: seq<U8>): nat {
    if |bytes| == 0 then 0 else 256 * FromBig(bytes[..|bytes| - 1]) + bytes[|bytes| - 1]
  }

  lemma {:induction false} MagnitudeInverse(n: nat)
    ensures FromBig(Magnitude(n)) == n
    ensures Magnitude(n) == [] <==> n == 0
    ensures n > 0 ==> Magnitude(n)[0] != 0
  {
    if n > 0 {
      MagnitudeInverse(n / 256);
      var m := Magnitude(n);
      assert m[..|m| - 1] == Magnitude(n / 256);
    }
  }

  /** Rounding the bit count up to bytes reserves exactly the bytes that are written. */
  lemma {:induction false} MagnitudeLength(n: nat)
    ensures |Magnitude(n)| == BitLength(n) / 8 + if BitLength(n) % 8 != 0 then 1 else 0
  {
    if n > 0 {
      MagnitudeLength(n / 256);
      if n >= 256 {
        EightBits(n);
      } else {
        SmallBitLength(n);
        assert n / 256 == 0;
      }
    }
  }

  lemma EightBits(n: nat)
    requires n >= 256
    ensures BitLength(n) == BitLength(n / 256) + 8
  {
    var h1 := n / 2;
    var h2 := h1 / 2;
    var h3 := h2 / 2;
    var h4 := h3 / 2;
    var h5 := h4 / 2;
    var h6 := h5 / 2;
    var h7 := h6 / 2;
    var h8 := h7 / 2;
    assert h8 == n / 256;
    assert BitLength(n) == 1 + BitLength(h1);
    assert BitLength(h1) == 1 + BitLength(h2);
    assert BitLength(h2) == 1 + BitLength(h3);
    assert BitLength(h3) == 1 + BitLength(h4);
    assert BitLength(h4) == 1 + BitLength(h5);
    assert BitLength(h5) == 1 + BitLength(h6);
    assert BitLength(h6) == 1 + BitLength(h7);
    assert BitLength(h7) == 1 + BitLength(h8);
  }

  lemma SmallBitLength(n: nat)
    requires 0 < n < 256
    ensures 1 <= BitLength(n) <= 8
  {
    BitLengthBelow(n, 8);
  }

  lemma {:induction false} BitLengthBelow(n: nat, k: nat)
    requires n < Pow2(k)
    ensures BitLength(n) <= k
  {
    if n > 0 {
      BitLengthBelow(n / 2, k - 1);
    }
  }

  function Pow2(k: nat): nat {
    if k == 0 then 1 else 2 * Pow2(k - 1)
  }

  function Abs(x: int): nat {
    if x < 0 then -x else x
  }

  /** The exported magnitude; None stands for the internal error, which never occurs. */
  method ExportUnsignedMagnitude(value: int) returns (bytes: Option<seq<U8>>)
    ensures bytes == Some(Magnitude(Abs(value)))
  {
    if value == 0 {
      return Some([]);
    }
    var bitCount := BitLength(Abs(value));
    var byteCount := bitCount / 8 + if bitCount % 8 != 0 then 1 else 0;
    var written := Magnitude(Abs(value));
    MagnitudeLength(Abs(value));
    if |written| > byteCount {
      return None;
    }
    bytes := Some(written);
  }

  // ---------- the canonical input ----------

  function InputDomain(): (r: seq<U8>)
    ensures |r| == 22
  {
    [71, 78, 70, 83, 45, 67, 79, 70, 65, 67, 84, 79, 82, 45, 73, 78, 80, 85, 84, 45, 86, 49]
  }

  function StreamDomain(): (r: seq<U8>)
    ensures |r| == 30
  {
    [71, 78, 70, 83, 45, 67, 79, 70, 65, 67, 84, 79, 82, 45, 82, 65, 78, 68, 79, 77, 45, 83, 84, 82, 69, 65, 77, 45, 86, 49]
  }

  /** Rational is 0 and algebraic 1; the other values of the enumeration's type are refused. */
  function SideTag(side: U8): Option<U8> {
    if side == 0 || side == 1 then Some(side) else None
  }

  /** The byte string that is hashed. */
  function Preimage(cofactor: int, tag: U8): seq<U8> {
    var magnitude := Magnitude(Abs(cofactor));
    InputDomain() + [tag] + Bytes(Low64(|magnitude|), 8, Big) + magnitude
  }

  /** The conversion of a size to 64 bits. */
  function Low64(n: nat): U64 {
    n % 0x1_0000_0000_0000_0000
  }

  /** SHA-256 takes messages of fewer than 2^64 bits. */
  const MAX_MESSAGE := 0x2000_0000_0000_0000 - 1

  class Accumulator {
    var message: seq<U8>

    constructor ()
      ensures message == []
    {
      message := [];
    }

    /** Refused, and without effect, when the message would become too long. */
    method Update(bytes: seq<U8>) returns (ok: bool)
      modifies this
      ensures ok <==> |old(message)| + |bytes| <= MAX_MESSAGE
      ensures message == if ok then old(message) + bytes else old(message)
    {
      ok := |message| + |bytes| <= MAX_MESSAGE;
      if ok {
        message := message + bytes;
      }
    }
  }

  datatype DigestResult = Digest(value: seq<U8>) | UnknownSide | TooLong

  method CanonicalDigest(sha: Sha, cofactor: int, side: U8) returns (r: DigestResult)
    ensures r == UnknownSide <==> side > 1
    ensures r.Digest? <==> side <= 1 && 8 * |Preimage(cofactor, side)| < 0x1_0000_0000_0000_0000
    ensures r.Digest? ==> r.value == sha(Preimage(cofactor, side))
  {
    hide Magnitude;
    hide Bytes;
    hide InputDomain;
    hide Low64;
    hide Abs;
    var tag := SideTag(side);
    if tag.None? {
      return UnknownSide;
    }
    var magnitude := ExportUnsignedMagnitude(cofactor);
    var length := EncodeU64Be(Low64(|magnitude.value|));
    var acc := new Accumulator();
    var ok := acc.Update(InputDomain());
    ok := acc.Update([tag.value]);
    ok := acc.Update(length[..]);
    ghost var head := InputDomain() + [tag.value] + length[..];
    assert ok && acc.message == head && |head| == 31;
    ok := acc.Update(magnitude.value);
    if !ok {
      return TooLong;
    }
    r := Digest(sha(acc.message));
  }

  lemma InputText()
    ensures forall k :: 0 <= k < 22 ==> InputDomain()[k] == "GNFS-COFACTOR-INPUT-V1"[k] as nat
  {
  }

  lemma StreamText()
    ensures forall k :: 0 <= k < 30 ==> StreamDomain()[k] == "GNFS-COFACTOR-RANDOM-STREAM-V1"[k] as nat
  {
  }

  /** The canonical bytes, field by field. */
  lemma PreimageFields(c: int, tag: U8)
    requires |Magnitude(Abs(c))| < 0x1_0000_0000_0000_0000
    ensures var p := Preimage(c, tag);
      && |p| >= 31
      && (forall k :: 0 <= k < 22 ==> p[k] == "GNFS-COFACTOR-INPUT-V1"[k] as nat)
      && p[22] == tag
      && Decode(p[23..31], Big) == |p| - 31
      && FromBig(p[31..]) == (if c < 0 then -c else c)
      && (|p| > 31 ==> p[31] != 0)
  {
    hide Magnitude;
    hide Bytes;
    hide InputDomain;
    hide Decode;
    hide FromBig;
    InputText();
    var p, m := Preimage(c, tag), Magnitude(Abs(c));
    assert p[..22] == InputDomain();
    assert forall k :: 0 <= k < 22 ==> p[k] == p[..22][k];
    assert p[23..31] == Bytes(|m|, 8, Big);
    assert p[31..] == m && (|m| > 0 ==> p[31] == m[0]);
    Widths();
    DecodeInverse(|m|, 8, Big);
    MagnitudeInverse(Abs(c));
  }

  /** The hashed bytes determine the side and the absolute value of the cofactor, and nothing else. */
  lemma PreimageInjective(c: int, t: U8, c': int, t': U8)
    ensures Preimage(c, t) == Preimage(c', t') <==> t == t' && Abs(c) == Abs(c')
  {
    hide Magnitude;
    hide Bytes;
    hide InputDomain;
    var p, p' := Preimage(c, t), Preimage(c', t');
    if p == p' {
      assert p[22] == t && p'[22] == t';
      assert p[31..] == Magnitude(Abs(c)) && p'[31..] == Magnitude(Abs(c'));
      MagnitudeInverse(Abs(c));
      MagnitudeInverse(Abs(c'));
    }
  }

  /** Because the length is written first, no preimage starts with another one. */
  lemma PreimagePrefixFree(c: int, t: U8, c': int, t': U8)
    requires |Preimage(c, t)| <= MAX_MESSAGE && |Preimage(c', t')| <= MAX_MESSAGE
    requires Preimage(c, t) <= Preimage(c', t')
    ensures t == t' && Abs(c) == Abs(c')
  {
    hide Magnitude;
    hide Bytes;
    hide InputDomain;
    var p, p' := Preimage(c, t), Preimage(c', t');
    var m, m' := Magnitude(Abs(c)), Magnitude(Abs(c'));
    assert p[23..31] == Bytes(|m|, 8, Big) && p'[23..31] == Bytes(|m'|, 8, Big);
    assert p'[..|p|] == p;
    assert p'[23..31] == p'[..|p|][23..31];
    Widths();
    DecodeInverse(|m|, 8, Big);
    DecodeInverse(|m'|, 8, Big);
    PreimageInjective(c, t, c', t');
  }

  // ---------- the draw stream ----------

  function Block(sha: Sha, seed: seq<U8>, ordinal: U64): seq<U8> {
    sha(StreamDomain() + seed + Bytes(ordinal, 8, Big))
  }

  /** The first eight bytes of a digest, most significant first. */
  method FirstU64Be(digest: seq<U8>) returns (value: nat)
    requires |digest| >= 8
    ensures value == Decode(digest[..8], Big) && value < 0x1_0000_0000_0000_0000
  {
    value := 0;
    for index := 0 to 8
      invariant value == FromBig(digest[..index])
    {
      assert digest[..index + 1][..index] == digest[..index];
      value := value * 256 + digest[index];
    }
    BigIsReversed(digest[..8]);
    Widths();
    DecodeOnto(digest[..8], Big);
  }

  lemma {:induction false} BigIsReversed(bytes: seq<U8>)
    ensures FromBig(bytes) == FromLittle(Reverse(bytes))
  {
    if |bytes| > 0 {
      BigIsReversed(bytes[..|bytes| - 1]);
      assert Reverse(bytes)[1..] == Reverse(bytes[..|bytes| - 1]);
    }
  }

  /** Different ordinals of one seed hash different messages. */
  lemma OrdinalsDiffer(seed: seq<U8>, i: U64, j: U64)
    ensures StreamDomain() + seed + Bytes(i, 8, Big) == StreamDomain() + seed + Bytes(j, 8, Big) <==> i == j
  {
    hide Bytes;
    hide StreamDomain;
    var head := StreamDomain() + seed;
    if head + Bytes(i, 8, Big) == head + Bytes(j, 8, Big) {
      assert (head + Bytes(i, 8, Big))[|head|..] == Bytes(i, 8, Big);
      assert (head + Bytes(j, 8, Big))[|head|..] == Bytes(j, 8, Big);
      Widths();
      DecodeInverse(i, 8, Big);
      DecodeInverse(j, 8, Big);
    }
  }

  /** What is hashed for a draw, field by field. */
  lemma BlockFields(seed: seq<U8>, ordinal: U64)
    ensures var m := Block(x => x, seed, ordinal);
      && |m| == 38 + |seed|
      && (forall k :: 0 <= k < 30 ==> m[k] == "GNFS-COFACTOR-RANDOM-STREAM-V1"[k] as nat)
      && m[30..30 + |seed|] == seed
      && Decode(m[30 + |seed|..], Big) == ordinal
  {
    hide Bytes;
    hide StreamDomain;
    hide Decode;
    StreamText();
    var m := Block(x => x, seed, ordinal);
    assert m == StreamDomain() + seed + Bytes(ordinal, 8, Big);
    assert m[..30] == StreamDomain();
    assert forall k :: 0 <= k < 30 ==> m[k] == m[..30][k];
    assert m[30 + |seed|..] == Bytes(ordinal, 8, Big);
    Widths();
    DecodeInverse(ordinal, 8, Big);
  }

  lemma BlockIsHash(sha: Sha, seed: seq<U8>, ordinal: U64)
    ensures Block(sha, seed, ordinal) == sha(Block(x => x, seed, ordinal))
  {
  }

  /** Without collisions of the hash, blocks of 32-byte seeds are equal only for one seed and one ordinal. */
  lemma BlocksDiffer(sha: Sha, s: seq<U8>, t: seq<U8>, i: U64, j: U64)
    requires forall x, y :: sha(x) == sha(y) ==> x == y
    requires |s| == |t| == 32
    ensures Block(sha, s, i) == Block(sha, t, j) <==> s == t && i == j
  {
    BlockIsHash(sha, s, i);
    BlockIsHash(sha, t, j);
    BlockFields(s, i);
    BlockFields(t, j);
    hide Block;
    hide Decode;
  }

  /** No draw of any stream hashes the canonical input of any cofactor. */
  lemma StreamNeverCanonical(seed: seq<U8>, ordinal: U64, c: int, tag: U8)
    ensures Block(x => x, seed, ordinal) != Preimage(c, tag)
  {
    hide Block;
    hide Bytes;
    hide Magnitude;
    BlockFields(seed, ordinal);
    var m, p := Block(x => x, seed, ordinal), Preimage(c, tag);
    assert p[14] == InputDomain()[14] == 73;
    assert m[14] == "GNFS-COFACTOR-RANDOM-STREAM-V1"[14] as nat == 82;
  }

  const LAST: U64 := 0xFFFF_FFFF_FFFF_FFFF

  datatype Draw = BlockDraw(block: seq<U8>) | WordDraw(word: nat)

  /** What a draw with the given ordinal yields. */
  function DrawAt(sha: Sha, seed: seq<U8>, ordinal: U64, word: bool): Draw
    requires |Block(sha, seed, ordinal)| >= 8
  {
    if word then WordDraw(Decode(Block(sha, seed, ordinal)[..8], Big)) else BlockDraw(Block(sha, seed, ordinal))
  }

  /** Without collisions of the hash, no two block draws of one stream are equal. */
  lemma DrawsDiffer(sha: Sha, seed: seq<U8>, i: U64, j: U64)
    requires forall x, y :: sha(x) == sha(y) ==> x == y
    requires forall ordinal: U64 :: |Block(sha, seed, ordinal)| >= 8
    requires |seed| == 32
    ensures DrawAt(sha, seed, i, false) == DrawAt(sha, seed, j, false) <==> i == j
    ensures DrawAt(sha, seed, i, true) == WordDraw(FromBig(Block(sha, seed, i)[..8]))
  {
    hide Block;
    BlocksDiffer(sha, seed, seed, i, j);
    BigIsReversed(Block(sha, seed, i)[..8]);
  }

  class Seed256Stream {
    const seed: seq<U8>
    var drawOrdinal: U64
    var exhausted: bool

    /** The ordinal of the next draw; 2^64 when there is none. */
    function Position(): nat
      reads this
    {
      if exhausted then LAST + 1 else drawOrdinal
    }

    constructor (seed: seq<U8>, initial: U64)
      ensures this.seed == seed && Position() == initial
    {
      this.seed := seed;
      drawOrdinal, exhausted := initial, false;
    }

    method NextBlock(sha: Sha) returns (block: Option<seq<U8>>)
      modifies this
      ensures block.None? <==> old(Position()) > LAST
      ensures block.Some? ==> block.value == Block(sha, seed, old(Position())) && Position() == old(Position()) + 1
      ensures block.None? ==> Position() == old(Position())
    {
      if exhausted {
        return None;
      }
      block := Some(Block(sha, seed, drawOrdinal));
      Advance();
    }

    method NextU64(sha: Sha) returns (word: Option<nat>)
      requires forall ordinal: U64 :: |Block(sha, seed, ordinal)| >= 8
      modifies this
      ensures word.None? <==> old(Position()) > LAST
      ensures word.Some? ==> word.value == Decode(Block(sha, seed, old(Position()))[..8], Big)
      ensures word.Some? ==> Position() == old(Position()) + 1
      ensures word.None? ==> Position() == old(Position())
    {
      if exhausted {
        return None;
      }
      var value := FirstU64Be(Block(sha, seed, drawOrdinal));
      word := Some(value);
      Advance();
    }

    method Advance()
      requires !exhausted
      modifies this
      ensures Position() == old(Position()) + 1
    {
      if drawOrdinal == LAST {
        exhausted := true;
        return;
      }
      drawOrdinal := drawOrdinal + 1;
    }
  }

  /**
   Any mix of block and word draws: draw i uses ordinal initial + i as long as that is at
   most 2^64 - 1, so each ordinal is used exactly once, and yields nothing afterwards.
   */
  method DrawMix(sha: Sha, seed: seq<U8>, initial: U64, words: seq<bool>) returns (draws: seq<Option<Draw>>)
    requires forall ordinal: U64 :: |Block(sha, seed, ordinal)| >= 8
    ensures |draws| == |words|
    ensures forall i :: 0 <= i < |words| ==>
      draws[i] == if initial + i <= LAST then Some(DrawAt(sha, seed, initial + i, words[i])) else None
    ensures (forall x, y :: sha(x) == sha(y) ==> x == y) && |seed| == 32 ==>
      forall i, k :: 0 <= i < k < |draws| && !words[i] && !words[k] && draws[i].Some? && draws[k].Some? ==>
        draws[i] != draws[k]
  {
    hide Block;
    hide Decode;
    var stream := new Seed256Stream(seed, initial);
    draws := [];
    for i := 0 to |words|
      invariant fresh(stream) && stream.seed == seed && |draws| == i
      invariant stream.Position() == if initial + i <= LAST then initial + i else LAST + 1
      invariant forall k :: 0 <= k < i ==>
        draws[k] == if initial + k <= LAST then Some(DrawAt(sha, seed, initial + k, words[k])) else None
    {
      if words[i] {
        var word := stream.NextU64(sha);
        draws := draws + [if word.Some? then Some(WordDraw(word.value)) else None];
      } else {
        var block := stream.NextBlock(sha);
        draws := draws + [if block.Some? then Some(BlockDraw(block.value)) else None];
      }
    }
    if (forall x, y :: sha(x) == sha(y) ==> x == y) && |seed| == 32 {
      forall i, k | 0 <= i < k < |draws| && !words[i] && !words[k] && draws[i].Some? && draws[k].Some?
        ensures draws[i] != draws[k]
      {
        DrawsDiffer(sha, seed, initial + i, initial + k);
      }
    }
  }
}
