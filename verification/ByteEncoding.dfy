/** Unsigned integers of fixed width and their bytes, least or most significant first. */
module ByteEncoding {
  type U8 = x: nat | x < 0x100
  type U32 = x: nat | x < 0x1_0000_0000
  type U64 = x: nat | x < 0x1_0000_0000_0000_0000

  datatype ByteOrder = Little | Big

  function Pow256(size: nat): (r: nat)
    ensures r > 0
  {
    if size == 0 then 1 else 256 * Pow256(size - 1)
  }

  /** The low `size` bytes of v, least significant first. */
  function LittleBytes(v: nat, size: nat): (r: seq<U8>)
    ensures |r| == size
  {
    if size == 0 then [] else [v % 256] + LittleBytes(v / 256, size - 1)
  }

  function FromLittle(bytes: seq<U8>): nat {
    if |bytes| == 0 then 0 else bytes[0] + 256 * FromLittle(bytes[1..])
  }

  function Reverse(s: seq<U8>): (r: seq<U8>)
    ensures |r| == |s| && forall i :: 0 <= i < |s| ==> r[i] == s[|s| - 1 - i]
  {
    seq(|s|, i requires 0 <= i < |s| => s[|s| - 1 - i])
  }

  function Bytes(v: nat, size: nat, order: ByteOrder): (r: seq<U8>)
    ensures |r| == size
  {
    if order.Little? then LittleBytes(v, size) else Reverse(LittleBytes(v, size))
  }

  function Decode(bytes: seq<U8>, order: ByteOrder): nat {
    FromLittle(if order.Little? then bytes else Reverse(bytes))
  }

  lemma {:induction false} LittleInverse(v: nat, size: nat)
    requires v < Pow256(size)
    ensures FromLittle(LittleBytes(v, size)) == v
  {
    if size > 0 {
      LittleInverse(v / 256, size - 1);
      assert LittleBytes(v, size)[1..] == LittleBytes(v / 256, size - 1);
    }
  }

  lemma {:induction false} LittleOnto(bytes: seq<U8>)
    ensures FromLittle(bytes) < Pow256(|bytes|) && LittleBytes(FromLittle(bytes), |bytes|) == bytes
  {
    if |bytes| > 0 {
      LittleOnto(bytes[1..]);
      assert bytes == [bytes[0]] + bytes[1..];
    }
  }

  /** Encoding and decoding of an integer are inverse, in both byte orders. */
  lemma DecodeInverse(v: nat, size: nat, order: ByteOrder)
    requires v < Pow256(size)
    ensures Decode(Bytes(v, size, order), order) == v
  {
    LittleInverse(v, size);
    var b := LittleBytes(v, size);
    assert Reverse(Reverse(b)) == b;
  }

  lemma DecodeOnto(bytes: seq<U8>, order: ByteOrder)
    ensures Decode(bytes, order) < Pow256(|bytes|) && Bytes(Decode(bytes, order), |bytes|, order) == bytes
  {
    LittleOnto(bytes);
    LittleOnto(Reverse(bytes));
    assert Reverse(Reverse(bytes)) == bytes;
  }

  lemma Widths()
    ensures Pow256(1) == 0x100 && Pow256(4) == 0x1_0000_0000 && Pow256(8) == 0x1_0000_0000_0000_0000
  {
    assert Pow256(2) == 0x10000;
    assert Pow256(3) == 0x100_0000;
    assert Pow256(5) == 0x100_0000_0000;
    assert Pow256(6) == 0x1_0000_0000_0000;
    assert Pow256(7) == 0x100_0000_0000_0000;
  }
}
