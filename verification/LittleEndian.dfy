/** 64-bit words as little-endian bytes: the ring's stamps and cursor, and the sequence header of
    every benchmark message. */
module LittleEndian {
  import opened Basics

  const U64_LIMIT: nat := 0x1_0000_0000_0000_0000

  function Pow256(n: nat): nat {
    if n == 0 then 1 else 256 * Pow256(n - 1)
  }

  function Encode(v: nat, n: nat): (bs: Bytes)
    ensures |bs| == n
  {
    if n == 0 then [] else [(v % 256) as Byte] + Encode(v / 256, n - 1)
  }

  function Decode(bs: Bytes): nat {
    if bs == [] then 0 else bs[0] as nat + 256 * Decode(bs[1..])
  }

  function U64(v: nat): Bytes {
    Encode(v, 8)
  }

  lemma EightBytes()
    ensures Pow256(8) == U64_LIMIT
  {
    assert Pow256(4) == 0x1_0000_0000;
  }

  lemma {:induction false} DecodeEncode(v: nat, n: nat)
    requires v < Pow256(n)
    ensures Decode(Encode(v, n)) == v
  {
    if n > 0 {
      DecodeEncode(v / 256, n - 1);
      assert Encode(v, n)[1..] == Encode(v / 256, n - 1);
    }
  }

  lemma {:induction false} EncodeDecode(bs: Bytes)
    ensures Decode(bs) < Pow256(|bs|) && Encode(Decode(bs), |bs|) == bs
  {
    if bs != [] {
      EncodeDecode(bs[1..]);
      assert [bs[0]] + bs[1..] == bs;
    }
  }

  lemma DivideTwice(v: nat, c: Positive)
    ensures v / 256 / c == v / (256 * c)
  {
    var w := v / 256;
    var q, r := w / c, w % c;
    assert w == q * c + r;
    assert 256 * (q * c) == q * (256 * c);
    RemainderIsUnique(v, q, 256 * r + v % 256, 256 * c);
  }

  /** Byte `k`, counted from the front, is the digit of weight 256^k. */
  lemma {:induction false} ByteIsDigit(v: nat, n: nat, k: nat)
    requires k < n
    ensures Pow256(k) > 0 && Encode(v, n)[k] as nat == v / Pow256(k) % 256
  {
    if k > 0 {
      ByteIsDigit(v / 256, n - 1, k - 1);
      DivideTwice(v, Pow256(k - 1));
    }
  }

  /** The eight bytes of a word, least significant first. */
  lemma BytesOfU64(v: nat)
    ensures U64(v)[0] as nat == v % 256
    ensures U64(v)[1] as nat == v / 0x100 % 256
    ensures U64(v)[2] as nat == v / 0x1_0000 % 256
    ensures U64(v)[3] as nat == v / 0x100_0000 % 256
    ensures U64(v)[4] as nat == v / 0x1_0000_0000 % 256
    ensures U64(v)[5] as nat == v / 0x100_0000_0000 % 256
    ensures U64(v)[6] as nat == v / 0x1_0000_0000_0000 % 256
    ensures U64(v)[7] as nat == v / 0x100_0000_0000_0000 % 256
  {
    SmallPowers();
    forall k: nat | k < 8
      ensures Pow256(k) > 0 && U64(v)[k] as nat == v / Pow256(k) % 256
    {
      ByteIsDigit(v, 8, k);
    }
  }

  lemma SmallPowers()
    ensures Pow256(0) == 1 && Pow256(1) == 0x100 && Pow256(2) == 0x1_0000 && Pow256(3) == 0x100_0000
    ensures Pow256(4) == 0x1_0000_0000 && Pow256(5) == 0x100_0000_0000
    ensures Pow256(6) == 0x1_0000_0000_0000 && Pow256(7) == 0x100_0000_0000_0000
  {
    assert Pow256(2) == 0x1_0000;
    assert Pow256(4) == 0x1_0000_0000;
    assert Pow256(6) == 0x1_0000_0000_0000;
  }

  /** Every value below 2^64 survives the trip through its eight bytes, and no two share them. */
  lemma U64RoundTrip(v: nat)
    requires v < U64_LIMIT
    ensures |U64(v)| == 8 && Decode(U64(v)) == v
    ensures forall bs: Bytes :: |bs| == 8 && Decode(bs) == v ==> bs == U64(v)
  {
    EightBytes();
    DecodeEncode(v, 8);
    forall bs: Bytes | |bs| == 8 && Decode(bs) == v
      ensures bs == U64(v)
    {
      EncodeDecode(bs);
    }
  }

  lemma {:induction false} ZerosDecodeToZero(bs: Bytes)
    requires forall k :: 0 <= k < |bs| ==> bs[k] == 0
    ensures Decode(bs) == 0
  {
    if bs != [] {
      ZerosDecodeToZero(bs[1..]);
    }
  }
}
