/** The 8-byte length header that precedes every message in the byte queue.
    The source copies the object representation of a `size_t` into the ring;
    its byte order is the machine's. The model fixes little-endian order: only
    the facts that the header is 8 bytes and that decoding undoes encoding are
    relied upon. */
module SizeHeader {
  import opened Basics

  /** `sizeof(size_t)`. */
  const HEADER_SIZE: nat := 8

  /** 256^k: the number of values k bytes can hold. */
  function Pow256(k: nat): (p: nat)
    ensures p >= 1
  {
    if k == 0 then 1 else 256 * Pow256(k - 1)
  }

  /** The k low-order bytes of x, least significant first. */
  function EncodeLE(x: nat, k: nat): (s: seq<byte>)
    ensures |s| == k
  {
    if k == 0 then [] else [x % 256] + EncodeLE(x / 256, k - 1)
  }

  /** The number whose little-endian bytes are s. */
  function DecodeLE(s: seq<byte>): (x: nat)
    ensures x < Pow256(|s|)
  {
    if s == [] then 0 else s[0] + 256 * DecodeLE(s[1..])
  }

  /** Decoding undoes encoding for every value that fits in k bytes. */
  lemma {:induction false} DecodeEncodeLE(x: nat, k: nat)
    requires x < Pow256(k)
    ensures DecodeLE(EncodeLE(x, k)) == x
  {
    if k > 0 {
      var s := EncodeLE(x, k);
      assert s[1..] == EncodeLE(x / 256, k - 1);
      assert x / 256 < Pow256(k - 1);
      DecodeEncodeLE(x / 256, k - 1);
    }
  }

  /** Encoding undoes decoding: every byte string is the encoding of its value. */
  lemma {:induction false} EncodeDecodeLE(s: seq<byte>)
    ensures EncodeLE(DecodeLE(s), |s|) == s
  {
    if s != [] {
      var x := DecodeLE(s);
      assert x % 256 == s[0] && x / 256 == DecodeLE(s[1..]) by {
        ModUnique(x, 256, DecodeLE(s[1..]), s[0]);
      }
      EncodeDecodeLE(s[1..]);
    }
  }

  /** Eight bytes hold exactly the `size_t` values. */
  lemma Pow256Eight()
    ensures Pow256(HEADER_SIZE) == WORD
  {
    assert Pow256(0) == 1;
    assert Pow256(1) == 256;
    assert Pow256(2) == 0x1_0000;
    assert Pow256(4) == 0x1_0000_0000 by {
      assert Pow256(3) == 0x100_0000;
    }
    assert Pow256(6) == 0x1_0000_0000_0000 by {
      assert Pow256(5) == 0x100_0000_0000;
    }
    assert Pow256(7) == 0x100_0000_0000_0000;
  }

  /** The header written for a payload of `size` bytes (`memcpy` of a `size_t`). */
  function EncodeLength(size: nat): (h: seq<byte>)
    requires size < WORD
    ensures |h| == HEADER_SIZE
  {
    EncodeLE(size, HEADER_SIZE)
  }

  /** The `size_t` read back from an 8-byte header. */
  function DecodeLength(h: seq<byte>): (size: nat)
    requires |h| == HEADER_SIZE
    ensures size < WORD
  {
    Pow256Eight();
    DecodeLE(h)
  }

  /** Reading a header back yields the length that was written. */
  lemma DecodeEncodeLength(size: nat)
    requires size < WORD
    ensures DecodeLength(EncodeLength(size)) == size
  {
    Pow256Eight();
    DecodeEncodeLE(size, HEADER_SIZE);
  }

  /** Every 8-byte header is the encoding of the length it decodes to, so
      the encoding is a bijection between `size_t` values and headers. */
  lemma EncodeDecodeLength(h: seq<byte>)
    requires |h| == HEADER_SIZE
    ensures EncodeLength(DecodeLength(h)) == h
  {
    EncodeDecodeLE(h);
  }
}
