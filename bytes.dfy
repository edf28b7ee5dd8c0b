/**
 * Bytes, digests and the big-endian integer packing that Python's `struct`
 * module performs for the formats "!B", "!H" and "!I".
 */
module Bytes {

  type byte = b: int | 0 <= b < 256

  /** Length of a SHA-1 digest in bytes. */
  const DIGEST_LEN: nat := 20

  type Digest = d: seq<byte> | |d| == DIGEST_LEN witness seq(20, _ => 0)

  /**
   * A digest function such as SHA-1. Its internals are not modelled: every
   * statement about the protocol holds for any function that returns 20 bytes.
   */
  type Hasher = seq<byte> -> Digest

  const U16_LIMIT: nat := 0x1_0000
  const U32_LIMIT: nat := 0x1_0000_0000

  function Pow256(n: nat): (r: nat)
    ensures r > 0
  {
    if n == 0 then 1 else 256 * Pow256(n - 1)
  }

  /**
   * The `width` low-order bytes of `n`, most significant first. For
   * `n < Pow256(width)` this is `struct.pack` of an unsigned field.
   */
  function Pack(n: nat, width: nat): (r: seq<byte>)
    ensures |r| == width
  {
    if width == 0 then [] else Pack(n / 256, width - 1) + [n % 256]
  }

  /** The unsigned integer that big-endian bytes `s` denote (`struct.unpack`). */
  function Unpack(s: seq<byte>): (r: nat)
    ensures r < Pow256(|s|)
  {
    if s == [] then 0 else Unpack(s[..|s| - 1]) * 256 + s[|s| - 1]
  }

  /** The limits of one-, two- and four-byte fields. */
  lemma Pow256Values()
    ensures Pow256(1) == 256 && Pow256(2) == U16_LIMIT && Pow256(4) == U32_LIMIT
  {
    assert Pow256(2) == 256 * Pow256(1);
    assert Pow256(4) == 256 * (256 * Pow256(2));
  }

  /** Cutting a concatenation at the seam gives its parts back. */
  lemma Split(a: seq<byte>, b: seq<byte>)
    ensures (a + b)[..|a|] == a && (a + b)[|a|..] == b
  {
  }

  /** Unpacking a packed field gives the field back when it fits. */
  lemma {:induction false} UnpackPack(n: nat, width: nat)
    requires n < Pow256(width)
    ensures Unpack(Pack(n, width)) == n
  {
    if width > 0 {
      var p := Pack(n / 256, width - 1);
      UnpackPack(n / 256, width - 1);
      assert (p + [n % 256])[..width - 1] == p;
    }
  }

  /** Packing an unpacked field gives the same bytes back. */
  lemma {:induction false} PackUnpack(s: seq<byte>)
    ensures Pack(Unpack(s), |s|) == s
  {
    if s != [] {
      var init := s[..|s| - 1];
      var u := Unpack(s);
      assert u / 256 == Unpack(init) && u % 256 == s[|s| - 1];
      PackUnpack(init);
      assert s == init + [s[|s| - 1]];
    }
  }

  /** A single byte denotes itself. */
  lemma UnpackOne(b: byte)
    ensures Unpack([b]) == b
  {
    assert [b][..0] == [];
  }

  /** The concatenation of a sequence of byte strings, in order. */
  function Flatten(chunks: seq<seq<byte>>): (r: seq<byte>)
  {
    if chunks == [] then [] else Flatten(chunks[..|chunks| - 1]) + chunks[|chunks| - 1]
  }

  lemma FlattenAppend(chunks: seq<seq<byte>>, c: seq<byte>)
    ensures Flatten(chunks + [c]) == Flatten(chunks) + c
  {
    assert (chunks + [c])[..|chunks|] == chunks;
  }

  function Min(a: int, b: int): int { if a <= b then a else b }

  function Max(a: int, b: int): int { if a >= b then a else b }
}
