/** Bytes and the fixed-width little-endian integers the core writes into
    buffers (compact-encoding's `uint32` and `uint64`). */
module Bytes {

  type byte = x: int | 0 <= x < 256

  const TWO_32: nat := 0x1_0000_0000
  const TWO_64: nat := 0x1_0000_0000_0000_0000

  /** `n` as `width` bytes, least significant first. */
  function LittleEndian(n: nat, width: nat): (r: seq<byte>)
    requires n < Pow256(width)
    ensures |r| == width
    decreases width
  {
    if width == 0 then [] else [(n % 256) as byte] + LittleEndian(n / 256, width - 1)
  }

  /** The number whose little-endian bytes are `s`. */
  function FromLittleEndian(s: seq<byte>): nat
  {
    if s == [] then 0 else s[0] + 256 * FromLittleEndian(s[1..])
  }

  /** `width` bytes hold a number below `256^width`. */
  lemma {:induction false} FromLittleEndianBound(s: seq<byte>)
    ensures FromLittleEndian(s) < Pow256(|s|)
  {
    if s != [] {
      FromLittleEndianBound(s[1..]);
    }
  }

  function Pow256(width: nat): (p: nat)
    ensures p > 0
  {
    if width == 0 then 1 else 256 * Pow256(width - 1)
  }

  lemma {:induction false} FromToLittleEndian(n: nat, width: nat)
    requires n < Pow256(width)
    ensures FromLittleEndian(LittleEndian(n, width)) == n
    decreases width
  {
    if width > 0 {
      FromToLittleEndian(n / 256, width - 1);
      assert LittleEndian(n, width)[1..] == LittleEndian(n / 256, width - 1);
    }
  }

  function Uint32(n: nat): (r: seq<byte>)
    requires n < TWO_32
    ensures |r| == 4 && FromLittleEndian(r) == n
  {
    assert Pow256(4) == TWO_32;
    FromToLittleEndian(n, 4);
    LittleEndian(n, 4)
  }

  function Uint64(n: nat): (r: seq<byte>)
    requires n < TWO_64
    ensures |r| == 8 && FromLittleEndian(r) == n
  {
    assert Pow256(8) == TWO_64;
    FromToLittleEndian(n, 8);
    LittleEndian(n, 8)
  }

  /** Decoding a 32-bit word back, as the oplog reads its frames. */
  function ReadUint32(s: seq<byte>, at: nat): (n: nat)
    requires at + 4 <= |s|
    ensures n < TWO_32
  {
    FromLittleEndianBound(s[at..at + 4]);
    assert Pow256(4) == TWO_32;
    FromLittleEndian(s[at..at + 4])
  }

  /** Decoding a 64-bit word back. */
  function ReadUint64(s: seq<byte>, at: nat): (n: nat)
    requires at + 8 <= |s|
    ensures n < TWO_64
  {
    FromLittleEndianBound(s[at..at + 8]);
    assert Pow256(8) == TWO_64;
    FromLittleEndian(s[at..at + 8])
  }

  /** Two 8-byte encodings agree exactly when their values do. */
  lemma Uint64Injective(a: nat, b: nat)
    requires a < TWO_64 && b < TWO_64
    ensures Uint64(a) == Uint64(b) <==> a == b
  {
  }

  lemma ReadUint32Written(prefix: seq<byte>, n: nat, rest: seq<byte>)
    requires n < TWO_32
    ensures ReadUint32(prefix + Uint32(n) + rest, |prefix|) == n
  {
    assert (prefix + Uint32(n) + rest)[|prefix|..|prefix| + 4] == Uint32(n);
  }
}
