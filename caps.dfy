/** The byte preimages a writer signs for a tree state (lib/caps.js).

    Both encoders fill a preallocated buffer through a compact-encoding
    state whose `start` cursor advances with every field written; the
    current format is prefixed with the 32-byte `TREE` namespace tag, the
    legacy one is not. */
module Caps {
  import opened Bytes

  type Digest = s: seq<byte> | |s| == 32 witness seq(32, _ => 0)

  /** The `TREE` namespace tag. It is derived with BLAKE2b from the label
      "hypercore"; its value is left open here, only its width is known. */
  const TREE: Digest

  /** compact-encoding's encoder state over a buffer of fixed size. */
  class EncodeState {
    var start: nat
    const end: nat
    const buffer: array<byte>

    ghost predicate Valid()
      reads this
    {
      start <= end == buffer.Length
    }

    /** `b4a.allocUnsafe(size)`: the contents of the new buffer are arbitrary. */
    constructor (size: nat)
      ensures Valid() && fresh(buffer)
      ensures start == 0 && end == size
    {
      start := 0;
      end := size;
      buffer := new byte[size];
    }

    /** `c.raw.encode`: copies `bytes` to the cursor and advances it. */
    method Raw(bytes: seq<byte>)
      requires Valid() && start + |bytes| <= end
      modifies this`start, buffer
      ensures Valid()
      ensures start == old(start) + |bytes|
      ensures buffer[..] == old(buffer[..start]) + bytes + old(buffer[start + |bytes|..])
      ensures buffer[..start] == old(buffer[..start]) + bytes
    {
      ghost var before := buffer[..];
      var i := 0;
      while i < |bytes|
        invariant 0 <= i <= |bytes|
        invariant Valid() && start == old(start)
        invariant forall j :: 0 <= j < buffer.Length ==>
          buffer[j] == if start <= j < start + i then bytes[j - start] else before[j]
      {
        buffer[start + i] := bytes[i];
        i := i + 1;
      }
      Spliced(buffer[..], before, start, bytes);
      start := start + |bytes|;
    }
    /** `c.uint64.encode`: eight little-endian bytes at the cursor. */
    method Uint64Encode(n: nat)
      requires Valid() && start + 8 <= end && n < TWO_64
      modifies this`start, buffer
      ensures Valid()
      ensures start == old(start) + 8
      ensures buffer[..] == old(buffer[..start]) + Uint64(n) + old(buffer[start + 8..])
      ensures buffer[..start] == old(buffer[..start]) + Uint64(n)
    {
      Raw(Uint64(n));
    }
  }

  /** A buffer that holds `bytes` from `at` on and `before` elsewhere. */
  lemma Spliced(after: seq<byte>, before: seq<byte>, at: nat, bytes: seq<byte>)
    requires |after| == |before| && at + |bytes| <= |before|
    requires forall j :: 0 <= j < |after| ==>
      after[j] == if at <= j < at + |bytes| then bytes[j - at] else before[j]
    ensures after == before[..at] + bytes + before[at + |bytes|..]
    ensures after[..at + |bytes|] == before[..at] + bytes
  {
    assert after == before[..at] + bytes + before[at + |bytes|..];
  }

  /** The current signable: tag, roots hash, length, fork. */
  function Signable(hash: Digest, length: nat, fork: nat): seq<byte>
    requires length < TWO_64 && fork < TWO_64
  {
    TREE + hash + Uint64(length) + Uint64(fork)
  }

  /** The legacy signable: roots hash, length, fork, no tag. */
  function SignableLegacy(hash: Digest, length: nat, fork: nat): seq<byte>
    requires length < TWO_64 && fork < TWO_64
  {
    hash + Uint64(length) + Uint64(fork)
  }

  method TreeSignable(hash: Digest, length: nat, fork: nat) returns (r: seq<byte>)
    requires length < TWO_64 && fork < TWO_64
    ensures r == Signable(hash, length, fork)
  {
    var state := new EncodeState(80);
    var l, f := Uint64(length), Uint64(fork);
    state.Raw(TREE);
    assert state.buffer[..state.start] == TREE;
    state.Raw(hash);
    assert state.buffer[..state.start] == TREE + hash;
    state.Uint64Encode(length);
    assert state.buffer[..state.start] == TREE + hash + l;
    state.Uint64Encode(fork);
    assert state.buffer[..state.start] == Signable(hash, length, fork);
    r := state.buffer[..];
    assert r == state.buffer[..state.start];
  }

  method TreeSignableLegacy(hash: Digest, length: nat, fork: nat) returns (r: seq<byte>)
    requires length < TWO_64 && fork < TWO_64
    ensures r == SignableLegacy(hash, length, fork)
  {
    var state := new EncodeState(48);
    var l, f := Uint64(length), Uint64(fork);
    state.Raw(hash);
    assert state.buffer[..state.start] == hash;
    state.Uint64Encode(length);
    assert state.buffer[..state.start] == hash + l;
    state.Uint64Encode(fork);
    assert state.buffer[..state.start] == SignableLegacy(hash, length, fork);
    r := state.buffer[..];
    assert r == state.buffer[..state.start];
  }

  /** Reads the triple back from the fixed offsets of a current signable. */
  function ReadSignable(s: seq<byte>): (r: (seq<byte>, nat, nat))
    requires |s| == 80
    ensures |r.0| == 32 && r.1 < TWO_64 && r.2 < TWO_64
  {
    (s[32..64], ReadUint64(s, 64), ReadUint64(s, 72))
  }

  /** Reads the triple back from the fixed offsets of a legacy signable. */
  function ReadSignableLegacy(s: seq<byte>): (r: (seq<byte>, nat, nat))
    requires |s| == 48
    ensures |r.0| == 32 && r.1 < TWO_64 && r.2 < TWO_64
  {
    (s[..32], ReadUint64(s, 32), ReadUint64(s, 40))
  }

  /** The current format is 80 bytes: the tag at 0, the hash at 32, and
      `length` and `fork` as 8-byte little-endian integers at 64 and 72. */
  lemma SignableLayout(hash: Digest, length: nat, fork: nat)
    requires length < TWO_64 && fork < TWO_64
    ensures var s := Signable(hash, length, fork);
      && |s| == 80
      && s[..32] == TREE
      && s[32..64] == hash
      && s[64..72] == Uint64(length)
      && s[72..80] == Uint64(fork)
  {
    var s := Signable(hash, length, fork);
    assert s == TREE + hash + Uint64(length) + Uint64(fork);
  }

  /** The legacy format is 48 bytes: the hash at 0, `length` at 32, `fork` at 40. */
  lemma SignableLegacyLayout(hash: Digest, length: nat, fork: nat)
    requires length < TWO_64 && fork < TWO_64
    ensures var s := SignableLegacy(hash, length, fork);
      && |s| == 48
      && s[..32] == hash
      && s[32..40] == Uint64(length)
      && s[40..48] == Uint64(fork)
  {
  }

  /** The current signable is the tag followed by the legacy signable. */
  lemma SignableExtendsLegacy(hash: Digest, length: nat, fork: nat)
    requires length < TWO_64 && fork < TWO_64
    ensures Signable(hash, length, fork) == TREE + SignableLegacy(hash, length, fork)
  {
  }

  /** Every current signable starts with the same 32 bytes. */
  lemma SignableSharedPrefix(h1: Digest, l1: nat, f1: nat, h2: Digest, l2: nat, f2: nat)
    requires l1 < TWO_64 && f1 < TWO_64 && l2 < TWO_64 && f2 < TWO_64
    ensures Signable(h1, l1, f1)[..32] == Signable(h2, l2, f2)[..32]
  {
    SignableLayout(h1, l1, f1);
    SignableLayout(h2, l2, f2);
  }

  lemma ReadSignableRoundTrip(hash: Digest, length: nat, fork: nat)
    requires length < TWO_64 && fork < TWO_64
    ensures |Signable(hash, length, fork)| == 80
    ensures ReadSignable(Signable(hash, length, fork)) == (hash, length, fork)
  {
    SignableLayout(hash, length, fork);
  }

  lemma ReadSignableLegacyRoundTrip(hash: Digest, length: nat, fork: nat)
    requires length < TWO_64 && fork < TWO_64
    ensures |SignableLegacy(hash, length, fork)| == 48
    ensures ReadSignableLegacy(SignableLegacy(hash, length, fork)) == (hash, length, fork)
  {
    SignableLegacyLayout(hash, length, fork);
  }

  /** Distinct tree states never share a signable, in either format. */
  lemma SignableInjective(h1: Digest, l1: nat, f1: nat, h2: Digest, l2: nat, f2: nat)
    requires l1 < TWO_64 && f1 < TWO_64 && l2 < TWO_64 && f2 < TWO_64
    ensures Signable(h1, l1, f1) == Signable(h2, l2, f2) <==> (h1, l1, f1) == (h2, l2, f2)
    ensures SignableLegacy(h1, l1, f1) == SignableLegacy(h2, l2, f2) <==> (h1, l1, f1) == (h2, l2, f2)
  {
    ReadSignableRoundTrip(h1, l1, f1);
    ReadSignableRoundTrip(h2, l2, f2);
    ReadSignableLegacyRoundTrip(h1, l1, f1);
    ReadSignableLegacyRoundTrip(h2, l2, f2);
  }
}
