/** The core engine's bookkeeping (test/browser/core.spec.ts): the tree
    counters `length`, `byteLength` and `fork` moved by `append`, `truncate`,
    `verify` and `reorg`; the reorg hints and the user data kept in the
    header; the status and range handed to `onupdate`; and the header
    persisted after every committed change. */
module CoreEngine {
  import opened Bytes
  import opened Errors
  import opened MerkleNodes

  /** At most this many reorg hints are kept in the header. */
  const MAX_REORG_HINTS: nat := 4

  /** The bits of an update's status. */
  const APPENDED: nat := 1
  const TRUNCATED: nat := 2

  /** `{from, to, ancestors}`: fork `from` was replaced by fork `to`, and
      the first `ancestors` blocks were kept. */
  datatype Hint = Hint(from: nat, to: nat, ancestors: nat)

  /** One `{key, value}` pair of the header's user data. */
  datatype Entry = Entry(key: string, value: seq<byte>)

  datatype TreeHeader = TreeHeader(length: nat, byteLength: nat, fork: nat, signature: seq<byte>)

  /** The persisted header: the signed tree state, the reorg hints and the user data. */
  datatype Header = Header(tree: TreeHeader, reorgs: seq<Hint>, userData: seq<Entry>)

  /** The `bitfield` argument of `onupdate`: blocks `[start, start + length)`
      were added (`drop` false) or removed (`drop` true). */
  datatype Range = Range(drop: bool, start: nat, length: nat)

  /** The arguments of one `onupdate` call: status, range and block value. */
  datatype Update = Update(status: nat, range: Option<Range>, value: Option<Block>)

  /** A block proof carries the index and value of one block; an upgrade
      proof extends a tree of length `start` to a signed tree state. */
  datatype Upgrade = Upgrade(start: nat, length: nat, byteLength: nat, signature: seq<byte>)
  datatype Proof = Proof(block: Option<(nat, Block)>, upgrade: Option<Upgrade>)

  /** What the tree's reorg walk settled on: the common prefix and the remote
      tree state to adopt. */
  datatype ReorgResult = ReorgResult(ancestors: nat, length: nat, byteLength: nat, fork: nat, signature: seq<byte>)

  /** The 2-bit status: bit 0 says blocks were appended, bit 1 that blocks
      were truncated. */
  function Status(truncated: bool, appended: bool): (s: nat)
    ensures s < 4
    ensures s % 2 == 1 <==> appended
    ensures s / 2 == 1 <==> truncated
  {
    (if truncated then TRUNCATED else 0) + (if appended then APPENDED else 0)
  }

  // ---------------------------------------------------------------------
  // Reorg hints

  /** Drops the oldest hints until there is room for one more. */
  function Trim(hints: seq<Hint>): (r: seq<Hint>)
    ensures |r| < MAX_REORG_HINTS && |r| <= |hints|
    ensures |hints| < MAX_REORG_HINTS ==> r == hints
    decreases |hints|
  {
    if |hints| >= MAX_REORG_HINTS then Trim(hints[1..]) else hints
  }

  /** Trimming keeps the newest hints. */
  lemma {:induction false} TrimSuffix(hints: seq<Hint>)
    ensures Trim(hints) == hints[|hints| - |Trim(hints)|..]
    decreases |hints|
  {
    if |hints| >= MAX_REORG_HINTS {
      TrimSuffix(hints[1..]);
      assert hints[1..][|hints| - 1 - |Trim(hints)|..] == hints[|hints| - |Trim(hints)|..];
    }
  }

  /** Drops the newest hints while they kept more blocks than `ancestors`. */
  function PopLarger(hints: seq<Hint>, ancestors: nat): (r: seq<Hint>)
    ensures |r| <= |hints|
    ensures r == [] || r[|r| - 1].ancestors <= ancestors
    ensures forall k :: |r| <= k < |hints| ==> hints[k].ancestors > ancestors
    decreases |hints|
  {
    if hints != [] && hints[|hints| - 1].ancestors > ancestors then
      PopLarger(hints[..|hints| - 1], ancestors)
    else
      hints
  }

  /** Popping keeps the oldest hints. */
  lemma {:induction false} PopLargerPrefix(hints: seq<Hint>, ancestors: nat)
    ensures PopLarger(hints, ancestors) == hints[..|PopLarger(hints, ancestors)|]
    decreases |hints|
  {
    if hints != [] && hints[|hints| - 1].ancestors > ancestors {
      var init := hints[..|hints| - 1];
      PopLargerPrefix(init, ancestors);
      assert init[..|PopLarger(init, ancestors)|] == hints[..|PopLarger(hints, ancestors)|];
    }
  }

  /** The hint list after a truncation records `h`: it ends with `h`, never
      holds more than four hints, and keeps only older hints whose common
      prefix is no longer than the new one. */
  function AddHint(hints: seq<Hint>, h: Hint): (r: seq<Hint>)
    ensures 1 <= |r| <= MAX_REORG_HINTS && r[|r| - 1] == h
  {
    PopLarger(Trim(hints), h.ancestors) + [h]
  }

  /** Below the cap, a hint that kept at least as many blocks as the
      newest one is simply added at the end. */
  lemma AddHintAppends(hints: seq<Hint>, h: Hint)
    requires |hints| < MAX_REORG_HINTS
    requires hints == [] || hints[|hints| - 1].ancestors <= h.ancestors
    ensures AddHint(hints, h) == hints + [h]
  {
  }

  /** Hints ordered by the length of the prefix they kept. */
  predicate Ordered(hints: seq<Hint>)
  {
    forall i, j :: 0 <= i < j < |hints| ==> hints[i].ancestors <= hints[j].ancestors
  }

  /** The hints that kept at most `ancestors` blocks, in order. */
  function Kept(hints: seq<Hint>, ancestors: nat): seq<Hint>
    decreases |hints|
  {
    if hints == [] then []
    else (if hints[0].ancestors <= ancestors then [hints[0]] else []) + Kept(hints[1..], ancestors)
  }

  lemma {:induction false} KeptConcat(a: seq<Hint>, b: seq<Hint>, ancestors: nat)
    ensures Kept(a + b, ancestors) == Kept(a, ancestors) + Kept(b, ancestors)
    decreases |a|
  {
    if a != [] {
      assert (a + b)[1..] == a[1..] + b;
      KeptConcat(a[1..], b, ancestors);
    } else {
      assert a + b == b;
    }
  }

  lemma {:induction false} KeptAll(hints: seq<Hint>, ancestors: nat)
    requires forall k :: 0 <= k < |hints| ==> hints[k].ancestors <= ancestors
    ensures Kept(hints, ancestors) == hints
    decreases |hints|
  {
    if hints != [] {
      KeptAll(hints[1..], ancestors);
    }
  }

  lemma {:induction false} KeptNone(hints: seq<Hint>, ancestors: nat)
    requires forall k :: 0 <= k < |hints| ==> hints[k].ancestors > ancestors
    ensures Kept(hints, ancestors) == []
    decreases |hints|
  {
    if hints != [] {
      KeptNone(hints[1..], ancestors);
    }
  }

  /** On an ordered list, popping the newest hints with a longer common
      prefix is the same as dropping every such hint. */
  lemma {:induction false} PopLargerKept(hints: seq<Hint>, ancestors: nat)
    requires Ordered(hints)
    ensures PopLarger(hints, ancestors) == Kept(hints, ancestors)
    decreases |hints|
  {
    if hints != [] {
      var n := |hints| - 1;
      var init, last := hints[..n], hints[n];
      assert hints == init + [last];
      KeptConcat(init, [last], ancestors);
      if last.ancestors > ancestors {
        assert Kept([last], ancestors) == [];
        OrderedPrefix(hints, n);
        PopLargerKept(init, ancestors);
      } else {
        assert forall k :: 0 <= k < |hints| ==> hints[k].ancestors <= ancestors by {
          forall k | 0 <= k < |hints|
            ensures hints[k].ancestors <= ancestors
          {
            assert hints[k].ancestors <= last.ancestors;
          }
        }
        KeptAll(hints, ancestors);
      }
    }
  }

  /** Recording a hint keeps the list ordered, and on an ordered list the
      result is every kept hint with a common prefix no longer than the new
      one, followed by the new hint. */
  lemma AddHintOrdered(hints: seq<Hint>, h: Hint)
    requires Ordered(hints)
    ensures Ordered(AddHint(hints, h))
    ensures AddHint(hints, h) == Kept(Trim(hints), h.ancestors) + [h]
  {
    var t := Trim(hints);
    TrimSuffix(hints);
    OrderedSuffix(hints, |hints| - |t|);
    AddHintKept(t, h);
  }

  lemma AddHintKept(t: seq<Hint>, h: Hint)
    requires Ordered(t)
    ensures Ordered(PopLarger(t, h.ancestors) + [h])
    ensures PopLarger(t, h.ancestors) + [h] == Kept(t, h.ancestors) + [h]
  {
    var kept := PopLarger(t, h.ancestors);
    PopLargerPrefix(t, h.ancestors);
    OrderedPrefix(t, |kept|);
    PopLargerKept(t, h.ancestors);
    OrderedPush(kept, h);
  }

  lemma OrderedSuffix(hints: seq<Hint>, a: nat)
    requires Ordered(hints) && a <= |hints|
    ensures Ordered(hints[a..])
  {
    assert forall i :: 0 <= i < |hints| - a ==> hints[a..][i] == hints[a + i];
  }

  lemma OrderedPrefix(hints: seq<Hint>, b: nat)
    requires Ordered(hints) && b <= |hints|
    ensures Ordered(hints[..b])
  {
  }

  /** An ordered list whose last hint kept no more than `h` stays ordered with `h` added. */
  lemma OrderedPush(hints: seq<Hint>, h: Hint)
    requires Ordered(hints)
    requires hints == [] || hints[|hints| - 1].ancestors <= h.ancestors
    ensures Ordered(hints + [h])
  {
    var r := hints + [h];
    forall i, j | 0 <= i < j < |r|
      ensures r[i].ancestors <= r[j].ancestors
    {
      if j == |hints| && i < |hints| - 1 {
        assert hints[i].ancestors <= hints[|hints| - 1].ancestors;
      }
    }
  }

  /** The hint lists of core.spec.ts:56-82: a hint with a common prefix as
      long as the last one's is added, a shorter one replaces them. */
  lemma ReorgHintsScenario()
    ensures AddHint([], Hint(0, 1, 3)) == [Hint(0, 1, 3)]
    ensures AddHint([Hint(0, 1, 3)], Hint(1, 2, 3)) == [Hint(0, 1, 3), Hint(1, 2, 3)]
    ensures AddHint([Hint(0, 1, 3), Hint(1, 2, 3)], Hint(2, 3, 2)) == [Hint(2, 3, 2)]
  {
    var one := [Hint(0, 1, 3)];
    var two := one + [Hint(1, 2, 3)];
    assert PopLarger([], 3) == [] && PopLarger(one, 3) == one;
    assert two[..1] == one && one[..0] == [];
    assert PopLarger(one, 2) == PopLarger([], 2) == [];
    assert PopLarger(two, 2) == [];
  }

  /** The hint list of core.spec.ts:84-96: a fifth hint pushes out the oldest. */
  lemma ReorgHintsCapScenario()
    ensures AddHint([Hint(2, 3, 2), Hint(3, 4, 2), Hint(4, 5, 2), Hint(5, 6, 2)], Hint(6, 7, 2))
      == [Hint(3, 4, 2), Hint(4, 5, 2), Hint(5, 6, 2), Hint(6, 7, 2)]
  {
    var four := [Hint(2, 3, 2), Hint(3, 4, 2), Hint(4, 5, 2), Hint(5, 6, 2)];
    assert Trim(four) == four[1..];
  }

  // ---------------------------------------------------------------------
  // User data

  /** The value stored under `key`, if any. */
  function Lookup(list: seq<Entry>, key: string): Option<seq<byte>>
    decreases |list|
  {
    if list == [] then None
    else if list[0].key == key then Some(list[0].value)
    else Lookup(list[1..], key)
  }

  function Keys(list: seq<Entry>): (r: seq<string>)
    ensures |r| == |list| && forall k :: 0 <= k < |list| ==> r[k] == list[k].key
  {
    seq(|list|, k requires 0 <= k < |list| => list[k].key)
  }

  predicate UniqueKeys(list: seq<Entry>)
  {
    forall i, j :: 0 <= i < j < |list| ==> list[i].key != list[j].key
  }

  /** The keys other than `key`, in order. */
  function Without(keys: seq<string>, key: string): seq<string>
    decreases |keys|
  {
    if keys == [] then []
    else (if keys[0] == key then [] else [keys[0]]) + Without(keys[1..], key)
  }

  /** `userData(key, value)`: a value replaces the entry of `key` in place or
      is added at the end, and no value (`null`) removes the entry. */
  function Upsert(list: seq<Entry>, key: string, value: Option<seq<byte>>): (r: seq<Entry>)
    decreases |list|
  {
    if list == [] then
      (if value.Some? then [Entry(key, value.value)] else [])
    else if list[0].key == key then
      (if value.Some? then [Entry(key, value.value)] else []) + list[1..]
    else
      [list[0]] + Upsert(list[1..], key, value)
  }

  /** After an update, `key` reads the new value and every other key reads
      as before. */
  lemma {:induction false} UpsertLookup(list: seq<Entry>, key: string, value: Option<seq<byte>>, k: string)
    requires UniqueKeys(list)
    ensures Lookup(Upsert(list, key, value), k) == if k == key then value else Lookup(list, k)
    decreases |list|
  {
    if list != [] {
      var rest := list[1..];
      if list[0].key == key {
        if value.Some? {
          assert ([Entry(key, value.value)] + rest)[1..] == rest;
        } else {
          assert ([] + rest) == rest;
        }
        if k == key {
          LookupAbsent(rest, key);
        }
      } else {
        UpsertLookup(rest, key, value, k);
        assert ([list[0]] + Upsert(rest, key, value))[1..] == Upsert(rest, key, value);
      }
    }
  }

  lemma {:induction false} LookupAbsent(list: seq<Entry>, key: string)
    requires forall j :: 0 <= j < |list| ==> list[j].key != key
    ensures Lookup(list, key).None?
    decreases |list|
  {
    if list != [] {
      LookupAbsent(list[1..], key);
    }
  }

  lemma KeysCons(list: seq<Entry>)
    requires list != []
    ensures Keys(list) == [list[0].key] + Keys(list[1..])
  {
  }

  /** Updating keeps the keys unique. */
  lemma {:induction false} UpsertUnique(list: seq<Entry>, key: string, value: Option<seq<byte>>)
    requires UniqueKeys(list)
    ensures UniqueKeys(Upsert(list, key, value))
    decreases |list|
  {
    if list != [] {
      var rest := list[1..];
      if list[0].key == key {
        if value.Some? {
          UniqueCons(Entry(key, value.value), rest);
        }
      } else {
        UpsertUnique(rest, key, value);
        UpsertKeySet(rest, key, value);
        var u := Upsert(rest, key, value);
        forall e | e in u
          ensures e.key != list[0].key
        {
          if e.key in Keys(rest) {
            var j :| 0 <= j < |rest| && Keys(rest)[j] == e.key;
            assert list[j + 1].key == e.key;
          }
        }
        UniqueCons(list[0], u);
      }
    }
  }

  lemma UniqueCons(e: Entry, list: seq<Entry>)
    requires UniqueKeys(list) && forall x :: x in list ==> x.key != e.key
    ensures UniqueKeys([e] + list)
  {
    var r := [e] + list;
    forall i, j | 0 <= i < j < |r|
      ensures r[i].key != r[j].key
    {
      assert r[j] == list[j - 1];
      if i > 0 {
        assert r[i] == list[i - 1];
      }
    }
  }

  /** A new value for a key already there keeps every key in its place. */
  lemma {:induction false} UpsertKeysReplace(list: seq<Entry>, key: string, value: seq<byte>)
    requires key in Keys(list)
    ensures Keys(Upsert(list, key, Some(value))) == Keys(list)
    decreases |list|
  {
    var rest := list[1..];
    KeysCons(list);
    var r := Upsert(list, key, Some(value));
    if list[0].key == key {
      assert r == [Entry(key, value)] + rest;
      KeysCons(r);
    } else {
      UpsertKeysReplace(rest, key, value);
      assert r == [list[0]] + Upsert(rest, key, Some(value));
      KeysCons(r);
    }
  }

  /** A value for a new key adds the key at the end. */
  lemma {:induction false} UpsertKeysAdd(list: seq<Entry>, key: string, value: seq<byte>)
    requires key !in Keys(list)
    ensures Keys(Upsert(list, key, Some(value))) == Keys(list) + [key]
    decreases |list|
  {
    if list != [] {
      var rest := list[1..];
      KeysCons(list);
      var r := Upsert(list, key, Some(value));
      UpsertKeysAdd(rest, key, value);
      assert r == [list[0]] + Upsert(rest, key, Some(value));
      KeysCons(r);
    }
  }

  /** No value removes the key and keeps the other keys in order. */
  lemma {:induction false} UpsertKeysRemove(list: seq<Entry>, key: string)
    requires UniqueKeys(list)
    ensures Keys(Upsert(list, key, None)) == Without(Keys(list), key)
    decreases |list|
  {
    if list != [] {
      var rest := list[1..];
      KeysCons(list);
      var r := Upsert(list, key, None);
      if list[0].key == key {
        assert r == rest;
        assert key !in Keys(rest);
        WithoutAbsent(Keys(rest), key);
      } else {
        UpsertKeysRemove(rest, key);
        assert r == [list[0]] + Upsert(rest, key, None);
        KeysCons(r);
      }
    }
  }

  lemma {:induction false} WithoutAbsent(keys: seq<string>, key: string)
    requires key !in keys
    ensures Without(keys, key) == keys
    decreases |keys|
  {
    if keys != [] {
      WithoutAbsent(keys[1..], key);
    }
  }

  /** Every key of the updated list is `key` or an old key. */
  lemma {:induction false} UpsertKeySet(list: seq<Entry>, key: string, value: Option<seq<byte>>)
    ensures forall e :: e in Upsert(list, key, value) ==> e.key == key || e.key in Keys(list)
    decreases |list|
  {
    if list != [] && list[0].key != key {
      UpsertKeySet(list[1..], key, value);
      assert Keys(list) == [list[0].key] + Keys(list[1..]);
    }
  }

  /** `Upsert` at the first position `i` holding `key`, or at the end when
      none does. */
  lemma {:induction false} UpsertAt(list: seq<Entry>, key: string, value: Option<seq<byte>>, i: nat)
    requires i <= |list|
    requires forall j :: 0 <= j < i ==> list[j].key != key
    requires i < |list| ==> list[i].key == key
    ensures i == |list| && value.Some? ==> Upsert(list, key, value) == list + [Entry(key, value.value)]
    ensures i == |list| && value.None? ==> Upsert(list, key, value) == list
    ensures i < |list| && value.Some? ==> Upsert(list, key, value) == list[i := Entry(key, value.value)]
    ensures i < |list| && value.None? ==> Upsert(list, key, value) == list[..i] + list[i + 1..]
    decreases i
  {
    if i > 0 {
      var rest := list[1..];
      UpsertAt(rest, key, value, i - 1);
      assert list == [list[0]] + rest;
      if i < |list| && value.Some? {
        assert list[i := Entry(key, value.value)] == [list[0]] + rest[i - 1 := Entry(key, value.value)];
      } else if i < |list| {
        assert list[..i] + list[i + 1..] == [list[0]] + (rest[..i - 1] + rest[i..]);
      }
    }
  }

  /** The user data lists of core.spec.ts:107-125. */
  lemma UserDataScenario()
    ensures Upsert([], "hello", Some([119])) == [Entry("hello", [119])]
    ensures Upsert([Entry("hello", [119])], "hej", Some([118]))
      == [Entry("hello", [119]), Entry("hej", [118])]
    ensures Upsert([Entry("hello", [119]), Entry("hej", [118])], "hello", None) == [Entry("hej", [118])]
    ensures Upsert([Entry("hej", [118])], "hej", Some([119])) == [Entry("hej", [119])]
  {
    assert Upsert([Entry("hej", [118])], "hello", None) == [Entry("hej", [118])];
  }

  // ---------------------------------------------------------------------
  // Blocks

  /** Every block below `n` is held. */
  predicate Held(blocks: map<nat, Block>, n: nat)
  {
    forall i :: 0 <= i < n ==> i in blocks
  }

  /** The first `n` blocks, in order. */
  function Prefix(blocks: map<nat, Block>, n: nat): (r: seq<Block>)
    requires Held(blocks, n)
    ensures |r| == n && forall i :: 0 <= i < n ==> r[i] == blocks[i]
  {
    seq(n, i requires 0 <= i < n && Held(blocks, n) => blocks[i])
  }

  /** The blocks of indices below `n`. */
  function Below(blocks: map<nat, Block>, n: nat): (r: map<nat, Block>)
    ensures forall i :: i in r <==> i in blocks && i < n
    ensures forall i :: i in r ==> r[i] == blocks[i]
  {
    map i | i in blocks && i < n :: blocks[i]
  }

  /** Appending a batch at the end extends the prefix of held blocks by it. */
  lemma PrefixExtends(before: map<nat, Block>, after: map<nat, Block>, at: nat, batch: seq<Block>)
    requires Held(before, at)
    requires forall i :: 0 <= i < at ==> i in after && after[i] == before[i]
    requires forall k :: 0 <= k < |batch| ==> at + k in after && after[at + k] == batch[k]
    ensures Held(after, at + |batch|)
    ensures Prefix(after, at + |batch|) == Prefix(before, at) + batch
  {
    assert Held(after, at + |batch|) by {
      forall i | 0 <= i < at + |batch|
        ensures i in after
      {
        if i >= at {
          var k := i - at;
          var b := batch[k];
          assert at + k in after;
        }
      }
    }
    var p := Prefix(after, at + |batch|);
    forall i | 0 <= i < at
      ensures p[i] == Prefix(before, at)[i]
    {
    }
    forall i | at <= i < at + |batch|
      ensures p[i] == batch[i - at]
    {
      var k := i - at;
      assert batch[k] == after[at + k];
    }
    assert p == Prefix(before, at) + batch;
  }

  /** Truncating to `n` keeps the prefix of the first `n` held blocks. */
  lemma PrefixBelow(blocks: map<nat, Block>, n: nat, m: nat)
    requires m <= n && Held(blocks, n)
    ensures Held(Below(blocks, m), m)
    ensures Prefix(Below(blocks, m), m) == Prefix(blocks, n)[..m]
  {
  }

  // ---------------------------------------------------------------------
  // The core

  /** A header the core can open: hints bounded and ordered, keys unique. */
  ghost predicate WellFormed(h: Header)
  {
    && |h.reorgs| <= MAX_REORG_HINTS && Ordered(h.reorgs)
    && UniqueKeys(h.userData)
  }

  class Core {
    var length: nat
    var byteLength: nat
    var fork: nat
    var signature: seq<byte>
    /** The blocks this core holds, by index. */
    var blocks: map<nat, Block>
    var reorgs: seq<Hint>
    var userData: seq<Entry>
    /** The header last persisted through the operation log. */
    var stored: Header

    /** The header as it stands in memory. */
    function Current(): Header
      reads this
    {
      Header(TreeHeader(length, byteLength, fork, signature), reorgs, userData)
    }

    /** Every committed change has been persisted; no block lies past the end. */
    ghost predicate Valid()
      reads this
    {
      && stored == Current()
      && WellFormed(stored)
      && (forall i :: i in blocks ==> i < length)
    }

    /** A new, empty core. */
    constructor ()
      ensures Valid() && Current() == Header(TreeHeader(0, 0, 0, []), [], [])
      ensures blocks == map[]
    {
      length, byteLength, fork, signature := 0, 0, 0, [];
      blocks, reorgs, userData := map[], [], [];
      stored := Header(TreeHeader(0, 0, 0, []), [], []);
    }

    /** Reopening a core from its persisted header and block storage: the
        tree counters, the hints and the user data come back as persisted. */
    constructor Reopen(header: Header, held: map<nat, Block>)
      requires WellFormed(header)
      requires forall i :: i in held ==> i < header.tree.length
      ensures Valid() && Current() == header && blocks == held
    {
      length, byteLength := header.tree.length, header.tree.byteLength;
      fork, signature := header.tree.fork, header.tree.signature;
      blocks, reorgs, userData := held, header.reorgs, header.userData;
      stored := header;
    }

    /** `append(blocks)`: writes the blocks after the current end and returns
        the first new sequence number, the old length. */
    method Append(batch: seq<Block>, sig: seq<byte>) returns (first: nat, update: Update)
      requires Valid()
      modifies this
      ensures Valid()
      ensures first == old(length)
      ensures length == old(length) + |batch| && byteLength == old(byteLength) + TotalSize(batch)
      ensures fork == old(fork) && signature == sig
      ensures reorgs == old(reorgs) && userData == old(userData)
      ensures forall i :: i in blocks <==> i in old(blocks) || old(length) <= i < length
      ensures forall i :: i in old(blocks) ==> blocks[i] == old(blocks[i])
      ensures forall k :: 0 <= k < |batch| ==> blocks[old(length) + k] == batch[k]
      ensures update == Update(Status(false, true), Some(Range(false, old(length), |batch|)), None)
    {
      first := length;
      var written, bytes := Place(blocks, first, batch);
      blocks, length, byteLength, signature := written, length + |batch|, byteLength + bytes, sig;
      stored := Current();
      update := Update(Status(false, true), Some(Range(false, first, |batch|)), None);
    }

    /** Records hint `h`: drops the oldest hints while the list is full,
        then the newest ones that kept more blocks, then adds `h`. */
    method AddReorgHint(h: Hint)
      modifies this`reorgs
      ensures reorgs == AddHint(old(reorgs), h)
    {
      while |reorgs| >= MAX_REORG_HINTS
        invariant Trim(reorgs) == Trim(old(reorgs))
        decreases |reorgs|
      {
        reorgs := reorgs[1..];
      }
      while reorgs != [] && reorgs[|reorgs| - 1].ancestors > h.ancestors
        invariant PopLarger(reorgs, h.ancestors) == PopLarger(Trim(old(reorgs)), h.ancestors)
        decreases |reorgs|
      {
        reorgs := reorgs[..|reorgs| - 1];
      }
      reorgs := reorgs + [h];
    }

    /** `truncate(newLength, newFork)`: keeps the first `newLength` blocks,
        moves to fork `newFork` and records the hint `{fork, newFork,
        newLength}`. The byte length of the kept blocks is summed from the
        blocks held. */
    method Truncate(newLength: nat, newFork: nat, sig: seq<byte>) returns (r: Result<Update>)
      requires Valid()
      modifies this
      ensures Valid()
      ensures r.Err? <==> newLength > old(length) || !Held(old(blocks), newLength)
      ensures r.Err? ==> Current() == old(Current()) && blocks == old(blocks)
      ensures r.Ok? ==> && Held(old(blocks), newLength)
                        && length == newLength && fork == newFork && signature == sig
                        && byteLength == TotalSize(Prefix(old(blocks), newLength))
                        && blocks == Below(old(blocks), newLength)
                        && reorgs == AddHint(old(reorgs), Hint(old(fork), newFork, newLength))
                        && userData == old(userData)
                        && r.value == Update(Status(true, false), Some(Range(true, newLength, old(length) - newLength)), None)
    {
      if newLength > length {
        return Err(BadArgument);
      }
      if !Held(blocks, newLength) {
        return Err(MissingNode);
      }
      var dropped := length - newLength;
      var bytes := TotalSize(Prefix(blocks, newLength));
      Rewind(newLength, newLength, bytes, newFork, sig);
      r := Ok(Update(Status(true, false), Some(Range(true, newLength, dropped)), None));
    }

    /** `verify(proof)`: applies a checked proof. `valid` is the tree's
        verdict on the proof and `signed` the signer's verdict on the
        upgrade's signature. An upgrade built against another length is
        stale and changes nothing. */
    method Verify(proof: Proof, valid: bool, signed: bool) returns (r: Result<Option<Update>>)
      requires Valid()
      modifies this
      ensures Valid()
      ensures !valid ==> r == Err(InvalidProof)
      ensures valid && proof.upgrade.Some? && !signed ==> r == Err(InvalidSignature)
      ensures r.Err? || r == Ok(None) ==> Current() == old(Current()) && blocks == old(blocks)
      ensures proof.upgrade.Some? && proof.upgrade.value.start != old(length) && valid && signed ==> r == Ok(None)
      ensures r.Ok? && r.value.Some? ==> Fresh(proof, old(length))
      ensures valid && (proof.upgrade.None? || signed) && Fresh(proof, old(length)) ==> Applied(proof, old(Current()), old(blocks), r, this)
    {
      if !valid {
        return Err(InvalidProof);
      }
      if proof.upgrade.Some? && !signed {
        return Err(InvalidSignature);
      }
      if proof.upgrade.Some? && proof.upgrade.value.start != length {
        return Ok(None);
      }
      var newLength := NewLength(proof, length);
      if proof.upgrade.Some? && proof.upgrade.value.length < length {
        return Err(InvalidProof);
      }
      if proof.block.Some? && proof.block.value.0 >= newLength {
        return Err(InvalidProof);
      }
      var grew := newLength > length;
      if proof.upgrade.Some? {
        var up := proof.upgrade.value;
        length, byteLength, signature := up.length, up.byteLength, up.signature;
      }
      var range: Option<Range> := None;
      var value: Option<Block> := None;
      if proof.block.Some? {
        var (index, data) := proof.block.value;
        blocks := blocks[index := data];
        range, value := Some(Range(false, index, 1)), Some(data);
      }
      stored := Current();
      r := Ok(Some(Update(Status(false, grew), range, value)));
    }

    /** `reorg(result)`: truncates to the common prefix and adopts the remote
        tree state in one step, recording the hint like a truncation. */
    method Reorg(result: ReorgResult) returns (r: Result<Update>)
      requires Valid()
      modifies this
      ensures Valid()
      ensures r.Err? <==> result.ancestors > old(length) || result.ancestors > result.length
      ensures r.Err? ==> Current() == old(Current()) && blocks == old(blocks)
      ensures r.Ok? ==> && length == result.length && byteLength == result.byteLength
                        && fork == result.fork && signature == result.signature
                        && blocks == Below(old(blocks), result.ancestors)
                        && reorgs == AddHint(old(reorgs), Hint(old(fork), result.fork, result.ancestors))
                        && userData == old(userData)
                        && r.value == Update(Status(true, result.length > result.ancestors),
                                             Some(Range(true, result.ancestors, old(length) - result.ancestors)), None)
    {
      if result.ancestors > length || result.ancestors > result.length {
        return Err(InvalidProof);
      }
      var dropped := length - result.ancestors;
      Rewind(result.ancestors, result.length, result.byteLength, result.fork, result.signature);
      r := Ok(Update(Status(true, result.length > result.ancestors), Some(Range(true, result.ancestors, dropped)), None));
    }

    /** Drops every block from `ancestors` on, moves to the given tree
        state and fork, records the hint `{fork, newFork, ancestors}` and
        persists the header. */
    method Rewind(ancestors: nat, newLength: nat, newByteLength: nat, newFork: nat, sig: seq<byte>)
      requires Valid() && ancestors <= length && ancestors <= newLength
      modifies this
      ensures Valid()
      ensures length == newLength && byteLength == newByteLength && fork == newFork && signature == sig
      ensures blocks == Below(old(blocks), ancestors)
      ensures reorgs == AddHint(old(reorgs), Hint(old(fork), newFork, ancestors))
      ensures userData == old(userData)
    {
      var hint := Hint(fork, newFork, ancestors);
      AddHintOrdered(reorgs, hint);
      blocks, length, byteLength := Below(blocks, ancestors), newLength, newByteLength;
      fork, signature := newFork, sig;
      AddReorgHint(hint);
      stored := Current();
    }

    /** `userData(key, value)`: edits the entry of `key` in place. */
    method UserData(key: string, value: Option<seq<byte>>)
      requires Valid()
      modifies this
      ensures Valid()
      ensures userData == Upsert(old(userData), key, value)
      ensures length == old(length) && byteLength == old(byteLength) && fork == old(fork)
      ensures signature == old(signature) && reorgs == old(reorgs) && blocks == old(blocks)
    {
      UpsertUnique(userData, key, value);
      var i := 0;
      while i < |userData| && userData[i].key != key
        invariant i <= |userData|
        invariant forall j :: 0 <= j < i ==> userData[j].key != key
      {
        i := i + 1;
      }
      UpsertAt(userData, key, value, i);
      if i == |userData| {
        if value.Some? {
          userData := userData + [Entry(key, value.value)];
        }
      } else if value.Some? {
        userData := userData[i := Entry(key, value.value)];
      } else {
        userData := userData[..i] + userData[i + 1..];
      }
      stored := Current();
    }
  }

  /** Writes `batch` into `blocks` from index `at` on, and sums its bytes. */
  method Place(blocks: map<nat, Block>, at: nat, batch: seq<Block>) returns (written: map<nat, Block>, bytes: nat)
    requires forall j :: j in blocks ==> j < at
    ensures bytes == TotalSize(batch)
    ensures forall j :: j in written <==> j in blocks || at <= j < at + |batch|
    ensures forall j :: j in blocks ==> written[j] == blocks[j]
    ensures forall k :: 0 <= k < |batch| ==> written[at + k] == batch[k]
  {
    written, bytes := blocks, 0;
    var i := 0;
    while i < |batch|
      invariant 0 <= i <= |batch|
      invariant bytes == TotalSize(batch[..i])
      invariant forall j :: j in written <==> j in blocks || at <= j < at + i
      invariant forall j :: j in blocks ==> written[j] == blocks[j]
      invariant forall k :: 0 <= k < i ==> written[at + k] == batch[k]
    {
      written := written[at + i := batch[i]];
      assert batch[..i + 1][..i] == batch[..i];
      bytes := bytes + |batch[i]|;
      i := i + 1;
    }
    assert batch[..i] == batch;
  }

  /** The length a fresh proof leads to. */
  function NewLength(proof: Proof, length: nat): nat
  {
    if proof.upgrade.Some? then proof.upgrade.value.length else length
  }

  /** A proof that applies to a core of this length: its upgrade, if any,
      starts at the length and does not shorten it, and its block, if any,
      lies below the new length. */
  predicate Fresh(proof: Proof, length: nat)
  {
    && (proof.upgrade.Some? ==> proof.upgrade.value.start == length && proof.upgrade.value.length >= length)
    && (proof.block.Some? ==> proof.block.value.0 < NewLength(proof, length))
  }

  /** The state and update after a fresh proof is applied: an upgrade adopts
      the signed tree state, a block is stored, and the update reports the
      block and whether the length grew. */
  ghost predicate Applied(proof: Proof, before: Header, held: map<nat, Block>, r: Result<Option<Update>>, core: Core)
    reads core
  {
    var grew := NewLength(proof, before.tree.length) > before.tree.length;
    && core.length == NewLength(proof, before.tree.length)
    && (proof.upgrade.Some? ==> core.byteLength == proof.upgrade.value.byteLength
                                && core.signature == proof.upgrade.value.signature)
    && (proof.upgrade.None? ==> core.byteLength == before.tree.byteLength && core.signature == before.tree.signature)
    && core.fork == before.tree.fork && core.reorgs == before.reorgs && core.userData == before.userData
    && core.blocks == (if proof.block.Some? then held[proof.block.value.0 := proof.block.value.1] else held)
    && r == Ok(Some(Update(Status(false, grew),
                           if proof.block.Some? then Some(Range(false, proof.block.value.0, 1)) else None,
                           if proof.block.Some? then Some(proof.block.value.1) else None)))
  }

  /** The upgrade a writer serves for a request starting at `start`: only
      its whole tree is signed, so whatever length was asked for, the
      upgrade leads to the writer's own length, byte length and signature. */
  function Served(writer: Header, start: nat, requested: nat): (u: Upgrade)
    ensures u.start == start && u.length == writer.tree.length
    ensures u.byteLength == writer.tree.byteLength && u.signature == writer.tree.signature
  {
    Upgrade(start, writer.tree.length, writer.tree.byteLength, writer.tree.signature)
  }

  /** Two upgrade requests for `requested1` and `requested2` blocks, served
      by `writer` against the clone's state and verified back to back: the
      first commits the writer's tree, the second is stale and changes
      nothing, so the clone ends at the writer's length and signature. */
  method VerifyBackToBack(writer: Core, clone: Core, requested1: nat, requested2: nat) returns (length: nat, signature: seq<byte>)
    requires writer.Valid() && clone.Valid() && writer != clone
    requires clone.length <= writer.length
    modifies clone
    ensures clone.Valid()
    ensures length == clone.length == writer.length && signature == clone.signature == writer.signature
    ensures clone.byteLength == writer.byteLength && clone.fork == old(clone.fork)
  {
    var p1 := Proof(None, Some(Served(writer.Current(), clone.length, requested1)));
    var p2 := Proof(None, Some(Served(writer.Current(), clone.length, requested2)));
    var r1 := clone.Verify(p1, true, true);
    var r2 := clone.Verify(p2, true, true);
    length, signature := clone.length, clone.signature;
  }
}
