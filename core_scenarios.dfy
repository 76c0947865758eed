/** Walks of test/browser/core.spec.ts on the core model: the update hook
    of a writer and of a clone that follows it (lines 200-318), and the
    append-and-truncate walk with its reorg hints (lines 46-105). */
module CoreScenarios {
  import opened Bytes
  import opened Errors
  import MerkleNodes
  import opened CoreEngine

  /** The `onupdate` arguments the writer reports in core.spec.ts:208-220,
      257-273 and 291-298: append four, truncate to one, append one,
      truncate to one again. */
  method WriterUpdates(sig: seq<byte>) returns (w1: Update, w4: Result<Update>, w5: Update, w7: Result<Update>)
    ensures w1 == Update(0x01, Some(Range(false, 0, 4)), None)
    ensures w4 == Ok(Update(0x02, Some(Range(true, 1, 3)), None))
    ensures w5 == Update(0x01, Some(Range(false, 1, 1)), None)
    ensures w7 == Ok(Update(0x02, Some(Range(true, 1, 1)), None))
  {
    var core := new Core();
    var first;
    first, w1 := core.Append([[97], [98], [99], [100]], sig);
    w4 := core.Truncate(1, 1, sig);
    first, w5 := core.Append([[101]], sig);
    w7 := core.Truncate(1, 2, sig);
  }

  /** The `onupdate` arguments the clone reports in core.spec.ts:224-255,
      275-289 and 300-315: a block with an upgrade, a block alone, then
      the two reorgs that follow the writer's truncations. */
  method CloneUpdates(sig: seq<byte>) returns (c2: Result<Option<Update>>, c3: Result<Option<Update>>,
                                               c6: Result<Update>, c8: Result<Update>)
    ensures c2 == Ok(Some(Update(0x01, Some(Range(false, 1, 1)), Some([98]))))
    ensures c3 == Ok(Some(Update(0x00, Some(Range(false, 3, 1)), Some([100]))))
    ensures c6 == Ok(Update(0x03, Some(Range(true, 1, 3)), None))
    ensures c8 == Ok(Update(0x02, Some(Range(true, 1, 1)), None))
  {
    var clone;
    clone, c2, c3 := CloneProofs(sig);
    c6 := clone.Reorg(ReorgResult(1, 2, 2, 1, sig));
    c8 := clone.Reorg(ReorgResult(1, 1, 1, 2, sig));
  }

  /** core.spec.ts:224-255: a new clone takes block 1 with the upgrade to
      the writer's four blocks, then block 3 alone. */
  method CloneProofs(sig: seq<byte>) returns (clone: Core, c2: Result<Option<Update>>, c3: Result<Option<Update>>)
    ensures fresh(clone) && clone.Valid() && clone.length == 4 && clone.fork == 0
    ensures c2 == Ok(Some(Update(0x01, Some(Range(false, 1, 1)), Some([98]))))
    ensures c3 == Ok(Some(Update(0x00, Some(Range(false, 3, 1)), Some([100]))))
  {
    clone := new Core();
    c2 := clone.Verify(Proof(Some((1, [98])), Some(Upgrade(0, 4, 4, sig))), true, true);
    c3 := clone.Verify(Proof(Some((3, [100])), None), true, true);
  }

  /** core.spec.ts:166-198: a clone verifies upgrades requested for two and
      three of the writer's four blocks and ends at the writer's length and
      signature. */
  method ParallelUpgrades(sig: seq<byte>) returns (length: nat, signature: seq<byte>)
    ensures length == 4 && signature == sig
  {
    var writer := new Core();
    var first, u := writer.Append([[97], [98], [99], [100]], sig);
    var clone := new Core();
    length, signature := VerifyBackToBack(writer, clone, 2, 3);
  }

  /** The append-and-truncate walk of core.spec.ts:46-105: counters and
      hints after each truncation, four hints kept after the last one, and
      the same header back after reopening. */
  method AppendTruncate(sig: seq<byte>) returns (after1: Header, after2: Header, after3: Header, last: Header, reopened: Header)
    ensures after1.tree.length == 3 && after1.tree.byteLength == 12 && after1.tree.fork == 1
    ensures after1.reorgs == [Hint(0, 1, 3)]
    ensures after2.tree.length == 3 && after2.tree.byteLength == 12 && after2.tree.fork == 2
    ensures after2.reorgs == [Hint(0, 1, 3), Hint(1, 2, 3)]
    ensures after3.reorgs == [Hint(2, 3, 2)]
    ensures last.reorgs == [Hint(3, 4, 2), Hint(4, 5, 2), Hint(5, 6, 2), Hint(6, 7, 2)]
    ensures reopened.tree.length == 2 && reopened.tree.byteLength == 10 && reopened.tree.fork == 7
    ensures |reopened.reorgs| == 4
  {
    var core := FirstCut(sig);
    after1 := core.Current();
    SecondCut(core, sig);
    after2 := core.Current();
    ThirdCut(core, sig);
    after3 := core.Current();
    AppendAndCut(core, 4, sig);
    AppendAndCut(core, 5, sig);
    AppendAndCut(core, 6, sig);
    AppendAndCut(core, 7, sig);
    SameAncestorHints();
    last := core.Current();
    var again := new Core.Reopen(core.stored, core.blocks);
    reopened := again.Current();
  }

  /** core.spec.ts:49-61: four blocks appended to a new core, then cut to three. */
  method FirstCut(sig: seq<byte>) returns (core: Core)
    ensures fresh(core) && core.Valid() && core.blocks == Stored([Hello(), World(), [102, 111]])
    ensures core.length == 3 && core.byteLength == 12 && core.fork == 1
    ensures core.reorgs == [Hint(0, 1, 3)]
  {
    core := new Core();
    var batch := [Hello(), World(), [102, 111], [111, 111, 111]];
    var first, u := core.Append(batch, sig);
    forall k | 0 <= k < 3
      ensures k in core.blocks && core.blocks[k] == batch[k]
    {
      assert core.blocks[first + k] == batch[k];
    }
    assert batch[..3] == [Hello(), World(), [102, 111]];
    Cut(core, batch[..3], 1, sig);
    Sizes();
    assert PopLarger([], 3) == [];
  }

  /** core.spec.ts:63-78: four more blocks, cut back to the same three. */
  method SecondCut(core: Core, sig: seq<byte>)
    requires core.Valid() && core.blocks == Stored([Hello(), World(), [102, 111]])
    requires core.length == 3 && core.fork == 1 && core.reorgs == [Hint(0, 1, 3)]
    modifies core
    ensures core.Valid() && core.blocks == Stored([Hello(), World(), [102, 111]])
    ensures core.length == 3 && core.byteLength == 12 && core.fork == 2
    ensures core.reorgs == [Hint(0, 1, 3), Hint(1, 2, 3)]
  {
    ghost var before := core.blocks;
    var first, u := core.Append([[97], [98], [99], [100]], sig);
    var kept := [Hello(), World(), [102, 111]];
    forall k | 0 <= k < 3
      ensures k in core.blocks && core.blocks[k] == kept[k]
    {
      assert k in before;
    }
    Cut(core, kept, 2, sig);
    Sizes();
    ReorgHintsScenario();
  }

  /** core.spec.ts:80-82: a cut to two blocks replaces both hints. */
  method ThirdCut(core: Core, sig: seq<byte>)
    requires core.Valid() && core.blocks == Stored([Hello(), World(), [102, 111]])
    requires core.length == 3 && core.fork == 2 && core.reorgs == [Hint(0, 1, 3), Hint(1, 2, 3)]
    modifies core
    ensures core.Valid() && core.blocks == Stored([Hello(), World()])
    ensures core.length == 2 && core.byteLength == 10 && core.fork == 3
    ensures core.reorgs == [Hint(2, 3, 2)]
  {
    Cut(core, [Hello(), World()], 3, sig);
    Sizes();
    ReorgHintsScenario();
  }

  /** One round of core.spec.ts:85-94: append "a", then truncate back to
      "hello" and "world" on fork `to`. */
  method AppendAndCut(core: Core, to: nat, sig: seq<byte>)
    requires core.Valid() && core.blocks == Stored([Hello(), World()])
    requires core.length == 2 && core.byteLength == 10
    modifies core
    ensures core.Valid() && core.blocks == Stored([Hello(), World()])
    ensures core.length == 2 && core.byteLength == 10 && core.fork == to
    ensures core.reorgs == AddHint(old(core.reorgs), Hint(old(core.fork), to, 2))
  {
    var first, u := core.Append([[97]], sig);
    Cut(core, [Hello(), World()], to, sig);
    Sizes();
  }

  /** `truncate(|kept|, to)` on a core whose first blocks are `kept`. */
  method Cut(core: Core, kept: seq<MerkleNodes.Block>, to: nat, sig: seq<byte>)
    requires core.Valid() && |kept| <= core.length
    requires forall k :: 0 <= k < |kept| ==> k in core.blocks && core.blocks[k] == kept[k]
    modifies core
    ensures core.Valid() && core.length == |kept| && core.fork == to
    ensures core.byteLength == MerkleNodes.TotalSize(kept)
    ensures core.blocks == Stored(kept)
    ensures core.reorgs == AddHint(old(core.reorgs), Hint(old(core.fork), to, |kept|))
  {
    HeldPrefix(core.blocks, kept);
    var r := core.Truncate(|kept|, to, sig);
    Sizes();
  }

  /** core.spec.ts:7-44: appending "hello" and "world" returns sequence
      number 0 and gives two blocks of ten bytes; appending "hej" then
      returns 2 and gives three blocks of thirteen bytes. */
  method AppendWalk(sig: seq<byte>) returns (seq1: nat, seq2: nat, core: Core)
    ensures seq1 == 0 && seq2 == 2
    ensures core.Valid() && core.length == 3 && core.byteLength == 13
    ensures core.blocks == Stored([Hello(), World(), Hej()])
  {
    core := new Core();
    var u;
    seq1, u := core.Append([Hello(), World()], sig);
    assert core.length == 2 && core.byteLength == 10 by { Sizes(); }
    seq2, u := core.Append([Hej()], sig);
    assert MerkleNodes.TotalSize([Hej()]) == 3 by {
      assert [Hej()][..0] == [];
    }
  }

  /** core.spec.ts:107-132: four edits of the user data, then the list
      as a reopened core reads it back from the persisted header. The
      values "world" and "verden" stand as their first bytes. */
  method UserDataWalk() returns (edits: seq<seq<Entry>>, reopened: seq<Entry>)
    ensures edits == [[Entry("hello", [119])],
                      [Entry("hello", [119]), Entry("hej", [118])],
                      [Entry("hej", [118])],
                      [Entry("hej", [119])]]
    ensures reopened == [Entry("hej", [119])]
  {
    UserDataScenario();
    var core := new Core();
    core.UserData("hello", Some([119]));
    edits := [core.userData];
    core.UserData("hej", Some([118]));
    edits := edits + [core.userData];
    core.UserData("hello", None);
    edits := edits + [core.userData];
    core.UserData("hej", Some([119]));
    edits := edits + [core.userData];
    var again := new Core.Reopen(core.stored, core.blocks);
    reopened := again.userData;
  }

  /** core.spec.ts:135-164: a clone verifies the writer's upgrade to two
      blocks and ends at the writer's length and signature, then takes
      block 1 alone. */
  method VerifyWalk(sig: seq<byte>) returns (length: nat, signature: seq<byte>, block: Result<Option<Update>>)
    ensures length == 2 && signature == sig
    ensures block == Ok(Some(Update(0x00, Some(Range(false, 1, 1)), Some([98]))))
  {
    var writer := new Core();
    var first, u := writer.Append([[97], [98]], sig);
    var clone := new Core();
    var r := clone.Verify(Proof(None, Some(Served(writer.Current(), 0, 2))), true, true);
    length, signature := clone.length, clone.signature;
    block := clone.Verify(Proof(Some((1, [98])), None), true, true);
  }

  /** The blocks `bs` held at indices `0 .. |bs| - 1`. */
  function Stored(bs: seq<MerkleNodes.Block>): map<nat, MerkleNodes.Block> {
    map k | 0 <= k < |bs| :: bs[k]
  }

  /** "hello" */
  function Hello(): MerkleNodes.Block { [104, 101, 108, 108, 111] }
  /** "world" */
  function World(): MerkleNodes.Block { [119, 111, 114, 108, 100] }
  /** "hej" */
  function Hej(): MerkleNodes.Block { [104, 101, 106] }

  /** The byte lengths the test expects: 12 for "hello", "world", "fo" and
      10 for the first two. */
  lemma Sizes()
    ensures MerkleNodes.TotalSize([Hello(), World()]) == 10
    ensures MerkleNodes.TotalSize([Hello(), World(), [102, 111]]) == 12
  {
    var two := [Hello(), World()];
    assert two[..1] == [Hello()] && [Hello()][..0] == [];
    assert [Hello(), World(), [102, 111]][..2] == two;
  }

  /** Hints that all keep two blocks pile up; the fifth pushes out the oldest. */
  lemma SameAncestorHints()
    ensures AddHint(AddHint(AddHint(AddHint([Hint(2, 3, 2)], Hint(3, 4, 2)), Hint(4, 5, 2)), Hint(5, 6, 2)), Hint(6, 7, 2))
      == [Hint(3, 4, 2), Hint(4, 5, 2), Hint(5, 6, 2), Hint(6, 7, 2)]
  {
    var one := [Hint(2, 3, 2)];
    AddHintAppends(one, Hint(3, 4, 2));
    var two := one + [Hint(3, 4, 2)];
    AddHintAppends(two, Hint(4, 5, 2));
    var three := two + [Hint(4, 5, 2)];
    AddHintAppends(three, Hint(5, 6, 2));
    assert three + [Hint(5, 6, 2)] == [Hint(2, 3, 2), Hint(3, 4, 2), Hint(4, 5, 2), Hint(5, 6, 2)];
    ReorgHintsCapScenario();
  }

  /** Blocks `bs` held at indices `0 ..` form the prefix of that length. */
  lemma HeldPrefix(blocks: map<nat, MerkleNodes.Block>, bs: seq<MerkleNodes.Block>)
    requires forall k :: 0 <= k < |bs| ==> k in blocks && blocks[k] == bs[k]
    ensures Held(blocks, |bs|) && Prefix(blocks, |bs|) == bs
  {
  }
}
