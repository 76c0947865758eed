/** The upgrade round trip between two trees: a tree that holds a prefix of
    another asks it for `upgrade: { start: clone.length, length:
    len - clone.length }` for any `len` up to the other's length, verifies
    the answer, whose additional nodes carry the rest of the other's roots,
    commits it, and ends up as the tree it asked. */
module MerkleRoundTrip {
  import opened Errors
  import opened Bytes
  import opened MerkleNodes
  import opened Merkle
  import opened MerkleProof
  import opened MerkleVerify

  /** The request for the blocks from `have` up to `len`. */
  function UpgradeTo(have: nat, len: nat): (req: Request)
    requires have <= len
    ensures req.block.None? && req.upgrade.Some?
    ensures req.upgrade.value.start == have && req.upgrade.value.start + req.upgrade.value.length == len
  {
    Request(None, Some(UpgradeRequest(have, len - have)))
  }

  /** The additional nodes a log of `total` blocks sends past an upgrade
      that ends at `len`. */
  function Beyond(len: nat, total: nat): seq<nat>
  {
    if len < total then UpgradeIndices(len, total) else []
  }

  /** An upgrade request from the receiver's length to `len` on a log of
      `total` blocks plans the upgrade nodes up to `len`, and the roots from
      `len` to `total` as additional nodes. */
  lemma UpgradeToPlan(have: nat, len: nat, total: nat)
    requires have < len <= total
    ensures ProofPlan(total, UpgradeTo(have, len)) == Ok(Plan(None, Some(UpgradeIndices(have, len)), Beyond(len, total)))
  {
  }

  /** The additional nodes run from the upgrade's end to the end of the log. */
  lemma BeyondChain(len: nat, total: nat)
    requires len <= total
    ensures Chain(Beyond(len, total), len, total)
  {
    if len < total {
      UpgradeChain(len, total);
    }
  }

  /** What an honest sender proves for such a request is delivered: a
      proof laid out as planned, with honest nodes of `src` and a signature
      `accepts` takes for `src`, passes every check of `verify` on a tree
      that holds a prefix of `src`. */
  lemma ProvedUpgradeDelivered(dst: MerkleTree, src: seq<Block>, len: nat, p: Proof, value: Block,
                               signature: seq<byte>, accepts: (Hash, nat, nat, seq<byte>) -> bool)
    requires dst.Sound() && dst.blocks <= src && dst.length < len <= |src|
    requires Laid(p, UpgradeTo(dst.length, len), ProofPlan(|src|, UpgradeTo(dst.length, len)).value, value, signature)
    requires ProofHonest(p, src)
    requires accepts(TreeHash(RootsOf(src)), |src|, p.fork, signature)
    ensures Delivered(dst, p, accepts, src)
  {
    UpgradeToPlan(dst.length, len, |src|);
    LaidUpgrade(p, dst.length, len, |src|, value, signature);
    var u := p.upgrade.value;
    BeyondChain(len, |src|);
    HonestUpgradeDelivered(u, p.fork, src, accepts);
    assert Offered(p, src) == None;
  }

  /** A proof laid out for `UpgradeTo(have, len)` on a log of `total`
      blocks carries no block, and an upgrade from `have` to `len` with the
      wanted nodes and the roots from `len` to `total`. */
  lemma LaidUpgrade(p: Proof, have: nat, len: nat, total: nat, value: Block, signature: seq<byte>)
    requires have < len
    requires Laid(p, UpgradeTo(have, len), Plan(None, Some(UpgradeIndices(have, len)), Beyond(len, total)),
                  value, signature)
    ensures p.block.None? && p.upgrade.Some?
    ensures p.upgrade.value.start == have && p.upgrade.value.start + p.upgrade.value.length == len
    ensures Indices(p.upgrade.value.nodes) == Wanted(p.upgrade.value)
    ensures Indices(p.upgrade.value.additional) == Beyond(len, total)
    ensures p.upgrade.value.signature == signature
  {
  }

  /** The upgrade part of `ProvedUpgradeDelivered`: honest nodes in the
      wanted order, honest additional nodes up to the end of `src`, under a
      signature `accepts` takes for `src`. */
  lemma HonestUpgradeDelivered(u: UpgradeProof, fork: nat, src: seq<Block>,
                               accepts: (Hash, nat, nat, seq<byte>) -> bool)
    requires u.start + u.length <= |src| && Honest(src, u.nodes) && Honest(src, u.additional)
    requires Indices(u.nodes) == Wanted(u) && Chain(Indices(u.additional), u.start + u.length, |src|)
    requires accepts(TreeHash(RootsOf(src)), |src|, fork, u.signature)
    ensures UpgradeDelivered(u, fork, None, accepts, src)
  {
    ServeInOrder(Wanted(u), u.nodes, None);
  }

  /** `clone.verify(await tree.proof({ upgrade: { start: clone.length,
      length: len - clone.length } }))` then `b.commit()`: the upgrade
      carries the roots from `len` on as additional nodes, so the clone
      ends with the tree's blocks, length, byte length, roots and fork. */
  method UpgradeRoundTrip(src: MerkleTree, dst: MerkleTree, len: nat, signature: seq<byte>,
                          accepts: (Hash, nat, nat, seq<byte>) -> bool)
    requires src.Sound() && src.Complete() && dst.Sound() && src != dst
    requires dst.blocks <= src.blocks && dst.length < len <= src.length
    requires accepts(TreeHash(src.roots), src.length, src.fork, signature)
    modifies dst
    ensures dst.Sound() && dst.blocks == src.blocks
    ensures dst.length == src.length && dst.byteLength == src.byteLength
    ensures dst.roots == src.roots && dst.fork == src.fork
  {
    var req := UpgradeTo(dst.length, len);
    UpgradeToPlan(dst.length, len, src.length);
    var p := Prove(src, req, [], signature);
    ProvedUpgradeDelivered(dst, src.blocks, len, p.value, [], signature, accepts);
    var b := Verify(dst, p.value, accepts, src.blocks);
    CommitAll(b.value, src);
  }

  /** `b.commit()` of a sound batch that holds `src`'s blocks at `src`'s
      fork: the tree it was opened on becomes `src`'s copy. */
  method CommitAll(b: Batch, src: MerkleTree)
    requires b.Sound() && src.Sound() && b.blocks == src.blocks && b.fork == src.fork && b.tree != src
    modifies b.tree
    ensures b.tree.Sound() && b.tree.blocks == src.blocks
    ensures b.tree.length == src.length && b.tree.byteLength == src.byteLength
    ensures b.tree.roots == src.roots && b.tree.fork == src.fork
  {
    b.Commit();
  }

  // ---------------------------------------------------------------------
  // The tree hash

  /** Two honest trees hash alike exactly when they hold the same log. */
  lemma HashBinding(w: seq<Block>, v: seq<Block>)
    ensures TreeHash(RootsOf(w)) == TreeHash(RootsOf(v)) <==> w == v
  {
    if TreeHash(RootsOf(w)) == TreeHash(RootsOf(v)) {
      RootsBinding(w, v);
    }
  }

  /** The walk of merkle-tree.spec.ts:350-375 on two trees holding the
      same log: they hash alike; a fresh batch hashes like its tree; an
      append changes the hash; the committed tree takes the batch's hash;
      and the same append on the other tree reaches that same hash. */
  method TreeHashScenario(a: MerkleTree, b: MerkleTree, block: Block)
    returns (equal: bool, fresh1: bool, changed: bool, committed: bool,
             changed2: bool, caughtUp: bool, committed2: bool)
    requires a.Sound() && b.Sound() && a.blocks == b.blocks && a != b
    modifies a, b
    ensures equal && fresh1 && changed && committed && changed2 && caughtUp && committed2
    ensures a.Sound() && b.Sound() && a.blocks == b.blocks == old(a.blocks) + [block]
  {
    HashBinding(a.blocks, b.blocks);
    equal := a.Hash() == b.Hash();

    var ab := new Batch(a);
    fresh1 := ab.Hash() == a.Hash();
    ab.Append(block);
    var h := ab.Hash();
    HashBinding(ab.blocks, a.blocks);
    changed := h != a.Hash();
    ab.Commit();
    committed := h == a.Hash();

    var bb := new Batch(b);
    bb.Append(block);
    var h2 := bb.Hash();
    HashBinding(bb.blocks, b.blocks);
    changed2 := h2 != b.Hash();
    HashBinding(bb.blocks, a.blocks);
    caughtUp := h2 == a.Hash();
    bb.Commit();
    committed2 := h2 == b.Hash();
  }
}
