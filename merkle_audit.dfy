/** The tree audit: the roots sit at the indices `fullRoots` names, and
    every stored parent whose children are both held hashes them. */
module MerkleAudit {
  import opened FlatTree
  import opened MerkleNodes
  import opened Merkle

  /** Every stored node is keyed by its own index. */
  ghost predicate Keyed(nodes: map<nat, Node>)
  {
    forall i :: i in nodes ==> nodes[i].index == i
  }

  /** Below `len`, a parent's children are held together or not at all:
      the store only ever gains a parent with both its children, and drops
      nodes by length, so siblings come and go in pairs. */
  ghost predicate Paired(nodes: map<nat, Node>, len: nat)
  {
    forall p :: p % 2 == 1 && End(p) <= len ==> (LeftChild(p) in nodes <==> RightChild(p) in nodes)
  }

  /** A store that holds every node of the first `len` leaves pairs them. */
  lemma CoveredPaired(nodes: map<nat, Node>, len: nat)
    requires Covers(nodes, len)
    ensures Paired(nodes, len)
  {
    forall p | p % 2 == 1 && End(p) <= len
      ensures LeftChild(p) in nodes && RightChild(p) in nodes
    {
      Children(p);
      StartBeforeEnd(RightChild(p));
    }
  }

  /** `check(node)`: a leaf passes; a parent passes when neither child is
      held, or when both are, hash to it, and pass in turn. A parent with
      one child held fails (the hash of a missing child cannot be formed). */
  function Check(nodes: map<nat, Node>, node: Node): bool
    requires Keyed(nodes)
    decreases Depth(node.index)
  {
    if node.index % 2 == 0 then true
    else
      var l, r := LeftChild(node.index), RightChild(node.index);
      Children(node.index);
      if l !in nodes && r !in nodes then true
      else if l !in nodes || r !in nodes then false
      else
        && ParentHash(nodes[l].hash, nodes[l].size, nodes[r].hash, nodes[r].size) == node.hash
        && Check(nodes, nodes[l])
        && Check(nodes, nodes[r])
  }

  /** The root loop of `audit`: each root takes the next expected index and
      must check out, and no expected index may be left over. */
  function AuditRoots(roots: seq<Node>, expected: seq<nat>, nodes: map<nat, Node>): bool
    requires Keyed(nodes)
  {
    if roots == [] then expected == []
    else
      && expected != []
      && expected[0] == roots[0].index
      && Check(nodes, roots[0])
      && AuditRoots(roots[1..], expected[1..], nodes)
  }

  /** `audit(tree)`. */
  ghost function Audit(tree: MerkleTree): bool
    reads tree
    requires tree.Valid()
  {
    AuditRoots(tree.roots, FullRoots(tree.length), tree.nodes)
  }

  /** The audit passes exactly when the roots have the expected indices,
      in order, and every root checks out. */
  lemma {:induction false} AuditRootsMeans(roots: seq<Node>, expected: seq<nat>, nodes: map<nat, Node>)
    requires Keyed(nodes)
    ensures AuditRoots(roots, expected, nodes) <==>
      Indices(roots) == expected && forall k :: 0 <= k < |roots| ==> Check(nodes, roots[k])
    decreases |roots|
  {
    if roots != [] {
      AuditRootsMeans(roots[1..], if expected == [] then [] else expected[1..], nodes);
      assert Indices(roots) == [roots[0].index] + Indices(roots[1..]);
      if expected != [] {
        assert expected == [expected[0]] + expected[1..];
      }
      if forall k :: 0 <= k < |roots| ==> Check(nodes, roots[k]) {
        assert forall k :: 0 <= k < |roots[1..]| ==> Check(nodes, roots[1..][k]) by {
          forall k | 0 <= k < |roots[1..]| ensures Check(nodes, roots[1..][k]) {
            assert roots[1..][k] == roots[k + 1];
          }
        }
      }
      if Check(nodes, roots[0]) && forall k :: 0 <= k < |roots[1..]| ==> Check(nodes, roots[1..][k]) {
        forall k | 0 <= k < |roots| ensures Check(nodes, roots[k]) {
          if k > 0 {
            assert roots[k] == roots[1..][k - 1];
          }
        }
      }
    }
  }

  /** In an honest store that pairs siblings every honest node checks out. */
  lemma {:induction false} CheckSound(blocks: seq<Block>, nodes: map<nat, Node>, n: Node)
    requires Keyed(nodes) && Stored(blocks, nodes) && Paired(nodes, |blocks|)
    requires End(n.index) <= |blocks| && n == NodeAt(blocks, n.index)
    ensures Check(nodes, n)
    decreases Depth(n.index)
  {
    if n.index % 2 == 1 {
      var l, r := LeftChild(n.index), RightChild(n.index);
      Children(n.index);
      StartBeforeEnd(r);
      if l in nodes && r in nodes {
        var nl, nr := NodeAt(blocks, l), NodeAt(blocks, r);
        assert nodes[l] == nl && nodes[r] == nr;
        assert n == ParentNode(n.index, nl, nr);
        CheckSound(blocks, nodes, nl);
        CheckSound(blocks, nodes, nr);
      }
    }
  }

  /** An honest tree whose store pairs siblings passes its audit; so does
      every honest tree that holds all its nodes. */
  lemma AuditSound(tree: MerkleTree)
    requires tree.Sound() && (Paired(tree.nodes, tree.length) || tree.Complete())
    ensures Audit(tree)
  {
    if tree.Complete() {
      CoveredPaired(tree.nodes, tree.length);
    }
    var rs := tree.roots;
    RootsHonest(tree.blocks);
    forall k | 0 <= k < |rs| ensures Check(tree.nodes, rs[k]) {
      CheckSound(tree.blocks, tree.nodes, rs[k]);
    }
    AuditRootsMeans(rs, FullRoots(tree.length), tree.nodes);
  }

  /** An honest parent exposes a corrupted child: if both children are
      held and either differs from the honest node, the parent fails. */
  lemma CheckDetects(blocks: seq<Block>, nodes: map<nat, Node>, n: Node)
    requires Keyed(nodes)
    requires n.index % 2 == 1 && End(n.index) <= |blocks| && n == NodeAt(blocks, n.index)
    requires LeftChild(n.index) in nodes && RightChild(n.index) in nodes
    requires End(LeftChild(n.index)) <= |blocks| && End(RightChild(n.index)) <= |blocks|
    requires nodes[LeftChild(n.index)] != NodeAt(blocks, LeftChild(n.index))
          || nodes[RightChild(n.index)] != NodeAt(blocks, RightChild(n.index))
    ensures !Check(nodes, n)
  {
    var l, r := LeftChild(n.index), RightChild(n.index);
    assert n.hash == ParentHash(NodeAt(blocks, l).hash, NodeAt(blocks, l).size,
                                NodeAt(blocks, r).hash, NodeAt(blocks, r).size);
  }
}
