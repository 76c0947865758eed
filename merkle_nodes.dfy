/** Nodes of the Merkle tree and what an honest tree stores at every index.

    Hashes are symbolic terms: two hashes are equal exactly when they were
    built from equal inputs. This is the collision resistance the tree
    relies on, stated as an idealisation; the concrete hash functions are
    not part of the model. */
module MerkleNodes {
  import opened Bytes
  import opened FlatTree

  type Block = seq<byte>

  /** The data hash of a block, the parent hash of two nodes (their hashes
      and sizes), and the tree hash of a list of roots. */
  datatype Hash =
    | LeafHash(data: Block)
    | ParentHash(left: Hash, leftSize: nat, right: Hash, rightSize: nat)
    | TreeHash(roots: seq<Node>)

  /** A node: flat index, number of bytes under it, hash. */
  datatype Node = Node(index: nat, size: nat, hash: Hash)

  function LeafNode(seqNo: nat, block: Block): (n: Node)
    ensures n.index == 2 * seqNo && n.size == |block|
  {
    Node(2 * seqNo, |block|, LeafHash(block))
  }

  function ParentNode(index: nat, left: Node, right: Node): (n: Node)
    ensures n.index == index && n.size == left.size + right.size
  {
    Node(index, left.size + right.size, ParentHash(left.hash, left.size, right.hash, right.size))
  }

  function Indices(rs: seq<Node>): (r: seq<nat>)
    ensures |r| == |rs| && forall k :: 0 <= k < |rs| ==> r[k] == rs[k].index
  {
    seq(|rs|, k requires 0 <= k < |rs| => rs[k].index)
  }

  /** Total number of bytes in a list of blocks. */
  function TotalSize(blocks: seq<Block>): nat
  {
    if blocks == [] then 0 else TotalSize(blocks[..|blocks| - 1]) + |blocks[|blocks| - 1]|
  }

  /** Total size of a list of nodes. */
  function SumSizes(rs: seq<Node>): nat
  {
    if rs == [] then 0 else SumSizes(rs[..|rs| - 1]) + rs[|rs| - 1].size
  }

  lemma {:induction false} TotalSizeConcat(a: seq<Block>, b: seq<Block>)
    ensures TotalSize(a + b) == TotalSize(a) + TotalSize(b)
    decreases |b|
  {
    if b != [] {
      assert (a + b)[..|a + b| - 1] == a + b[..|b| - 1];
      TotalSizeConcat(a, b[..|b| - 1]);
    } else {
      assert a + b == a;
    }
  }

  lemma {:induction false} SumSizesConcat(a: seq<Node>, b: seq<Node>)
    ensures SumSizes(a + b) == SumSizes(a) + SumSizes(b)
    decreases |b|
  {
    if b != [] {
      assert (a + b)[..|a + b| - 1] == a + b[..|b| - 1];
      SumSizesConcat(a, b[..|b| - 1]);
    } else {
      assert a + b == a;
    }
  }

  /** The bytes under a span split at any leaf in between. */
  lemma SpanSplit(blocks: seq<Block>, s: nat, m: nat, e: nat)
    requires s <= m <= e <= |blocks|
    ensures TotalSize(blocks[s..e]) == TotalSize(blocks[s..m]) + TotalSize(blocks[m..e])
  {
    assert blocks[s..e] == blocks[s..m] + blocks[m..e];
    TotalSizeConcat(blocks[s..m], blocks[m..e]);
  }

  /** The blocks under node `i`. */
  function Under(blocks: seq<Block>, i: nat): seq<Block>
    requires End(i) <= |blocks|
  {
    StartBeforeEnd(i);
    blocks[Start(i)..End(i)]
  }

  /** The node an honest tree over `blocks` holds at index `i`: a leaf
      hashes its block, a parent hashes its two children. */
  function NodeAt(blocks: seq<Block>, i: nat): (n: Node)
    requires End(i) <= |blocks|
    ensures n.index == i
    ensures n.size == TotalSize(Under(blocks, i))
    decreases Depth(i)
  {
    if i % 2 == 0 then
      assert blocks[Start(i)..End(i)] == [blocks[i / 2]];
      assert TotalSize([blocks[i / 2]]) == TotalSize([]) + |blocks[i / 2]|;
      LeafNode(i / 2, blocks[i / 2])
    else
      Children(i);
      StartBeforeEnd(LeftChild(i));
      StartBeforeEnd(RightChild(i));
      SpanSplit(blocks, Start(i), End(LeftChild(i)), End(i));
      ParentNode(i, NodeAt(blocks, LeftChild(i)), NodeAt(blocks, RightChild(i)))
  }

  /** The honest node at an even index is the leaf of that block. */
  lemma NodeAtLeaf(blocks: seq<Block>, n: nat)
    requires n < |blocks|
    ensures End(2 * n) <= |blocks| && NodeAt(blocks, 2 * n) == LeafNode(n, blocks[n])
  {
    LeafIndex(n);
    assert (2 * n) / 2 == n;
  }

  /** The roots of an honest tree over `blocks`, in order. */
  function RootsOf(blocks: seq<Block>): (rs: seq<Node>)
    ensures Indices(rs) == FullRoots(|blocks|)
  {
    var idx := FullRoots(|blocks|);
    FullRootsBound(|blocks|);
    seq(|idx|, k requires 0 <= k < |idx| => NodeAt(blocks, idx[k]))
  }

  /** `rs` holds, at each of its indices, the honest node over `blocks`. */
  ghost predicate Honest(blocks: seq<Block>, rs: seq<Node>)
  {
    forall k :: 0 <= k < |rs| ==> End(rs[k].index) <= |blocks| && rs[k] == NodeAt(blocks, rs[k].index)
  }

  /** The honest nodes at the roots' indices are the roots. */
  lemma HonestRoots(blocks: seq<Block>, rs: seq<Node>)
    requires Indices(rs) == FullRoots(|blocks|) && Honest(blocks, rs)
    ensures rs == RootsOf(blocks)
  {
  }

  /** The roots of a log are honest for it. */
  lemma RootsHonest(blocks: seq<Block>)
    ensures Honest(blocks, RootsOf(blocks))
  {
    var rs := RootsOf(blocks);
    FullRootsBound(|blocks|);
    forall k | 0 <= k < |rs|
      ensures End(rs[k].index) <= |blocks| && rs[k] == NodeAt(blocks, rs[k].index)
    {
      assert rs[k].index == FullRoots(|blocks|)[k];
    }
  }

  /** A node only depends on the blocks under it. */
  lemma {:induction false} NodeAtPrefix(w: seq<Block>, v: seq<Block>, i: nat)
    requires End(i) <= |w| && End(i) <= |v|
    requires w[..End(i)] == v[..End(i)]
    ensures NodeAt(w, i) == NodeAt(v, i)
    decreases Depth(i)
  {
    if i % 2 == 0 {
      assert w[i / 2] == w[..End(i)][i / 2];
      assert v[i / 2] == v[..End(i)][i / 2];
    } else {
      var l, r := LeftChild(i), RightChild(i);
      Children(i);
      StartBeforeEnd(r);
      assert w[..End(l)] == w[..End(i)][..End(l)];
      assert v[..End(l)] == v[..End(i)][..End(l)];
      NodeAtPrefix(w, v, l);
      NodeAtPrefix(w, v, r);
      assert NodeAt(w, i) == ParentNode(i, NodeAt(w, l), NodeAt(w, r));
      assert NodeAt(v, i) == ParentNode(i, NodeAt(v, l), NodeAt(v, r));
    }
  }

  /** A node's hash binds every block under it: two honest trees that
      agree on a node agree on the blocks it covers. */
  lemma {:induction false} NodeAtBinding(w: seq<Block>, v: seq<Block>, i: nat)
    requires End(i) <= |w| && End(i) <= |v|
    requires NodeAt(w, i) == NodeAt(v, i)
    ensures Under(w, i) == Under(v, i)
    decreases Depth(i)
  {
    if i % 2 == 1 {
      var l, r := LeftChild(i), RightChild(i);
      ChildrenAgree(w, v, i);
      NodeAtBinding(w, v, l);
      NodeAtBinding(w, v, r);
      UnderSplit(w, i);
      UnderSplit(v, i);
    }
  }

  /** Equal honest parents have equal honest children. */
  lemma ChildrenAgree(w: seq<Block>, v: seq<Block>, i: nat)
    requires i % 2 == 1 && End(i) <= |w| && End(i) <= |v|
    requires NodeAt(w, i) == NodeAt(v, i)
    ensures Depth(LeftChild(i)) < Depth(i) && Depth(RightChild(i)) < Depth(i)
    ensures End(LeftChild(i)) <= |w| && End(LeftChild(i)) <= |v|
    ensures End(RightChild(i)) <= |w| && End(RightChild(i)) <= |v|
    ensures NodeAt(w, LeftChild(i)) == NodeAt(v, LeftChild(i))
    ensures NodeAt(w, RightChild(i)) == NodeAt(v, RightChild(i))
  {
    var l, r := LeftChild(i), RightChild(i);
    Children(i);
    StartBeforeEnd(r);
    assert NodeAt(w, i) == ParentNode(i, NodeAt(w, l), NodeAt(w, r));
    assert NodeAt(v, i) == ParentNode(i, NodeAt(v, l), NodeAt(v, r));
  }

  /** The blocks under a parent are those under its left child, then
      those under its right child. */
  lemma UnderSplit(w: seq<Block>, i: nat)
    requires i % 2 == 1 && End(i) <= |w|
    ensures End(LeftChild(i)) <= |w| && End(RightChild(i)) <= |w|
    ensures Under(w, i) == Under(w, LeftChild(i)) + Under(w, RightChild(i))
  {
    var l, r := LeftChild(i), RightChild(i);
    Children(i);
    StartBeforeEnd(l);
    StartBeforeEnd(r);
    SliceSplit(w, Start(i), End(l), End(i));
  }

  lemma SliceSplit(w: seq<Block>, s: nat, m: nat, e: nat)
    requires s <= m <= e <= |w|
    ensures w[s..e] == w[s..m] + w[m..e]
  {
  }

  /** The sizes of honest nodes tiling `[0, to)` add up to the bytes there. */
  lemma {:induction false} TilesSize(blocks: seq<Block>, rs: seq<Node>, to: nat)
    requires Tiles(Indices(rs), to) && to <= |blocks| && Honest(blocks, rs)
    ensures SumSizes(rs) == TotalSize(blocks[..to])
    decreases |rs|
  {
    if rs != [] {
      var n := |rs|;
      var x := rs[n - 1].index;
      StartBeforeEnd(x);
      assert Indices(rs[..n - 1]) == Indices(rs)[..n - 1];
      TilesSize(blocks, rs[..n - 1], Start(x));
      SpanSplit(blocks, 0, Start(x), to);
      assert blocks[..to] == blocks[0..to] && blocks[..Start(x)] == blocks[0..Start(x)];
    }
  }

  /** Honest nodes tiling `[0, to)` bind the first `to` blocks. */
  lemma {:induction false} TilesBinding(w: seq<Block>, v: seq<Block>, idx: seq<nat>, to: nat)
    requires Tiles(idx, to) && to <= |w| && to <= |v|
    requires forall k :: 0 <= k < |idx| ==> End(idx[k]) <= to && NodeAt(w, idx[k]) == NodeAt(v, idx[k])
    ensures w[..to] == v[..to]
    decreases |idx|
  {
    if idx != [] {
      var n := |idx|;
      var x := idx[n - 1];
      StartBeforeEnd(x);
      var prefix := idx[..n - 1];
      LastTile(w, v, idx, to);
      TilesBinding(w, v, prefix, Start(x));
      NodeAtBinding(w, v, x);
      JoinedPrefix(w, v, Start(x), to);
    }
  }

  /** The nodes before the last of a tiling tile up to the last one's start. */
  lemma LastTile(w: seq<Block>, v: seq<Block>, idx: seq<nat>, to: nat)
    requires idx != [] && Tiles(idx, to) && to <= |w| && to <= |v|
    ensures var x := idx[|idx| - 1];
      && Start(x) < End(x) == to && Under(w, x) == w[Start(x)..to] && Under(v, x) == v[Start(x)..to]
      && Tiles(idx[..|idx| - 1], Start(x))
      && forall k :: 0 <= k < |idx| - 1 ==> End(idx[k]) <= Start(x)
  {
    var n := |idx|;
    var x := idx[n - 1];
    StartBeforeEnd(x);
    var prefix := idx[..n - 1];
    forall k | 0 <= k < n - 1
      ensures End(prefix[k]) <= Start(x)
    {
      TilesBound(prefix, Start(x), k);
    }
  }

  /** Two sequences that agree before `a` and between `a` and `b` agree before `b`. */
  lemma JoinedPrefix<T>(w: seq<T>, v: seq<T>, a: nat, b: nat)
    requires a <= b <= |w| && b <= |v| && w[..a] == v[..a] && w[a..b] == v[a..b]
    ensures w[..b] == v[..b]
  {
    assert w[..b] == w[..a] + w[a..b];
    assert v[..b] == v[..a] + v[a..b];
  }

  /** The byte length of a tree is the sum of its roots' sizes. */
  lemma RootsSize(blocks: seq<Block>)
    ensures SumSizes(RootsOf(blocks)) == TotalSize(blocks)
  {
    var rs := RootsOf(blocks);
    FullRootsTile(|blocks|);
    FullRootsBound(|blocks|);
    forall k | 0 <= k < |rs|
      ensures End(rs[k].index) <= |blocks| && rs[k] == NodeAt(blocks, rs[k].index)
    {
      assert rs[k].index == FullRoots(|blocks|)[k];
    }
    TilesSize(blocks, rs, |blocks|);
    assert blocks[..|blocks|] == blocks;
  }

  /** The roots commit to the whole log: equal roots, equal logs. The tree
      hash is a term over the roots, so equal tree hashes mean equal logs. */
  lemma RootsBinding(w: seq<Block>, v: seq<Block>)
    requires TreeHash(RootsOf(w)) == TreeHash(RootsOf(v))
    ensures w == v
  {
    var idx := FullRoots(|w|);
    assert Indices(RootsOf(w)) == Indices(RootsOf(v));
    FullRootsInjective(|w|, |v|);
    FullRootsTile(|w|);
    FullRootsBound(|w|);
    forall k | 0 <= k < |idx|
      ensures End(idx[k]) <= |w| && NodeAt(w, idx[k]) == NodeAt(v, idx[k])
    {
      assert RootsOf(w)[k] == RootsOf(v)[k];
    }
    TilesBinding(w, v, idx, |w|);
    assert w[..|w|] == w && v[..|v|] == v;
  }
}
