/** Fork reconciliation: `tree.reorg(proof)` finds how many leading blocks
    a local tree shares with a remote one, then adopts the remote tree.

    The walk starts from the remote roots of an upgrade proof: the first
    root the local store does not hold as it is marks where the two logs
    part. It then descends from that root, one round trip per level: the
    remote sends the children of the current node, and the walk follows
    the left child when the local store does not hold it, else the right
    one. At a leaf the walk is finished and `ancestors` is that leaf's
    sequence number. */
module MerkleReorg {
  import opened Bytes
  import opened FlatTree
  import opened MerkleNodes
  import opened Merkle

  /** The first `a` blocks of `w` and `v` agree and the next do not: `a`
      is the length of their longest common prefix. */
  ghost predicate CommonPrefix(w: seq<Block>, v: seq<Block>, a: nat)
  {
    && a <= |w| && a <= |v| && w[..a] == v[..a]
    && (a < |w| && a < |v| ==> w[a] != v[a])
  }

  /** Two logs have one longest common prefix. */
  lemma CommonPrefixUnique(w: seq<Block>, v: seq<Block>, a: nat, b: nat)
    requires CommonPrefix(w, v, a) && CommonPrefix(w, v, b)
    ensures a == b
  {
    if a < b {
      PrefixAt(w, v, b, a);
    } else if b < a {
      PrefixAt(w, v, a, b);
    }
  }

  /** Logs that agree on their first `b` blocks agree on block `a < b`. */
  lemma PrefixAt(w: seq<Block>, v: seq<Block>, b: nat, a: nat)
    requires a < b <= |w| && b <= |v| && w[..b] == v[..b]
    ensures w[a] == v[a]
  {
    assert w[a] == w[..b][a] && v[a] == v[..b][a];
  }

  /** The local store holds the remote node `n` as it is. */
  predicate Holds(store: map<nat, Node>, n: Node)
  {
    n.index in store && store[n.index] == n
  }

  /** Where the walk stands at remote node `d`: the logs share every block
      before the node, and the local store does not hold it as it is. */
  ghost predicate Parting(w: seq<Block>, store: map<nat, Node>, remote: seq<Block>, d: nat)
  {
    && Start(d) < End(d) <= |remote| && Start(d) <= |w|
    && w[..Start(d)] == remote[..Start(d)]
    && !Holds(store, NodeAt(remote, d))
  }

  /** `reorg(proof)` with the update rounds of its caller: `roots` are the
      remote roots the upgrade proof carried, and `ask(i)` stands for the
      round trip that fetches the remote node `i`. The walk reports the
      length of the common prefix of the local and the remote log. */
  method Reorg(tree: MerkleTree, roots: seq<Node>, ask: nat -> Node, ghost remote: seq<Block>)
    returns (ancestors: nat, rounds: nat)
    requires tree.Sound() && tree.Complete()
    requires roots == RootsOf(remote)
    requires forall i :: End(i) <= |remote| ==> ask(i) == NodeAt(remote, i)
    ensures CommonPrefix(tree.blocks, remote, ancestors)
  {
    ghost var w := tree.blocks;
    var store := tree.nodes;
    assert Stored(w, store) && Covers(store, |w|);
    var k, shared := FirstDiverging(store, roots, w, remote);
    rounds := 0;
    if k == |roots| {
      return shared, rounds;
    }
    StartBeforeEnd(roots[k].index);
    ancestors, rounds := Descend(store, roots[k].index, ask, w, remote);
  }

  /** The descent from the first remote root the local store does not
      hold: one round per level, to the leaf where the logs part. */
  method Descend(store: map<nat, Node>, root: nat, ask: nat -> Node, ghost w: seq<Block>, ghost remote: seq<Block>)
    returns (ancestors: nat, rounds: nat)
    requires Stored(w, store) && Covers(store, |w|)
    requires Parting(w, store, remote, root)
    requires forall i :: End(i) <= |remote| ==> ask(i) == NodeAt(remote, i)
    ensures CommonPrefix(w, remote, ancestors) && rounds == Depth(root)
  {
    var d := root;
    rounds := 0;
    while d % 2 == 1
      invariant Parting(w, store, remote, d) && rounds + Depth(d) == Depth(root)
      decreases Depth(d)
    {
      Children(d);
      StartBeforeEnd(RightChild(d));
      var left := ask(LeftChild(d));
      assert left == NodeAt(remote, LeftChild(d));
      rounds := rounds + 1;
      if Holds(store, left) {
        StepRight(w, store, remote, d);
        d := RightChild(d);
      } else {
        StepLeft(w, store, remote, d);
        d := LeftChild(d);
      }
    }
    ancestors := Start(d);
    AtLeaf(w, store, remote, d);
  }

  /** The first remote root the local store does not hold as it is, and
      the number of blocks before it, which both logs share. When every
      root is held the whole remote log is shared. */
  method FirstDiverging(store: map<nat, Node>, roots: seq<Node>, ghost w: seq<Block>, ghost remote: seq<Block>)
    returns (k: nat, shared: nat)
    requires Stored(w, store)
    requires roots == RootsOf(remote)
    ensures k <= |roots| && shared <= |w| && shared <= |remote|
    ensures w[..shared] == remote[..shared]
    ensures k == |roots| ==> shared == |remote|
    ensures k < |roots| ==> && Start(roots[k].index) == shared
                            && End(roots[k].index) <= |remote|
                            && roots[k] == NodeAt(remote, roots[k].index)
                            && !Holds(store, roots[k])
  {
    ghost var idx := FullRoots(|remote|);
    FullRootsTile(|remote|);
    FullRootsBound(|remote|);
    k, shared := 0, 0;
    while k < |roots| && Holds(store, roots[k])
      invariant k <= |roots| && shared <= |w| && shared <= |remote|
      invariant Tiles(idx[..k], shared)
      invariant w[..shared] == remote[..shared]
    {
      var x := roots[k].index;
      TilesPrefix(idx, |remote|, k);
      TilesUnique(idx[..k], shared, Start(x));
      StartBeforeEnd(x);
      assert roots[k] == NodeAt(remote, x);
      NodeAtBinding(w, remote, x);
      JoinedPrefix(w, remote, shared, End(x));
      k, shared := k + 1, End(x);
    }
    if k == |roots| {
      assert idx[..k] == idx;
      TilesUnique(idx, shared, |remote|);
    } else {
      TilesPrefix(idx, |remote|, k);
      TilesUnique(idx[..k], shared, Start(idx[k]));
      assert roots[k] == NodeAt(remote, idx[k]);
    }
  }

  /** A held left child moves the shared prefix to the right child's start,
      and the right child is then not held, since its parent is not. */
  lemma StepRight(w: seq<Block>, store: map<nat, Node>, remote: seq<Block>, d: nat)
    requires Stored(w, store) && Covers(store, |w|) && d % 2 == 1
    requires Parting(w, store, remote, d)
    requires End(LeftChild(d)) <= |remote| && Holds(store, NodeAt(remote, LeftChild(d)))
    ensures Parting(w, store, remote, RightChild(d))
  {
    var l, r := LeftChild(d), RightChild(d);
    Children(d);
    StartBeforeEnd(l);
    StartBeforeEnd(r);
    assert store[l] == NodeAt(w, l);
    NodeAtBinding(w, remote, l);
    JoinedPrefix(w, remote, Start(d), End(l));
    if Holds(store, NodeAt(remote, r)) {
      assert false;
    }
  }

  /** A left child the local store does not hold as it is keeps the walk
      where it is parting, one level down. */
  lemma StepLeft(w: seq<Block>, store: map<nat, Node>, remote: seq<Block>, d: nat)
    requires d % 2 == 1 && Parting(w, store, remote, d)
    requires End(LeftChild(d)) <= |remote| && !Holds(store, NodeAt(remote, LeftChild(d)))
    ensures Parting(w, store, remote, LeftChild(d))
  {
    Children(d);
    StartBeforeEnd(LeftChild(d));
  }

  /** A leaf the local store does not hold as the remote has it is where
      the logs part: the local log ends there or has another block. */
  lemma AtLeaf(w: seq<Block>, store: map<nat, Node>, remote: seq<Block>, d: nat)
    requires Stored(w, store) && Covers(store, |w|) && d % 2 == 0
    requires Parting(w, store, remote, d)
    ensures CommonPrefix(w, remote, Start(d))
  {
    var n := d / 2;
    assert Start(d) == n && End(d) == n + 1;
    if n < |w| {
      LeafIndex(n);
      NodeAtLeaf(w, n);
      NodeAtLeaf(remote, n);
      assert d in store;
    }
  }

  /** The stored nodes inside a shared prefix are honest for the remote. */
  lemma KeptStored(w: seq<Block>, remote: seq<Block>, nodes: map<nat, Node>, a: nat)
    requires Stored(w, nodes) && a <= |w| && a <= |remote| && w[..a] == remote[..a]
    ensures Stored(remote, Within(nodes, a))
  {
    forall i | i in Within(nodes, a)
      ensures End(i) <= |remote| && nodes[i] == NodeAt(remote, i)
    {
      SharedPrefix(w, remote, a, End(i));
      NodeAtPrefix(w, remote, i);
    }
  }

  /** Logs that share `a` blocks share every shorter prefix. */
  lemma SharedPrefix(w: seq<Block>, v: seq<Block>, a: nat, e: nat)
    requires e <= a <= |w| && a <= |v| && w[..a] == v[..a]
    ensures w[..e] == v[..e]
  {
    assert w[..e] == w[..a][..e] && v[..e] == v[..a][..e];
  }

  /** The counters `reorg.commit()` takes from the remote roots: the
      length is where the last root ends and the byte length their sizes. */
  lemma RemoteCounters(remote: seq<Block>, roots: seq<Node>)
    requires roots == RootsOf(remote)
    ensures (if roots == [] then 0 else End(roots[|roots| - 1].index)) == |remote|
    ensures SumSizes(roots) == TotalSize(remote)
  {
    RootsSize(remote);
    LastRoot(|remote|);
  }

  /** `reorg.commit()`: the tree keeps the nodes inside the shared prefix,
      takes the remote roots and counters and moves to `fork`. */
  method CommitReorg(tree: MerkleTree, roots: seq<Node>, ancestors: nat, fork: nat, ghost remote: seq<Block>)
    requires tree.Sound() && roots == RootsOf(remote)
    requires CommonPrefix(tree.blocks, remote, ancestors)
    modifies tree
    ensures tree.Sound()
    ensures tree.blocks == remote && tree.length == |remote| && tree.roots == roots
    ensures tree.byteLength == TotalSize(remote) && tree.fork == fork
    ensures tree.nodes == Within(old(tree.nodes), ancestors)
  {
    var kept := Within(tree.nodes, ancestors);
    KeptStored(tree.blocks, remote, tree.nodes, ancestors);
    RemoteCounters(remote, roots);
    var length := if roots == [] then 0 else End(roots[|roots| - 1].index);
    var byteLength := SumSizes(roots);
    tree.nodes, tree.roots, tree.length, tree.byteLength, tree.fork, tree.blocks
      := kept, roots, length, byteLength, fork, remote;
  }

  /** The test helper `reorg(local, remote)`: an upgrade proof of the whole
      remote log starts the walk, the rounds fetch nodes until it finishes,
      and the commit adopts the remote tree at the remote's `fork`. The
      local tree ends with the remote's length and fork, and `ancestors` is
      the common prefix of the logs. */
  method ReorgCommit(tree: MerkleTree, roots: seq<Node>, ask: nat -> Node, fork: nat, ghost remote: seq<Block>)
    returns (ancestors: nat)
    requires tree.Sound() && tree.Complete()
    requires roots == RootsOf(remote)
    requires forall i :: End(i) <= |remote| ==> ask(i) == NodeAt(remote, i)
    modifies tree
    ensures CommonPrefix(old(tree.blocks), remote, ancestors)
    ensures tree.Sound() && tree.blocks == remote && tree.length == |remote| && tree.fork == fork
  {
    var rounds;
    ancestors, rounds := Reorg(tree, roots, ask, remote);
    CommitReorg(tree, roots, ancestors, fork, remote);
  }

  /** The block `"#i"` the tests append, its number held in one byte: the
      tests number fewer than 256 blocks. */
  function Numbered(i: nat): (b: Block)
    requires i < 256
    ensures |b| == 2 && b[0] == 35 && b[1] == i
  {
    [35, i]
  }

  /** `create(n)`: the blocks `"#0"` to `"#n-1"`. */
  function Created(n: nat): (w: seq<Block>)
    requires n <= 256
    ensures |w| == n && forall i :: 0 <= i < n ==> w[i] == Numbered(i)
  {
    seq(n, i requires 0 <= i < n => Numbered(i))
  }

  /** `"fork #1"` and `"fork #2"`, in ASCII. */
  function ForkBlock(which: byte): (b: Block)
    ensures |b| == 7 && b[6] == which
  {
    [102, 111, 114, 107, 32, 35, which]
  }

  /** Logs that agree on `a` blocks and then differ, or of which one ends
      at `a`, have `a` as their one common prefix. */
  lemma PartsAt(w: seq<Block>, v: seq<Block>, a: nat)
    requires CommonPrefix(w, v, a)
    ensures forall b :: CommonPrefix(w, v, b) <==> b == a
  {
    forall b | CommonPrefix(w, v, b)
      ensures b == a
    {
      CommonPrefixUnique(w, v, a, b);
    }
  }

  /** "small gap": a local log of 8 under a remote one of 10 shares 8. */
  lemma SmallGapScenario()
    ensures forall b :: CommonPrefix(Created(8), Created(10), b) <==> b == 8
  {
    assert Created(8) == Created(10)[..8];
    PartsAt(Created(8), Created(10), 8);
  }

  /** "bigger gap": a local log of 1 under a remote one of 20 shares 1. */
  lemma BiggerGapScenario()
    ensures forall b :: CommonPrefix(Created(1), Created(20), b) <==> b == 1
  {
    assert Created(1) == Created(20)[..1];
    PartsAt(Created(1), Created(20), 1);
  }

  /** "remote is shorter than local": a remote of 5 under a local 10. */
  lemma ShorterRemoteScenario()
    ensures forall b :: CommonPrefix(Created(10), Created(5), b) <==> b == 5
  {
    assert Created(5) == Created(10)[..5];
    PartsAt(Created(10), Created(5), 5);
  }

  /** Five shared blocks, then `"fork #1"` or `"fork #2"`, then `"#0"` to
      `"#tail-1"`. */
  function Forked(which: byte, tail: nat): (w: seq<Block>)
    requires tail <= 256
    ensures |w| == 6 + tail && w[..5] == Created(5) && w[5] == ForkBlock(which)
  {
    Created(5) + [ForkBlock(which)] + Created(tail)
  }

  /** "simple fork": 5 shared blocks, then `"fork #2"` locally against
      `"fork #1"` remotely. */
  lemma SimpleForkScenario()
    ensures forall b :: CommonPrefix(Forked(50, 0), Forked(49, 0), b) <==> b == 5
  {
    assert Forked(50, 0)[5][6] != Forked(49, 0)[5][6];
    PartsAt(Forked(50, 0), Forked(49, 0), 5);
  }

  /** "long fork": as the simple fork, and each side then appends `"#0"`
      to `"#99"`; the logs still part at 5. */
  lemma LongForkScenario()
    ensures forall b :: CommonPrefix(Forked(50, 100), Forked(49, 100), b) <==> b == 5
  {
    assert Forked(50, 100)[5][6] != Forked(49, 100)[5][6];
    PartsAt(Forked(50, 100), Forked(49, 100), 5);
  }
}
