/** Verifying a proof: the receiving tree rebuilds the block's root from
    the block and its uncles, appends the upgrade's nodes to a batch,
    checks the signature over the staged tree, and checks a block root the
    upgrade did not use against its own store. */
module MerkleVerify {
  import opened Bytes
  import opened Errors
  import opened FlatTree
  import opened MerkleNodes
  import opened Merkle
  import opened MerkleProof

  // ---------------------------------------------------------------------
  // Rebuilding a block's root

  /** `crypto.parent(a, b)` as a node: the parent of two siblings, hashed
      with the lower index on the left. */
  function Combine(a: Node, b: Node): (n: Node)
    ensures n.index == Parent(a.index) && n.size == a.size + b.size
  {
    if a.index < b.index then ParentNode(Parent(a.index), a, b) else ParentNode(Parent(a.index), b, a)
  }

  /** Two honest siblings combine into their honest parent. */
  lemma CombineHonest(w: seq<Block>, a: Node, b: Node)
    requires b.index == Sibling(a.index) && End(Parent(a.index)) <= |w|
    requires End(a.index) <= |w| && End(b.index) <= |w|
    requires a == NodeAt(w, a.index) && b == NodeAt(w, b.index)
    ensures Combine(a, b) == NodeAt(w, Parent(a.index))
  {
    var p := Parent(a.index);
    ParentChildren(a.index);
    Children(p);
  }

  /** A combined node whose hash is the honest parent's hash was built from
      the honest children. */
  lemma CombineBinds(w: seq<Block>, a: Node, b: Node)
    requires b.index == Sibling(a.index) && End(Parent(a.index)) <= |w|
    requires Combine(a, b).hash == NodeAt(w, Parent(a.index)).hash
    ensures End(a.index) <= |w| && a == NodeAt(w, a.index)
    ensures End(b.index) <= |w| && b == NodeAt(w, b.index)
  {
    var p := Parent(a.index);
    ParentChildren(a.index);
    Children(p);
    StartBeforeEnd(RightChild(p));
  }

  /** The root a block proof climbs to: each uncle must be the sibling of
      the node reached so far, which it then combines with. */
  function Climb(node: Node, uncles: seq<Node>): (r: Result<Node>)
    ensures r.Ok? ==> r.value.index == Ancestor(node.index, |uncles|)
    ensures r.Err? ==> r.error == InvalidProof
    decreases |uncles|
  {
    if uncles == [] then Ok(node)
    else if uncles[0].index != Sibling(node.index) then Err(InvalidProof)
    else Climb(Combine(node, uncles[0]), uncles[1..])
  }

  /** A climb succeeds exactly when the uncles sit at the sibling indices
      on the way up. */
  lemma {:induction false} ClimbShape(node: Node, uncles: seq<Node>)
    ensures Climb(node, uncles).Ok? <==> Indices(uncles) == Uncles(node.index, |uncles|)
    decreases |uncles|, 1
  {
    if uncles != [] {
      ClimbShapeCons(node, uncles);
    }
  }

  lemma {:induction false} ClimbShapeCons(node: Node, uncles: seq<Node>)
    requires uncles != []
    ensures Climb(node, uncles).Ok? <==> Indices(uncles) == Uncles(node.index, |uncles|)
    decreases |uncles|, 0
  {
    var n := Combine(node, uncles[0]);
    ClimbShape(n, uncles[1..]);
    assert Indices(uncles) == [uncles[0].index] + Indices(uncles[1..]);
  }

  /** Climbing from an honest node over honest uncles reaches the honest
      ancestor. */
  lemma {:induction false} ClimbHonest(w: seq<Block>, node: Node, uncles: seq<Node>)
    requires Indices(uncles) == Uncles(node.index, |uncles|)
    requires End(Ancestor(node.index, |uncles|)) <= |w|
    requires End(node.index) <= |w| && node == NodeAt(w, node.index) && Honest(w, uncles)
    ensures Climb(node, uncles) == Ok(NodeAt(w, Ancestor(node.index, |uncles|)))
    decreases |uncles|
  {
    if uncles != [] {
      var u, rest := uncles[0], uncles[1..];
      var p := Parent(node.index);
      IndicesTail(uncles, node.index);
      HonestTail(w, uncles);
      assert Ancestor(node.index, |uncles|) == Ancestor(p, |rest|);
      AncestorCovers(p, |rest|);
      CombineHonest(w, node, u);
      var n := Combine(node, u);
      assert Climb(node, uncles) == Climb(n, rest);
      ClimbHonest(w, n, rest);
    }
  }

  lemma IndicesTail(uncles: seq<Node>, i: nat)
    requires uncles != [] && Indices(uncles) == Uncles(i, |uncles|)
    ensures uncles[0].index == Sibling(i) && Indices(uncles[1..]) == Uncles(Parent(i), |uncles[1..]|)
  {
    assert uncles[0].index == Indices(uncles)[0];
    assert Indices(uncles[1..]) == Indices(uncles)[1..];
  }

  lemma HonestTail(w: seq<Block>, uncles: seq<Node>)
    requires uncles != [] && Honest(w, uncles)
    ensures End(uncles[0].index) <= |w| && uncles[0] == NodeAt(w, uncles[0].index) && Honest(w, uncles[1..])
  {
    assert forall k :: 0 <= k < |uncles[1..]| ==> uncles[1..][k] == uncles[k + 1];
  }

  /** A climb whose root hashes like the honest node there started from
      a node hashing like the honest one and used honest uncles. */
  lemma {:induction false} ClimbBinds(w: seq<Block>, node: Node, uncles: seq<Node>)
    requires Climb(node, uncles).Ok?
    requires End(Climb(node, uncles).value.index) <= |w|
    requires Climb(node, uncles).value.hash == NodeAt(w, Climb(node, uncles).value.index).hash
    ensures End(node.index) <= |w| && node.hash == NodeAt(w, node.index).hash && Honest(w, uncles)
    decreases |uncles|
  {
    if uncles != [] {
      var n := Combine(node, uncles[0]);
      ClimbBinds(w, n, uncles[1..]);
      CombineBinds(w, node, uncles[0]);
      forall k | 0 < k < |uncles|
        ensures End(uncles[k].index) <= |w| && uncles[k] == NodeAt(w, uncles[k].index)
      {
        assert uncles[k] == uncles[1..][k - 1];
      }
    }
  }

  /** The leaf of a block binds its value, and the honest block makes the
      honest leaf. */
  lemma LeafBinds(w: seq<Block>, index: nat, value: Block)
    requires index < |w|
    ensures End(2 * index) <= |w|
    ensures LeafNode(index, value).hash == NodeAt(w, 2 * index).hash <==> value == w[index]
    ensures value == w[index] ==> LeafNode(index, value) == NodeAt(w, 2 * index)
  {
    LeafIndex(index);
  }

  // ---------------------------------------------------------------------
  // The node queue of an upgrade

  /** `NodeQueue.shift` over the indices an upgrade appends, in order: the
      block root is taken where it is wanted; otherwise the next upgrade
      node is taken and must sit at the wanted index. Returns the nodes
      taken and the block root if it was not taken. */
  function Serve(want: seq<nat>, nodes: seq<Node>, extra: Option<Node>): (r: Result<(seq<Node>, Option<Node>)>)
    ensures r.Err? ==> r.error == InvalidProof
    decreases |want|
  {
    if want == [] then Ok(([], extra))
    else if extra.Some? && extra.value.index == want[0] then
      var rest := Serve(want[1..], nodes, None);
      if rest.Err? then rest else Ok(([extra.value] + rest.value.0, rest.value.1))
    else if nodes != [] && nodes[0].index == want[0] then
      var rest := Serve(want[1..], nodes[1..], extra);
      if rest.Err? then rest else Ok(([nodes[0]] + rest.value.0, rest.value.1))
    else Err(InvalidProof)
  }

  /** The nodes served sit at the wanted indices, in order. */
  lemma {:induction false} ServeIndices(want: seq<nat>, nodes: seq<Node>, extra: Option<Node>)
    requires Serve(want, nodes, extra).Ok?
    ensures Indices(Serve(want, nodes, extra).value.0) == want
    decreases |want|
  {
    if want != [] {
      var r := Serve(want, nodes, extra).value.0;
      if extra.Some? && extra.value.index == want[0] {
        ServeIndices(want[1..], nodes, None);
        IndicesCons(extra.value, Serve(want[1..], nodes, None).value.0, want);
      } else {
        ServeIndices(want[1..], nodes[1..], extra);
        IndicesCons(nodes[0], Serve(want[1..], nodes[1..], extra).value.0, want);
      }
    }
  }

  /** A node in front of nodes with the indices of the rest of `want`. */
  lemma IndicesCons(n: Node, ns: seq<Node>, want: seq<nat>)
    requires want != [] && n.index == want[0] && Indices(ns) == want[1..]
    ensures Indices([n] + ns) == want
  {
    assert Indices([n] + ns) == [want[0]] + want[1..];
  }

  /** The block root is left over exactly when it was not wanted. */
  lemma {:induction false} ServeLeaves(want: seq<nat>, nodes: seq<Node>, extra: Option<Node>)
    requires Serve(want, nodes, extra).Ok?
    ensures var left := Serve(want, nodes, extra).value.1;
      && (left.Some? <==> extra.Some? && extra.value.index !in want)
      && (left.Some? ==> left == extra)
    decreases |want|
  {
    if want != [] {
      assert want == [want[0]] + want[1..];
      if extra.Some? && extra.value.index == want[0] {
        ServeLeaves(want[1..], nodes, None);
      } else {
        ServeLeaves(want[1..], nodes[1..], extra);
      }
    }
  }

  /** Upgrade nodes in the wanted order, with a block root that is not
      wanted, are taken as they are. */
  lemma {:induction false} ServeInOrder(want: seq<nat>, nodes: seq<Node>, extra: Option<Node>)
    requires Indices(nodes) == want
    requires extra.Some? ==> extra.value.index !in want
    ensures Serve(want, nodes, extra) == Ok((nodes, extra))
    decreases |want|
  {
    if want != [] {
      assert Indices(nodes[1..]) == want[1..];
      ServeInOrder(want[1..], nodes[1..], extra);
      assert nodes == [nodes[0]] + nodes[1..];
    }
  }

  /** Upgrade nodes in the wanted order with the block root's index left
      out at position `j` are taken with the block root put back there. */
  lemma {:induction false} ServeWithRoot(want: seq<nat>, nodes: seq<Node>, x: Node, j: nat)
    requires j <= |nodes| && want == Indices(nodes)[..j] + [x.index] + Indices(nodes)[j..]
    requires x.index !in Indices(nodes)[..j]
    ensures Serve(want, nodes, Some(x)) == Ok((nodes[..j] + [x] + nodes[j..], None))
    decreases j, 1
  {
    if j == 0 {
      assert want == [x.index] + Indices(nodes);
      ServeRootFirst(want, nodes, x);
      assert nodes[..0] + [x] + nodes[0..] == [x] + nodes;
    } else {
      ServeRootLater(want, nodes, x, j);
    }
  }

  /** `ServeWithRoot` with the block root wanted first. */
  lemma ServeRootFirst(want: seq<nat>, nodes: seq<Node>, x: Node)
    requires want == [x.index] + Indices(nodes)
    ensures Serve(want, nodes, Some(x)) == Ok(([x] + nodes, None))
  {
    assert want[1..] == Indices(nodes);
    ServeInOrder(want[1..], nodes, None);
    ServeRoot(want, nodes, x);
  }

  /** `ServeWithRoot` with the block root wanted after the first node. */
  lemma {:induction false} ServeRootLater(want: seq<nat>, nodes: seq<Node>, x: Node, j: nat)
    requires 0 < j <= |nodes| && want == Indices(nodes)[..j] + [x.index] + Indices(nodes)[j..]
    requires x.index !in Indices(nodes)[..j]
    ensures Serve(want, nodes, Some(x)) == Ok((nodes[..j] + [x] + nodes[j..], None))
    decreases j, 0
  {
    WithRootTail(want, nodes, x, j);
    ServeWithRoot(want[1..], nodes[1..], x, j - 1);
    ServeTaken(want, nodes, Some(x));
  }

  /** Serving takes the block root where it is wanted first. */
  lemma ServeRoot(want: seq<nat>, nodes: seq<Node>, x: Node)
    requires want != [] && x.index == want[0]
    requires Serve(want[1..], nodes, None).Ok?
    ensures var rest := Serve(want[1..], nodes, None).value;
      Serve(want, nodes, Some(x)) == Ok(([x] + rest.0, rest.1))
  {
  }

  /** Serving takes a first upgrade node at the first wanted index when
      the block root is not wanted there. */
  lemma ServeTaken(want: seq<nat>, nodes: seq<Node>, extra: Option<Node>)
    requires want != [] && nodes != [] && nodes[0].index == want[0]
    requires extra.Some? ==> extra.value.index != want[0]
    requires Serve(want[1..], nodes[1..], extra).Ok?
    ensures var rest := Serve(want[1..], nodes[1..], extra).value;
      Serve(want, nodes, extra) == Ok(([nodes[0]] + rest.0, rest.1))
  {
  }

  /** The wanted indices with the block root at `j > 0` start with the
      first upgrade node; the rest have the root at `j - 1`. */
  lemma WithRootTail(want: seq<nat>, nodes: seq<Node>, x: Node, j: nat)
    requires 0 < j <= |nodes| && want == Indices(nodes)[..j] + [x.index] + Indices(nodes)[j..]
    requires x.index !in Indices(nodes)[..j]
    ensures want != [] && want[0] == nodes[0].index && nodes[0].index != x.index
    ensures want[1..] == Indices(nodes[1..])[..j - 1] + [x.index] + Indices(nodes[1..])[j - 1..]
    ensures x.index !in Indices(nodes[1..])[..j - 1]
    ensures nodes[..j] + [x] + nodes[j..] == [nodes[0]] + (nodes[1..][..j - 1] + [x] + nodes[1..][j - 1..])
  {
    assert Indices(nodes)[..j][0] == nodes[0].index;
    assert Indices(nodes[1..])[..j - 1] == Indices(nodes)[1..j];
    assert Indices(nodes[1..])[j - 1..] == Indices(nodes)[j..];
    assert want[1..] == Indices(nodes)[1..j] + [x.index] + Indices(nodes)[j..];
  }

  // ---------------------------------------------------------------------
  // Verifying

  /** `verifyTree`: climbs from the block's leaf over its uncles and
      collects the leaf, the uncles and the parents formed on the way. The
      ghost log `w` names the honest nodes: when the root reached hashes
      like the honest root, everything collected is honest. */
  method VerifyTree(b: BlockProof, ghost w: seq<Block>) returns (r: Result<Node>, path: map<nat, Node>)
    ensures r == Climb(LeafNode(b.index, b.value), b.nodes)
    ensures forall i :: i in path ==> path[i].index == i
    ensures r.Ok? ==> forall i :: i in path ==> End(i) <= End(r.value.index)
    ensures r.Ok? && End(r.value.index) <= |w| && r.value.hash == NodeAt(w, r.value.index).hash ==> Stored(w, path)
  {
    var cur := LeafNode(b.index, b.value);
    path := map[cur.index := cur];
    var k := 0;
    assert b.nodes[0..] == b.nodes;
    while k < |b.nodes|
      invariant k <= |b.nodes|
      invariant Climb(LeafNode(b.index, b.value), b.nodes) == Climb(cur, b.nodes[k..])
      invariant Collects(w, cur, path)
    {
      var u := b.nodes[k];
      assert b.nodes[k..][0] == u && b.nodes[k..][1..] == b.nodes[k + 1..];
      if u.index != Sibling(cur.index) {
        return Err(InvalidProof), path;
      }
      CollectStep(w, cur, u, path);
      path := path[u.index := u][Parent(cur.index) := Combine(cur, u)];
      cur := Combine(cur, u);
      k := k + 1;
    }
    return Ok(cur), path;
  }

  /** The nodes collected so far are keyed by index and lie under the node
      reached, and they are honest once that node hashes honestly. */
  ghost predicate Collects(w: seq<Block>, cur: Node, path: map<nat, Node>)
  {
    && (forall i :: i in path ==> path[i].index == i && End(i) <= End(cur.index))
    && (End(cur.index) <= |w| && cur.hash == NodeAt(w, cur.index).hash ==> Stored(w, path))
  }

  /** Climbing one level keeps what `Collects` says. */
  lemma CollectStep(w: seq<Block>, cur: Node, u: Node, path: map<nat, Node>)
    requires Collects(w, cur, path) && u.index == Sibling(cur.index)
    ensures Collects(w, Combine(cur, u), path[u.index := u][Parent(cur.index) := Combine(cur, u)])
  {
    var next := Combine(cur, u);
    var path' := path[u.index := u][Parent(cur.index) := next];
    SiblingSide(cur.index);
    StartBeforeEnd(cur.index);
    ParentCovers(cur.index);
    forall i | i in path'
      ensures path'[i].index == i && End(i) <= End(next.index)
    {
      if i != u.index && i != next.index {
        assert path'[i] == path[i];
      }
    }
    if End(next.index) <= |w| && next.hash == NodeAt(w, next.index).hash {
      CollectHonest(w, cur, u, path);
    }
  }

  /** A climb step whose result hashes honestly keeps the collected nodes
      honest and adds honest ones. */
  lemma CollectHonest(w: seq<Block>, cur: Node, u: Node, path: map<nat, Node>)
    requires Collects(w, cur, path) && u.index == Sibling(cur.index)
    requires End(Parent(cur.index)) <= |w| && Combine(cur, u).hash == NodeAt(w, Parent(cur.index)).hash
    ensures Stored(w, path[u.index := u][Parent(cur.index) := Combine(cur, u)])
  {
    var p := Parent(cur.index);
    var path' := path[u.index := u][p := Combine(cur, u)];
    CombineBinds(w, cur, u);
    CombineHonest(w, cur, u);
    assert Stored(w, path);
    forall i | i in path'
      ensures End(i) <= |w| && path'[i] == NodeAt(w, i)
    {
      if i == p {
      } else if i == u.index {
      } else {
        assert path'[i] == path[i];
      }
    }
  }

  /** The additional nodes of an upgrade follow each other from its end. */
  function Follows(idx: seq<nat>, s: nat): bool
    decreases |idx|
  {
    idx == [] || (Start(idx[0]) == s && Follows(idx[1..], End(idx[0])))
  }

  /** The leaf where nodes that follow each other from `s` end. */
  function Reach(idx: seq<nat>, s: nat): (r: nat)
    ensures Follows(idx, s) ==> Chain(idx, s, r)
    decreases |idx|
  {
    if idx == [] then s else Reach(idx[1..], End(idx[0]))
  }

  /** The roots an honest tree adds past an upgrade follow each other,
      up to the end of the chain. */
  lemma {:induction false} ChainFollows(idx: seq<nat>, s: nat, t: nat)
    requires Chain(idx, s, t)
    ensures Follows(idx, s) && Reach(idx, s) == t
    decreases |idx|
  {
    if idx != [] {
      ChainFollows(idx[1..], End(idx[0]), t);
    }
  }

  /** The length an upgrade stages: the end of its last additional node,
      or the upgrade's own end when it has none. */
  function UpgradeEnd(u: UpgradeProof): nat
  {
    Reach(Indices(u.additional), u.start + u.length)
  }

  /** The upgrade of a proof appends these nodes, in order. */
  function Wanted(u: UpgradeProof): seq<nat>
  {
    UpgradeIndices(u.start, u.start + u.length)
  }

  /** The nodes of an upgrade, and the block root offered beside them,
      are the honest nodes of `source`, which reaches the upgrade's end. */
  ghost predicate Fed(u: UpgradeProof, extra: Option<Node>, source: seq<Block>)
  {
    && u.start + u.length <= |source|
    && Honest(source, u.nodes)
    && (extra.Some? ==> End(extra.value.index) <= |source| && extra.value == NodeAt(source, extra.value.index))
  }

  /** The wanted nodes follow each other from the upgrade's start to its end. */
  lemma WantedChain(u: UpgradeProof)
    ensures Chain(Wanted(u), u.start, u.start + u.length)
  {
    UpgradeChain(u.start, u.start + u.length);
  }

  /** What an honest upgrade looks like to a receiver whose batch holds the
      first `u.start` blocks of `source`: honest nodes in the order they are
      appended, honest additional nodes that follow on to the end of
      `source`, and a signature the receiver accepts over the whole honest
      tree. */
  ghost predicate UpgradeDelivered(u: UpgradeProof, fork: nat, extra: Option<Node>,
                                   accepts: (Hash, nat, nat, seq<byte>) -> bool, source: seq<Block>)
  {
    && Fed(u, extra, source)
    && Serve(Wanted(u), u.nodes, extra).Ok?
    && Chain(Indices(u.additional), u.start + u.length, |source|)
    && Honest(source, u.additional)
    && accepts(TreeHash(RootsOf(source)), |source|, fork, u.signature)
  }

  /** A log padded to `n` blocks; stands for the log of nodes that are not
      honest for any known log. */
  ghost function Padding(n: nat): (w: seq<Block>)
    ensures |w| == n
  {
    seq(n, _ => [])
  }

  /** The node queue after `k` wanted nodes were taken, `q` of them
      upgrade nodes, with `left` the block root if still held: serving the
      rest succeeds exactly when serving everything did (`whole`), with the
      same block root left over. */
  ghost predicate Pending(want: seq<nat>, k: nat, nodes: seq<Node>, q: nat, left: Option<Node>,
                          whole: Result<(seq<Node>, Option<Node>)>)
  {
    && k <= |want| && q <= |nodes|
    && (whole.Ok? <==> Serve(want[k..], nodes[q..], left).Ok?)
    && (whole.Ok? ==> Serve(want[k..], nodes[q..], left).value.1 == whole.value.1)
  }

  lemma PendingStart(want: seq<nat>, nodes: seq<Node>, extra: Option<Node>)
    ensures Pending(want, 0, nodes, 0, extra, Serve(want, nodes, extra))
  {
    assert want[0..] == want && nodes[0..] == nodes;
  }

  /** Taking the block root where it is wanted. */
  lemma ShiftRoot(want: seq<nat>, k: nat, nodes: seq<Node>, q: nat, left: Option<Node>,
                  whole: Result<(seq<Node>, Option<Node>)>)
    requires Pending(want, k, nodes, q, left, whole) && k < |want|
    requires left.Some? && left.value.index == want[k]
    ensures Pending(want, k + 1, nodes, q, None, whole)
  {
    assert want[k..][0] == want[k] && want[k..][1..] == want[k + 1..];
  }

  /** Taking the next upgrade node where the block root is not wanted. */
  lemma ShiftNode(want: seq<nat>, k: nat, nodes: seq<Node>, q: nat, left: Option<Node>,
                  whole: Result<(seq<Node>, Option<Node>)>)
    requires Pending(want, k, nodes, q, left, whole) && k < |want|
    requires !(left.Some? && left.value.index == want[k])
    requires q < |nodes| && nodes[q].index == want[k]
    ensures Pending(want, k + 1, nodes, q + 1, left, whole)
  {
    assert want[k..][0] == want[k] && want[k..][1..] == want[k + 1..];
    assert nodes[q..][0] == nodes[q] && nodes[q..][1..] == nodes[q + 1..];
  }

  /** Neither the block root nor the next upgrade node is wanted. */
  lemma ShiftFails(want: seq<nat>, k: nat, nodes: seq<Node>, q: nat, left: Option<Node>,
                   whole: Result<(seq<Node>, Option<Node>)>)
    requires Pending(want, k, nodes, q, left, whole) && k < |want|
    requires !(left.Some? && left.value.index == want[k])
    requires !(q < |nodes| && nodes[q].index == want[k])
    ensures whole.Err?
  {
    assert want[k..][0] == want[k];
    if q < |nodes| {
      assert nodes[q..][0] == nodes[q];
    }
  }

  /** Once every wanted node was taken, what is left is what serving leaves. */
  lemma PendingDone(want: seq<nat>, nodes: seq<Node>, q: nat, left: Option<Node>,
                    whole: Result<(seq<Node>, Option<Node>)>)
    requires Pending(want, |want|, nodes, q, left, whole)
    ensures whole.Ok? && whole.value.1 == left
  {
    assert want[|want|..] == [];
  }

  /** An honest node appended to an honest batch over a prefix of `source`
      keeps the batch honest over the longer prefix. */
  lemma HonestNext(source: seq<Block>, len: nat, node: Node)
    requires len < End(node.index) <= |source|
    requires node == NodeAt(source, node.index)
    ensures source[..len] <= source[..End(node.index)]
    ensures node == NodeAt(source[..End(node.index)], node.index)
  {
    NodeAtPrefix(source, source[..End(node.index)], node.index);
  }

  /** The append loop of `verifyUpgrade`: takes each wanted node from the
      queue and appends it. Returns the block root if it was not taken. */
  method AppendWanted(batch: Batch, want: seq<nat>, to: nat, nodes: seq<Node>, extra: Option<Node>,
                      ghost source: seq<Block>, ghost honest: bool)
    returns (r: Result<Option<Node>>)
    requires batch.Valid() && Chain(want, batch.length, to) && batch.length <= to
    requires honest ==> && to <= |source| && batch.Sound() && batch.blocks == source[..batch.length]
                        && Honest(source, nodes)
                        && (extra.Some? ==> End(extra.value.index) <= |source|
                                            && extra.value == NodeAt(source, extra.value.index))
    modifies batch
    ensures batch.Valid() && batch.ancestors == old(batch.ancestors) && batch.fork == old(batch.fork)
    ensures r.Err? ==> r.error == InvalidProof && Serve(want, nodes, extra).Err?
    ensures r.Ok? ==> && Serve(want, nodes, extra).Ok? && r.value == Serve(want, nodes, extra).value.1
                      && batch.length == to
    ensures honest && r.Ok? ==> batch.Sound() && batch.blocks == source[..to]
  {
    ghost var whole := Serve(want, nodes, extra);
    PendingStart(want, nodes, extra);
    var q := 0;
    var left := extra;
    var k := 0;
    assert want[0..] == want;
    while k < |want|
      invariant k <= |want|
      invariant batch.Valid() && batch.ancestors == old(batch.ancestors) && batch.fork == old(batch.fork)
      invariant Chain(want[k..], batch.length, to) && batch.length <= to
      invariant left.Some? ==> left == extra
      invariant Pending(want, k, nodes, q, left, whole)
      invariant honest ==> batch.Sound() && batch.blocks == source[..batch.length]
    {
      var node: Node;
      if left.Some? && left.value.index == want[k] {
        ShiftRoot(want, k, nodes, q, left, whole);
        node := left.value;
        left := None;
      } else if q < |nodes| && nodes[q].index == want[k] {
        ShiftNode(want, k, nodes, q, left, whole);
        node := nodes[q];
        q := q + 1;
      } else {
        ShiftFails(want, k, nodes, q, left, whole);
        return Err(InvalidProof);
      }
      ChainHead(want[k..], batch.length, to);
      assert want[k..][1..] == want[k + 1..];
      var e := End(node.index);
      ghost var next := if honest then source[..e] else Padding(e);
      if honest {
        HonestNext(source, batch.length, node);
      }
      batch.AppendRoot(node, next);
      k := k + 1;
    }
    PendingDone(want, nodes, q, left, whole);
    return Ok(left);
  }

  /** The loop of `verifyUpgrade` over the additional nodes: each must
      start where the batch ends, and is appended as a new root. */
  method AppendAdditional(batch: Batch, nodes: seq<Node>, ghost source: seq<Block>, ghost honest: bool)
    returns (ok: bool)
    requires batch.Valid()
    requires honest ==> && batch.length <= |source| && Chain(Indices(nodes), batch.length, |source|)
                        && Honest(source, nodes)
                        && batch.Sound() && batch.blocks == source[..batch.length]
    modifies batch
    ensures batch.Valid() && batch.ancestors == old(batch.ancestors) && batch.fork == old(batch.fork)
    ensures ok <==> Follows(Indices(nodes), old(batch.length))
    ensures ok ==> batch.length == Reach(Indices(nodes), old(batch.length)) && old(batch.length) <= batch.length
    ensures honest ==> ok && batch.Sound() && batch.blocks == source
  {
    ghost var idx := Indices(nodes);
    ghost var from := batch.length;
    var k := 0;
    assert idx[0..] == idx;
    while k < |nodes|
      invariant k <= |nodes|
      invariant batch.Valid() && batch.ancestors == old(batch.ancestors) && batch.fork == old(batch.fork)
      invariant from <= batch.length
      invariant Follows(idx, from) <==> Follows(idx[k..], batch.length)
      invariant Reach(idx, from) == Reach(idx[k..], batch.length)
      invariant honest ==> && batch.length <= |source| && Chain(idx[k..], batch.length, |source|)
                           && batch.Sound() && batch.blocks == source[..batch.length]
    {
      var node := nodes[k];
      assert idx[k..][0] == node.index && idx[k..][1..] == idx[k + 1..];
      if Start(node.index) != batch.length {
        return false;
      }
      StartBeforeEnd(node.index);
      var e := End(node.index);
      ghost var next := if honest then source[..e] else Padding(e);
      if honest {
        ChainHead(idx[k..], batch.length, |source|);
        HonestNext(source, batch.length, node);
      }
      batch.AppendRoot(node, next);
      k := k + 1;
    }
    if honest {
      assert idx[k..] == [];
    }
    return true;
  }

  /** `verifyUpgrade`: appends the wanted nodes to the batch, taking the
      block root `extra` where it is wanted, then the additional nodes, and
      checks the signature over the staged tree. Returns whether the block
      root was used. */
  method VerifyUpgrade(batch: Batch, u: UpgradeProof, fork: nat, extra: Option<Node>,
                       accepts: (Hash, nat, nat, seq<byte>) -> bool, ghost source: seq<Block>, ghost honest: bool)
    returns (r: Result<bool>)
    requires batch.Valid() && u.start == batch.length
    requires honest ==> && batch.Sound() && batch.blocks <= source
                        && UpgradeDelivered(u, fork, extra, accepts, source)
    modifies batch
    ensures batch.Valid() && batch.ancestors == old(batch.ancestors)
    ensures r.Err? ==> r.error == InvalidProof || r.error == InvalidSignature
    ensures Serve(Wanted(u), u.nodes, extra).Err? ==> r == Err(InvalidProof)
    ensures !Follows(Indices(u.additional), u.start + u.length) ==> r == Err(InvalidProof)
    ensures r.Ok? ==> && Serve(Wanted(u), u.nodes, extra).Ok?
                      && r.value == (extra.Some? && Serve(Wanted(u), u.nodes, extra).value.1.None?)
                      && Follows(Indices(u.additional), u.start + u.length)
                      && batch.length == UpgradeEnd(u) && u.start + u.length <= batch.length
                      && batch.fork == fork && accepts(batch.Hash(), batch.length, fork, u.signature)
    ensures honest ==> r.Ok? && batch.Sound() && batch.blocks == source
  {
    var to := u.start + u.length;
    WantedChain(u);
    assert honest ==> batch.blocks == source[..batch.length];
    var left := AppendWanted(batch, Wanted(u), to, u.nodes, extra, source, honest);
    if left.Err? {
      return Err(InvalidProof);
    }
    var follows := AppendAdditional(batch, u.additional, source, honest);
    if !follows {
      return Err(InvalidProof);
    }
    var sealed := Seal(batch, u, fork, accepts, honest);
    if sealed.Err? {
      return Err(sealed.error);
    }
    return Ok(extra.Some? && left.value.None?);
  }

  /** The last steps of `verifyUpgrade`: the batch takes the proof's fork,
      and the signature must be accepted over the staged tree. */
  method Seal(batch: Batch, u: UpgradeProof, fork: nat, accepts: (Hash, nat, nat, seq<byte>) -> bool,
              ghost honest: bool)
    returns (r: Result<()>)
    requires batch.Valid()
    requires honest ==> batch.Sound()
    modifies batch
    ensures batch.Valid() && batch.fork == fork
    ensures batch.length == old(batch.length) && batch.ancestors == old(batch.ancestors)
    ensures batch.blocks == old(batch.blocks) && batch.roots == old(batch.roots)
    ensures honest ==> batch.Sound()
    ensures r.Err? ==> r.error == InvalidSignature && !accepts(TreeHash(batch.roots), batch.length, fork, u.signature)
    ensures r.Ok? <==> accepts(batch.Hash(), batch.length, fork, u.signature)
  {
    batch.SetFork(fork);
    if !accepts(batch.Hash(), batch.length, fork, u.signature) {
      return Err(InvalidSignature);
    }
    return Ok(());
  }

  /** The head of a chain starts at its start and ends by its end. */
  lemma ChainHead(idx: seq<nat>, s: nat, t: nat)
    requires Chain(idx, s, t) && idx != []
    ensures Start(idx[0]) == s && s < End(idx[0]) <= t
    ensures Chain(idx[1..], End(idx[0]), t)
  {
    StartBeforeEnd(idx[0]);
    ChainOrdered(idx[1..], End(idx[0]), t);
  }

  // ---------------------------------------------------------------------
  // Verifying a whole proof

  /** The node a block proof climbs to. */
  function RootIndex(b: BlockProof): nat
  {
    Ancestor(2 * b.index, |b.nodes|)
  }

  /** What an honest block proof over `source` looks like: the block, its
      uncles at the sibling indices on the way up, all honest. */
  ghost predicate BlockDelivered(b: BlockProof, source: seq<Block>)
  {
    && b.index < |source| && b.value == source[b.index]
    && Indices(b.nodes) == Uncles(2 * b.index, |b.nodes|)
    && End(RootIndex(b)) <= |source|
    && Honest(source, b.nodes)
  }

  /** The block root an honest block proof offers to the upgrade. */
  ghost function Offered(proof: Proof, source: seq<Block>): Option<Node>
    requires proof.block.Some? ==> End(RootIndex(proof.block.value)) <= |source|
  {
    if proof.block.Some? then Some(NodeAt(source, RootIndex(proof.block.value))) else None
  }

  /** A proof an honest sender holding `source` sends to a tree that holds
      a prefix of it: the block proof and the upgrade are honest, the
      upgrade starts at the tree's length, and a block root the upgrade does
      not use is one the tree holds. */
  ghost predicate Delivered(tree: MerkleTree, proof: Proof, accepts: (Hash, nat, nat, seq<byte>) -> bool,
                            source: seq<Block>)
    reads tree
  {
    && tree.Sound() && tree.blocks <= source
    && (proof.block.Some? ==> BlockDelivered(proof.block.value, source))
    && (proof.block.Some? && (proof.upgrade.None? || RootIndex(proof.block.value) !in Wanted(proof.upgrade.value))
        ==> RootIndex(proof.block.value) in tree.nodes)
    && (proof.upgrade.Some? ==> && proof.upgrade.value.start == tree.length
                                && UpgradeDelivered(proof.upgrade.value, proof.fork, Offered(proof, source), accepts, source))
  }

  /** What a delivered proof gives each step of `verify`. */
  lemma DeliveredParts(tree: MerkleTree, proof: Proof, accepts: (Hash, nat, nat, seq<byte>) -> bool,
                       source: seq<Block>)
    requires Delivered(tree, proof, accepts, source)
    ensures tree.Sound() && tree.blocks <= source && tree.length <= |source|
    ensures proof.block.Some? ==> BlockDelivered(proof.block.value, source)
    ensures proof.upgrade.None? ==> tree.blocks == source[..tree.length]
    ensures proof.upgrade.Some? ==> && proof.upgrade.value.start == tree.length
                                    && UpgradeDelivered(proof.upgrade.value, proof.fork, Offered(proof, source),
                                                        accepts, source)
    ensures proof.block.Some? && (proof.upgrade.None? || RootIndex(proof.block.value) !in Wanted(proof.upgrade.value))
            ==> RootIndex(proof.block.value) in tree.nodes
  {
  }

  /** The length of the tree a verified proof stages. */
  function Target(len: nat, proof: Proof): nat
  {
    if proof.upgrade.Some? then UpgradeEnd(proof.upgrade.value) else len
  }

  /** An honest block proof climbs to the honest root. */
  lemma BlockHonest(b: BlockProof, w: seq<Block>)
    requires BlockDelivered(b, w)
    ensures Climb(LeafNode(b.index, b.value), b.nodes) == Ok(NodeAt(w, RootIndex(b)))
  {
    LeafBinds(w, b.index, b.value);
    ClimbHonest(w, LeafNode(b.index, b.value), b.nodes);
  }

  /** A block proof whose root hashes like the honest root carries the
      honest block, which lies under that root. */
  lemma BlockBinds(b: BlockProof, w: seq<Block>)
    requires Climb(LeafNode(b.index, b.value), b.nodes).Ok?
    requires End(RootIndex(b)) <= |w|
    requires Climb(LeafNode(b.index, b.value), b.nodes).value.hash == NodeAt(w, RootIndex(b)).hash
    ensures Start(RootIndex(b)) <= b.index < End(RootIndex(b)) <= |w| && b.value == w[b.index]
  {
    LeafIndex(b.index);
    AncestorCovers(2 * b.index, |b.nodes|);
    ClimbBinds(w, LeafNode(b.index, b.value), b.nodes);
    LeafBinds(w, b.index, b.value);
  }

  /** A node inside a prefix of a log is the same node in the log. */
  lemma PrefixNode(v: seq<Block>, w: seq<Block>, i: nat)
    requires v <= w && End(i) <= |v|
    ensures NodeAt(v, i) == NodeAt(w, i)
  {
    assert v[..End(i)] == w[..End(i)];
    NodeAtPrefix(v, w, i);
  }

  /** Honest nodes that lie inside a prefix of the log are honest for it. */
  lemma StoredInside(w: seq<Block>, path: map<nat, Node>, len: nat)
    requires len <= |w| && Stored(w, path)
    requires forall i :: i in path ==> End(i) <= len
    ensures Stored(w[..len], path)
  {
    StoredPrefix(w, len, path);
    assert Within(path, len) == path;
  }

  /** A block root the upgrade used lies inside the upgrade. */
  lemma UsedInside(u: UpgradeProof, extra: Option<Node>)
    requires Serve(Wanted(u), u.nodes, extra).Ok? && extra.Some? && Serve(Wanted(u), u.nodes, extra).value.1.None?
    ensures u.start <= Start(extra.value.index) && End(extra.value.index) <= u.start + u.length
  {
    ServeLeaves(Wanted(u), u.nodes, extra);
    WantedChain(u);
    ChainInside(Wanted(u), u.start, u.start + u.length);
  }

  /** The check of a block root the upgrade did not use: the tree must hold
      the node, with the same hash. */
  function CheckStored(tree: MerkleTree, node: Node): (r: Result<()>)
    reads tree
    ensures r.Ok? <==> node.index in tree.nodes && tree.nodes[node.index].hash == node.hash
    ensures r.Err? ==> (r.error == MissingNode <==> node.index !in tree.nodes) && (r.error == MissingNode || r.error == InvalidProof)
    ensures tree.Sound() && r.Ok? ==> End(node.index) <= tree.length && node.hash == NodeAt(tree.blocks, node.index).hash
    ensures (&& tree.Sound() && node.index in tree.nodes && End(node.index) <= tree.length
             && node == NodeAt(tree.blocks, node.index)) ==> r.Ok?
  {
    match tree.Get(node.index)
    case None => Err(MissingNode)
    case Some(n) => if n.hash != node.hash then Err(InvalidProof) else Ok(())
  }

  /** The block step of `verify`: climbs from the block, if there is one,
      to its root. The ghost log `w` names the honest nodes. */
  method BlockStep(proof: Proof, ghost w: seq<Block>) returns (r: Result<Option<Node>>, path: map<nat, Node>)
    ensures r.Err? ==> && r.error == InvalidProof && proof.block.Some?
                       && Climb(LeafNode(proof.block.value.index, proof.block.value.value), proof.block.value.nodes).Err?
    ensures r.Ok? ==> Climbed(proof, r.value, path, w)
    ensures r.Ok? ==> (r.value.Some? <==> proof.block.Some?)
    ensures proof.block.None? ==> r == Ok(None) && path == map[]
    ensures r.Ok? && proof.block.Some? ==>
              var b := proof.block.value;
              && Climb(LeafNode(b.index, b.value), b.nodes) == Ok(r.value.value)
              && r.value.value.index == RootIndex(b)
              && Start(RootIndex(b)) <= b.index < End(RootIndex(b))
              && (forall i :: i in path ==> path[i].index == i && End(i) <= End(RootIndex(b)))
              && (End(RootIndex(b)) <= |w| && r.value.value.hash == NodeAt(w, RootIndex(b)).hash ==> Stored(w, path))
    ensures proof.block.Some? && BlockDelivered(proof.block.value, w) ==>
              r == Ok(Some(NodeAt(w, RootIndex(proof.block.value))))
  {
    if proof.block.None? {
      return Ok(None), map[];
    }
    var b := proof.block.value;
    if BlockDelivered(b, w) {
      BlockHonest(b, w);
    }
    var climbed;
    climbed, path := VerifyTree(b, w);
    if climbed.Err? {
      return Err(InvalidProof), path;
    }
    AncestorCovers(2 * b.index, |b.nodes|);
    LeafIndex(b.index);
    return Ok(Some(climbed.value)), path;
  }

  /** The upgrade step of `verify`: an upgrade must start at the batch's
      length, and is then applied by `verifyUpgrade`. Returns whether the
      block root `root` was used. */
  method UpgradeStep(batch: Batch, proof: Proof, root: Option<Node>, accepts: (Hash, nat, nat, seq<byte>) -> bool,
                     ghost source: seq<Block>, ghost honest: bool)
    returns (r: Result<bool>)
    requires batch.Valid()
    requires honest ==> && proof.upgrade.Some? && batch.Sound() && batch.blocks <= source
                        && proof.upgrade.value.start == batch.length
                        && UpgradeDelivered(proof.upgrade.value, proof.fork, root, accepts, source)
    modifies batch
    ensures batch.Valid() && batch.ancestors == old(batch.ancestors)
    ensures r.Err? ==> r.error == InvalidProof || r.error == InvalidSignature
    ensures proof.upgrade.None? ==> r == Ok(false) && unchanged(batch)
    ensures r.Ok? && proof.upgrade.Some? ==>
              var u := proof.upgrade.value;
              && u.start == old(batch.length) && batch.length == UpgradeEnd(u) && batch.fork == proof.fork
              && accepts(batch.Hash(), batch.length, proof.fork, u.signature)
    ensures r.Ok? && r.value ==> && root.Some? && proof.upgrade.Some?
                                 && proof.upgrade.value.start <= Start(root.value.index)
                                 && End(root.value.index) <= batch.length
    ensures r.Ok? && !r.value && root.Some? && proof.upgrade.Some? ==> root.value.index !in Wanted(proof.upgrade.value)
    ensures honest ==> r.Ok? && batch.Sound() && batch.blocks == source
  {
    if proof.upgrade.None? {
      return Ok(false);
    }
    var u := proof.upgrade.value;
    if u.start != batch.length {
      return Err(InvalidProof);
    }
    r := VerifyUpgrade(batch, u, proof.fork, root, accepts, source, honest);
    if r.Ok? {
      if r.value {
        UsedInside(u, root);
      } else if root.Some? {
        ServeLeaves(Wanted(u), u.nodes, root);
      }
    }
  }

  /** The last step of `verify`: a block root the upgrade did not use
      must be held by the tree, with the same hash; then the nodes the
      block proof delivered are staged. The ghost log `w` extends the
      tree's and names the honest nodes. */
  method Settle(tree: MerkleTree, batch: Batch, root: Option<Node>, used: bool, path: map<nat, Node>,
                ghost w: seq<Block>, ghost sound: bool, ghost honest: bool)
    returns (r: Result<()>)
    requires batch.Valid() && batch.tree == tree && tree.length <= batch.length && tree.blocks <= w
    requires root.None? ==> path == map[]
    requires root.Some? ==> forall i :: i in path ==> path[i].index == i && End(i) <= End(root.value.index)
    requires root.Some? && End(root.value.index) <= |w| && root.value.hash == NodeAt(w, root.value.index).hash
             ==> Stored(w, path)
    requires used ==> root.Some? && End(root.value.index) <= batch.length
    requires sound ==> && batch.Sound() && batch.blocks <= w
                       && (used ==> End(root.value.index) <= |w| && root.value.hash == NodeAt(w, root.value.index).hash)
    requires honest ==> && sound && (root.Some? ==> End(root.value.index) <= |w| && root.value == NodeAt(w, root.value.index))
                        && (root.Some? && !used ==> tree.Sound() && root.value.index in tree.nodes)
    modifies batch
    ensures r.Err? <==> root.Some? && !used && CheckStored(tree, root.value).Err?
    ensures r.Err? ==> r.error == CheckStored(tree, root.value).error
    ensures r.Ok? ==> && batch.Valid() && batch.nodes == old(batch.nodes) + path
                      && batch.length == old(batch.length) && batch.byteLength == old(batch.byteLength)
                      && batch.fork == old(batch.fork) && batch.roots == old(batch.roots)
                      && batch.ancestors == old(batch.ancestors) && batch.blocks == old(batch.blocks)
    ensures sound && r.Ok? ==> batch.Sound()
    ensures honest ==> r.Ok?
  {
    if root.Some? && !used {
      if tree.Sound() && root.value.index in tree.nodes {
        PrefixNode(tree.blocks, w, root.value.index);
      }
      var checked := CheckStored(tree, root.value);
      if checked.Err? {
        return Err(checked.error);
      }
      if tree.Sound() {
        PrefixNode(tree.blocks, w, root.value.index);
      }
    }
    if root.Some? && sound {
      assert w[..batch.length] == batch.blocks;
      StoredInside(w, path, batch.length);
    }
    batch.AddNodes(path);
    return Ok(());
  }

  /** What the block step hands on: `root` is the root the block proof
      climbed to, if there is a block, and `path` the nodes collected on
      the way, honest when the root is. */
  ghost predicate Climbed(proof: Proof, root: Option<Node>, path: map<nat, Node>, w: seq<Block>)
  {
    && (root.Some? <==> proof.block.Some?)
    && (root.None? ==> path == map[])
    && (root.Some? ==>
          var b := proof.block.value;
          && Climb(LeafNode(b.index, b.value), b.nodes) == Ok(root.value)
          && root.value.index == RootIndex(b)
          && Start(RootIndex(b)) <= b.index < End(RootIndex(b))
          && (forall i :: i in path ==> path[i].index == i && End(i) <= End(RootIndex(b)))
          && (End(RootIndex(b)) <= |w| && root.value.hash == NodeAt(w, RootIndex(b)).hash ==> Stored(w, path)))
  }

  /** A batch fresh from `tree`. */
  ghost predicate FreshBatch(tree: MerkleTree, batch: Batch)
    reads tree, batch
  {
    && batch.tree == tree && tree.Valid() && batch.Valid()
    && batch.length == tree.length && batch.roots == tree.roots && batch.fork == tree.fork
    && batch.blocks == tree.blocks && batch.ancestors == tree.length
    && (tree.Sound() ==> batch.Sound())
  }

  /** The rest of `verify` for a proof without an upgrade: the block root
      must be held by the tree, with the same hash; then the nodes the
      block proof delivered are staged. With `honest`, the root is the
      honest node of `w` and the tree holds it. */
  method Confirm(tree: MerkleTree, batch: Batch, proof: Proof, root: Option<Node>, path: map<nat, Node>,
                 ghost w: seq<Block>, ghost honest: bool)
    returns (r: Result<()>)
    requires FreshBatch(tree, batch) && tree.blocks <= w && proof.upgrade.None?
    requires Climbed(proof, root, path, w)
    requires honest ==> && tree.Sound()
                        && (root.Some? ==> && End(root.value.index) <= |w| && root.value == NodeAt(w, root.value.index)
                                           && root.value.index in tree.nodes)
    modifies batch
    ensures r.Err? ==> r.error == InvalidProof || r.error == MissingNode
    ensures r.Ok? ==> && batch.Valid() && batch.ancestors == tree.length && batch.length == tree.length
                      && batch.roots == tree.roots && batch.fork == tree.fork && batch.blocks == tree.blocks
    ensures tree.Sound() && r.Ok? && proof.block.Some? ==>
              proof.block.value.index < tree.length
              && proof.block.value.value == tree.blocks[proof.block.value.index]
    ensures tree.Sound() && r.Ok? ==> batch.Sound()
    ensures honest ==> r.Ok?
  {
    assert w[..tree.length] == tree.blocks;
    var settled := Settle(tree, batch, root, false, path, w, tree.Sound(), honest);
    if settled.Err? {
      return Err(settled.error);
    }
    if tree.Sound() && root.Some? {
      BlockBinds(proof.block.value, tree.blocks);
    }
    return Ok(());
  }

  /** The rest of `verify` for a proof with an upgrade, on a batch fresh
      from `tree`: the upgrade, then the check of a block root the upgrade
      did not use and the staging of the block proof's nodes. With
      `honest`, the root and the upgrade are those an honest sender
      holding `w` sends. */
  method Stage(tree: MerkleTree, batch: Batch, proof: Proof, root: Option<Node>, path: map<nat, Node>,
               accepts: (Hash, nat, nat, seq<byte>) -> bool, ghost w: seq<Block>, ghost honest: bool)
    returns (r: Result<()>)
    requires FreshBatch(tree, batch) && tree.blocks <= w && proof.upgrade.Some?
    requires Climbed(proof, root, path, w)
    requires honest ==> && tree.Sound()
                        && (root.Some? ==> End(root.value.index) <= |w| && root.value == NodeAt(w, root.value.index))
                        && proof.upgrade.value.start == tree.length
                        && UpgradeDelivered(proof.upgrade.value, proof.fork, root, accepts, w)
                        && (root.Some? && root.value.index !in Wanted(proof.upgrade.value)
                            ==> root.value.index in tree.nodes)
    modifies batch
    ensures r.Err? ==> r.error == InvalidProof || r.error == MissingNode || r.error == InvalidSignature
    ensures r.Ok? ==> && batch.Valid() && batch.ancestors == tree.length
                      && batch.length == UpgradeEnd(proof.upgrade.value) && batch.fork == proof.fork
                      && accepts(batch.Hash(), batch.length, proof.fork, proof.upgrade.value.signature)
    ensures (&& tree.Sound() && r.Ok? && proof.block.Some?
             && proof.block.value.index < proof.upgrade.value.start) ==>
              proof.block.value.index < tree.length
              && proof.block.value.value == tree.blocks[proof.block.value.index]
    ensures honest ==> r.Ok? && batch.Sound() && batch.blocks == w
  {
    var upgraded := UpgradeStep(batch, proof, root, accepts, w, honest);
    if upgraded.Err? {
      return Err(upgraded.error);
    }
    var used := upgraded.value;
    var settled := Settle(tree, batch, root, used, path, w, honest, honest);
    if settled.Err? {
      return Err(settled.error);
    }
    if tree.Sound() && root.Some? && !used {
      BlockBinds(proof.block.value, tree.blocks);
    }
    return Ok(());
  }

  /** The steps of `verify` for a proof without an upgrade, on a batch
      fresh from `tree`. With `honest`, the proof is one an honest sender
      holding `source` sends. */
  method ApplyBlock(tree: MerkleTree, batch: Batch, proof: Proof, accepts: (Hash, nat, nat, seq<byte>) -> bool,
                    ghost source: seq<Block>, ghost honest: bool)
    returns (r: Result<()>)
    requires FreshBatch(tree, batch) && proof.upgrade.None?
    requires honest ==> Delivered(tree, proof, accepts, source)
    modifies batch
    ensures r.Err? ==> r.error == InvalidProof || r.error == MissingNode
    ensures r.Ok? ==> && batch.Valid() && batch.ancestors == tree.length && batch.length == tree.length
                      && batch.roots == tree.roots && batch.fork == tree.fork && batch.blocks == tree.blocks
    ensures r.Ok? && proof.block.Some? ==> Climb(LeafNode(proof.block.value.index, proof.block.value.value),
                                                 proof.block.value.nodes).Ok?
    ensures tree.Sound() && r.Ok? && proof.block.Some? ==>
              proof.block.value.index < tree.length
              && proof.block.value.value == tree.blocks[proof.block.value.index]
    ensures tree.Sound() && r.Ok? ==> batch.Sound()
    ensures honest ==> r.Ok? && batch.Sound() && batch.blocks == source[..tree.length]
  {
    ghost var w := if tree.blocks <= source then source else tree.blocks;
    if honest {
      DeliveredParts(tree, proof, accepts, source);
    }
    var climbed, path := BlockStep(proof, w);
    if climbed.Err? {
      return Err(InvalidProof);
    }
    r := Confirm(tree, batch, proof, climbed.value, path, w, honest);
  }

  /** The steps of `verify` for a proof with an upgrade, on a batch fresh
      from `tree`. */
  method ApplyUpgrade(tree: MerkleTree, batch: Batch, proof: Proof, accepts: (Hash, nat, nat, seq<byte>) -> bool,
                      ghost source: seq<Block>, ghost honest: bool)
    returns (r: Result<()>)
    requires FreshBatch(tree, batch) && proof.upgrade.Some?
    requires honest ==> Delivered(tree, proof, accepts, source)
    modifies batch
    ensures r.Err? ==> r.error == InvalidProof || r.error == MissingNode || r.error == InvalidSignature
    ensures r.Ok? ==> && batch.Valid() && batch.ancestors == tree.length
                      && batch.length == UpgradeEnd(proof.upgrade.value) && batch.fork == proof.fork
                      && accepts(batch.Hash(), batch.length, proof.fork, proof.upgrade.value.signature)
    ensures r.Ok? && proof.block.Some? ==> Climb(LeafNode(proof.block.value.index, proof.block.value.value),
                                                 proof.block.value.nodes).Ok?
    ensures (&& tree.Sound() && r.Ok? && proof.block.Some?
             && proof.block.value.index < proof.upgrade.value.start) ==>
              proof.block.value.index < tree.length
              && proof.block.value.value == tree.blocks[proof.block.value.index]
    ensures honest ==> r.Ok? && batch.Sound() && batch.blocks == source
  {
    ghost var w := if tree.blocks <= source then source else tree.blocks;
    if honest {
      DeliveredParts(tree, proof, accepts, source);
    }
    var climbed, path := BlockStep(proof, w);
    if climbed.Err? {
      return Err(InvalidProof);
    }
    r := Stage(tree, batch, proof, climbed.value, path, accepts, w, honest);
  }

  /** `tree.verify(proof)`: rebuilds the block's root, applies the upgrade
      to a fresh batch, checks a block root the upgrade did not use against
      the store, and stages the nodes the block proof delivered. The ghost
      log `source` names an honest sender's log. */
  method Verify(tree: MerkleTree, proof: Proof, accepts: (Hash, nat, nat, seq<byte>) -> bool, ghost source: seq<Block>)
    returns (r: Result<Batch>)
    requires tree.Valid()
    ensures r.Err? ==> r.error == InvalidProof || r.error == MissingNode || r.error == InvalidSignature
    ensures r.Ok? ==> && fresh(r.value) && r.value.tree == tree && r.value.Valid()
                      && r.value.ancestors == tree.length && r.value.length == Target(tree.length, proof)
    ensures r.Ok? && proof.block.Some? ==> Climb(LeafNode(proof.block.value.index, proof.block.value.value),
                                                 proof.block.value.nodes).Ok?
    ensures r.Ok? && proof.upgrade.None? ==> && r.value.roots == tree.roots && r.value.fork == tree.fork
                                             && r.value.blocks == tree.blocks
    ensures r.Ok? && proof.upgrade.Some? ==> && r.value.fork == proof.fork
                                             && accepts(r.value.Hash(), r.value.length, proof.fork,
                                                        proof.upgrade.value.signature)
    ensures (&& tree.Sound() && r.Ok? && proof.block.Some?
             && (proof.upgrade.None? || proof.block.value.index < proof.upgrade.value.start)) ==>
              proof.block.value.index < tree.length
              && proof.block.value.value == tree.blocks[proof.block.value.index]
    ensures tree.Sound() && r.Ok? && proof.upgrade.None? ==> r.value.Sound()
    ensures Delivered(tree, proof, accepts, source) ==>
              && r.Ok? && r.value.Sound()
              && r.value.blocks == if proof.upgrade.Some? then source else source[..tree.length]
  {
    ghost var delivered := Delivered(tree, proof, accepts, source);
    var batch := new Batch(tree);
    var applied;
    if proof.upgrade.None? {
      applied := ApplyBlock(tree, batch, proof, accepts, source, delivered);
    } else {
      applied := ApplyUpgrade(tree, batch, proof, accepts, source, delivered);
    }
    if applied.Err? {
      return Err(applied.error);
    }
    return Ok(batch);
  }
}
