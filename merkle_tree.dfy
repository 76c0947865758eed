/** The Merkle tree and its batches.

    A tree holds its length, byte length, fork, ordered roots and a node
    store keyed by flat index. It changes only through a batch: a staged
    copy of the roots and counters that appends and truncates without
    touching the tree until it is committed.

    Three invariants are kept apart. `Valid` is structural and holds for
    every tree: the roots sit at `FullRoots(length)` and their sizes add up
    to the byte length. `Sound` says that every root and stored node is the
    honest node over the ghost log `blocks`. `Complete` says the store holds
    every node of the tree, as a writer's store does. */
module Merkle {
  import opened Errors
  import opened FlatTree
  import opened MerkleNodes

  /** Every stored node is keyed by its own index and is the honest node. */
  ghost predicate Stored(blocks: seq<Block>, nodes: map<nat, Node>)
  {
    forall i :: i in nodes ==> End(i) <= |blocks| && nodes[i] == NodeAt(blocks, i)
  }

  /** The merge the append loop performs on its last two roots. */
  function Merge(rs: seq<Node>): (r: seq<Node>)
    requires |rs| >= 2
    ensures |r| == |rs| - 1 && r[..|rs| - 2] == rs[..|rs| - 2]
    ensures r[|rs| - 2].index == Parent(rs[|rs| - 1].index)
  {
    rs[..|rs| - 2] + [ParentNode(Parent(rs[|rs| - 1].index), rs[|rs| - 2], rs[|rs| - 1])]
  }

  /** One merge keeps the roots tiling the same span, keeps the fold and
      the total size, creates the next merged parent, and turns honest
      roots into honest roots: the left one of two tiling siblings is the
      left child of their parent. */
  lemma MergeStep(rs: seq<Node>, to: nat, w: seq<Block>)
    requires |rs| >= 2 && rs[|rs| - 2].index == Sibling(rs[|rs| - 1].index)
    requires Tiles(Indices(rs), to)
    ensures Tiles(Indices(Merge(rs)), to)
    ensures Fold(Indices(Merge(rs))) == Fold(Indices(rs))
    ensures Merged(Indices(rs)) == [Parent(rs[|rs| - 1].index)] + Merged(Indices(Merge(rs)))
    ensures SumSizes(Merge(rs)) == SumSizes(rs)
    ensures Honest(w, rs) ==> Honest(w, Merge(rs))
  {
    var n := |rs|;
    var a, b := rs[n - 1], rs[n - 2];
    var idx := Indices(rs);
    var m := Merge(rs);
    var p := Parent(a.index);
    assert Indices(m) == idx[..n - 2] + [p];
    assert idx[..n - 1][..n - 2] == idx[..n - 2];
    assert Tiles(idx[..n - 1], Start(a.index));
    LeftSibling(a.index, b.index);
    Children(p);
    assert Indices(m)[..n - 2] == idx[..n - 2];
    assert m[..n - 2] == rs[..n - 2] && rs[..n - 1][..n - 2] == rs[..n - 2];
    if Honest(w, rs) {
      forall k | 0 <= k < |m|
        ensures End(m[k].index) <= |w| && m[k] == NodeAt(w, m[k].index)
      {
        if k == n - 2 {
          assert NodeAt(w, p) == ParentNode(p, NodeAt(w, b.index), NodeAt(w, a.index));
        } else {
          assert m[k] == rs[k];
        }
      }
    }
  }

  /** Honest nodes stay honest when the log grows. */
  lemma HonestExtend(w: seq<Block>, v: seq<Block>, rs: seq<Node>, nodes: map<nat, Node>)
    requires |w| <= |v| && v[..|w|] == w
    ensures Honest(w, rs) ==> Honest(v, rs)
    ensures Stored(w, nodes) ==> Stored(v, nodes)
  {
    if Honest(w, rs) {
      forall k | 0 <= k < |rs|
        ensures End(rs[k].index) <= |v| && rs[k] == NodeAt(v, rs[k].index)
      {
        var e := End(rs[k].index);
        assert v[..e] == w[..e];
        NodeAtPrefix(w, v, rs[k].index);
      }
    }
    if Stored(w, nodes) {
      forall i | i in nodes
        ensures End(i) <= |v| && nodes[i] == NodeAt(v, i)
      {
        assert v[..End(i)] == w[..End(i)];
        NodeAtPrefix(w, v, i);
      }
    }
  }

  /** The state after an honest append is honest for the grown log. */
  lemma GrownSound(old_: seq<Block>, next: seq<Block>, treeBlocks: seq<Block>, ancestors: nat,
                   rs: seq<Node>, nodes: map<nat, Node>, created: map<nat, Node>)
    requires old_ <= next && ancestors <= |old_| && ancestors <= |treeBlocks|
    requires old_[..ancestors] == treeBlocks[..ancestors]
    requires Indices(rs) == FullRoots(|next|) && Honest(next, rs)
    requires Stored(next, nodes) && Stored(next, created)
    ensures rs == RootsOf(next) && Stored(next, nodes + created)
    ensures next[..ancestors] == treeBlocks[..ancestors]
  {
    HonestRoots(next, rs);
    PrefixSlice(old_, next, ancestors);
  }

  lemma PrefixSlice<T>(a: seq<T>, b: seq<T>, k: nat)
    requires a <= b && k <= |a|
    ensures b[..k] == a[..k]
  {
    assert a == b[..|a|];
  }

  lemma StoredUnion(w: seq<Block>, a: map<nat, Node>, b: map<nat, Node>)
    requires Stored(w, a) && Stored(w, b)
    ensures Stored(w, a + b)
  {
  }

  /** The store holds every root of `len`. */
  predicate HasRoots(keys: set<nat>, len: nat)
  {
    forall k :: 0 <= k < |FullRoots(len)| ==> FullRoots(len)[k] in keys
  }

  /** The clone of merkle-tree.spec.ts:464-506, holding only the roots 3
      and 8 of a five-block tree, can prove the lengths 0, 4 and 5 and none
      of 1, 2 and 3. */
  lemma UpgradeableCloneScenario()
    ensures HasRoots({3, 8}, 0) && HasRoots({3, 8}, 4) && HasRoots({3, 8}, 5)
    ensures !HasRoots({3, 8}, 1) && !HasRoots({3, 8}, 2) && !HasRoots({3, 8}, 3)
  {
    SmallRoots();
    assert FullRoots(1)[0] !in {3, 8};
    assert FullRoots(2)[0] !in {3, 8};
    assert FullRoots(3)[0] !in {3, 8};
  }

  /** The roots of the lengths 1 to 5. */
  lemma SmallRoots()
    ensures FullRoots(1) == [0] && FullRoots(2) == [1] && FullRoots(3) == [1, 4]
    ensures FullRoots(4) == [3] && FullRoots(5) == [3, 8]
  {
    assert FullRoots(0) == [];
    assert FullRoots(1) == Ups([]) + [0];
    assert FullRoots(2) == Ups([0]);
    assert FullRoots(3) == Ups([0]) + [4];
    assert FullRoots(4) == Ups([1]);
    assert FullRoots(5) == Ups([1]) + [8];
  }

  /** The last root of a non-empty length ends at that length. */
  lemma LastRoot(len: nat)
    ensures len > 0 ==> |FullRoots(len)| > 0 && End(FullRoots(len)[|FullRoots(len)| - 1]) == len
  {
    if len > 0 {
      FullRootsNonEmpty(len);
      FullRootsTile(len);
      TilesLast(FullRoots(len), len);
    }
  }

  /** The node spans leaf `n`: its flat range holds the flat index `2 * n`. */
  predicate Spans(i: nat, n: nat)
  {
    Start(i) <= n < End(i)
  }

  /** A node that does not span leaf `n` covers no more than `Start(i) + n` leaves. */
  lemma OutsideBound(i: nat, n: nat)
    requires !Spans(i, n)
    ensures Pow2(Depth(i)) <= Start(i) + n
  {
    Span(i);
    if Start(i) > n {
      OffsetPositive(Offset(i), Pow2(Depth(i)));
    }
  }

  /** A positive multiple of `p` is at least `p`. */
  lemma OffsetPositive(o: nat, p: nat)
    requires o * p > 0
    ensures o * p >= p
  {
  }

  lemma AncestorStep(i: nat, levels: nat)
    ensures Ancestor(i, levels + 1) == Parent(Ancestor(i, levels))
    decreases levels
  {
    if levels > 0 {
      AncestorStep(Parent(i), levels - 1);
    }
  }

  /** The store holds every node over the first `len` leaves. */
  ghost predicate Covers(store: map<nat, Node>, len: nat)
  {
    forall i: nat {:trigger i in store} :: End(i) <= len ==> i in store
  }

  /** The stored nodes that cover no leaf at or past `len`. */
  function Within(nodes: map<nat, Node>, len: nat): map<nat, Node>
  {
    map i | i in nodes && End(i) <= len :: nodes[i]
  }

  /** Roots kept from `roots` or fetched from `store`. */
  ghost predicate Collected(rs: seq<Node>, roots: seq<Node>, store: map<nat, Node>)
  {
    forall k :: 0 <= k < |rs| ==> (k < |roots| && rs[k] == roots[k]) || (rs[k].index in store && rs[k] == store[rs[k].index])
  }

  /** Honest nodes inside a prefix stay honest for the prefix. */
  lemma StoredPrefix(w: seq<Block>, len: nat, nodes: map<nat, Node>)
    requires len <= |w| && Stored(w, nodes)
    ensures Stored(w[..len], Within(nodes, len))
  {
    forall i | i in nodes && End(i) <= len
      ensures NodeAt(w, i) == NodeAt(w[..len], i)
    {
      assert w[..len][..End(i)] == w[..End(i)];
      NodeAtPrefix(w, w[..len], i);
    }
  }

  /** What the append loop keeps: the roots tile `[0, e)` and fold to the
      roots of `e`, the merges done so far and the merges still to come make
      up all of them, the sizes add up, and the created nodes are the pushed
      node and the merged parents, all ending at `e` and honest when the
      inputs were. */
  ghost predicate PushInvariant(e: nat, size: nat, merged: seq<nat>, x: nat, next: seq<Block>, honest: bool,
                                rs: seq<Node>, created: map<nat, Node>, done: seq<nat>)
  {
    && |rs| >= 1
    && Tiles(Indices(rs), e)
    && Fold(Indices(rs)) == FullRoots(e)
    && done + Merged(Indices(rs)) == merged
    && SumSizes(rs) == size
    && (forall i :: i in created ==> created[i].index == i && End(i) == e)
    && (forall i :: i in created <==> i == x || i in done)
    && (honest ==> Honest(next, rs) && Stored(next, created))
  }

  lemma PushStep(e: nat, size: nat, merged: seq<nat>, x: nat, next: seq<Block>, honest: bool,
                 rs: seq<Node>, created: map<nat, Node>, done: seq<nat>)
    requires PushInvariant(e, size, merged, x, next, honest, rs, created, done)
    requires |rs| > 1 && rs[|rs| - 2].index == Sibling(rs[|rs| - 1].index)
    ensures var m := Merge(rs);
      PushInvariant(e, size, merged, x, next, honest, m, created[m[|m| - 1].index := m[|m| - 1]],
                    done + [m[|m| - 1].index])
  {
    var a := rs[|rs| - 1];
    var m := Merge(rs);
    var p := m[|m| - 1];
    var created' := created[p.index := p];
    var done' := done + [p.index];
    assert Tiles(Indices(m), e) && Fold(Indices(m)) == FullRoots(e) && SumSizes(m) == size by {
      MergeStep(rs, e, next);
    }
    assert done' + Merged(Indices(m)) == merged by {
      MergeStep(rs, e, next);
      assert done' + Merged(Indices(m)) == done + ([p.index] + Merged(Indices(m)));
    }
    assert p.index == Parent(a.index) && End(p.index) == e by {
      TilesLast(Indices(rs), e);
      LeftSibling(a.index, rs[|rs| - 2].index);
      Children(Parent(a.index));
    }
    assert forall i :: i in created' ==> created'[i].index == i && End(i) == e;
    assert forall i :: i in created' <==> i == x || i in done';
    if honest {
      PushHonest(e, next, rs, created);
    }
  }

  /** A merge of honest roots creates an honest parent. */
  lemma PushHonest(e: nat, next: seq<Block>, rs: seq<Node>, created: map<nat, Node>)
    requires |rs| > 1 && rs[|rs| - 2].index == Sibling(rs[|rs| - 1].index)
    requires Tiles(Indices(rs), e) && Honest(next, rs) && Stored(next, created)
    ensures var m := Merge(rs);
      Honest(next, m) && Stored(next, created[m[|m| - 1].index := m[|m| - 1]])
  {
    var m := Merge(rs);
    var p := m[|m| - 1];
    MergeStep(rs, e, next);
    assert p == NodeAt(next, p.index);
  }

  /** The append loop: push `node`, then merge the last two roots while
      they are siblings. Returns the new roots and the nodes it created:
      the pushed node and the merged parents. */
  method PushRoot(roots: seq<Node>, node: Node, ghost next: seq<Block>, ghost honest: bool)
    returns (rs: seq<Node>, created: map<nat, Node>)
    requires Indices(roots) == FullRoots(Start(node.index)) && |next| == End(node.index)
    requires honest ==> Honest(next, roots) && node == NodeAt(next, node.index)
    ensures Indices(rs) == FullRoots(End(node.index))
    ensures SumSizes(rs) == SumSizes(roots) + node.size
    ensures forall i :: i in created ==> created[i].index == i && End(i) == End(node.index)
    ensures forall i :: i in created <==> i == node.index || i in Merged(Indices(roots) + [node.index])
    ensures honest ==> Honest(next, rs) && Stored(next, created)
  {
    ghost var merged := Merged(Indices(roots) + [node.index]);
    ghost var done: seq<nat> := [];
    var e := End(node.index);
    rs := roots + [node];
    created := map[node.index := node];
    PushStart(roots, node, next, honest);
    while |rs| > 1 && rs[|rs| - 2].index == Sibling(rs[|rs| - 1].index)
      invariant PushInvariant(e, SumSizes(roots) + node.size, merged, node.index, next, honest, rs, created, done)
      decreases |rs|
    {
      PushStep(e, SumSizes(roots) + node.size, merged, node.index, next, honest, rs, created, done);
      rs := Merge(rs);
      var p := rs[|rs| - 1];
      created := created[p.index := p];
      done := done + [p.index];
    }
    PushDone(e, SumSizes(roots) + node.size, merged, node.index, next, honest, rs, created, done);
  }

  /** Pushing a node onto the roots before any merge. */
  lemma PushStart(roots: seq<Node>, node: Node, next: seq<Block>, honest: bool)
    requires Indices(roots) == FullRoots(Start(node.index)) && |next| == End(node.index)
    requires honest ==> Honest(next, roots) && node == NodeAt(next, node.index)
    ensures PushInvariant(End(node.index), SumSizes(roots) + node.size, Merged(Indices(roots) + [node.index]),
                          node.index, next, honest, roots + [node], map[node.index := node], [])
  {
    var rs := roots + [node];
    FullRootsTile(Start(node.index));
    FoldAligned(node.index);
    assert Indices(rs) == Indices(roots) + [node.index];
    assert Indices(rs)[..|rs| - 1] == Indices(roots);
    SumSizesConcat(roots, [node]);
    assert [] + Merged(Indices(rs)) == Merged(Indices(rs));
    if honest {
      assert Honest(next, rs);
    }
  }

  /** Once the last two roots are not siblings the merges are done. */
  lemma PushDone(e: nat, size: nat, merged: seq<nat>, x: nat, next: seq<Block>, honest: bool,
                 rs: seq<Node>, created: map<nat, Node>, done: seq<nat>)
    requires PushInvariant(e, size, merged, x, next, honest, rs, created, done)
    requires !(|rs| > 1 && rs[|rs| - 2].index == Sibling(rs[|rs| - 1].index))
    ensures Indices(rs) == FullRoots(e) && SumSizes(rs) == size
    ensures forall i :: i in created <==> i == x || i in merged
  {
    var idx := Indices(rs);
    assert Fold(idx) == idx && Merged(idx) == [];
    assert done + [] == done;
  }

  /** The roots at the indices `target`: the leading roots of `roots` that
      already sit at those indices are kept, the rest are fetched from the
      store; a node the store lacks is reported missing. */
  method CollectRoots(target: seq<nat>, roots: seq<Node>, store: map<nat, Node>) returns (r: Result<seq<Node>>)
    requires forall i :: i in store ==> store[i].index == i
    ensures r.Ok? ==> Indices(r.value) == target && Collected(r.value, roots, store)
    ensures r.Err? ==> r.error == MissingNode && exists k :: 0 <= k < |target| && target[k] !in store
    ensures (forall k :: 0 <= k < |target| ==> target[k] in store) ==> r.Ok?
  {
    var keep := 0;
    while keep < |roots| && keep < |target| && roots[keep].index == target[keep]
      invariant keep <= |roots| && keep <= |target|
      invariant forall k :: 0 <= k < keep ==> roots[k].index == target[k]
    {
      keep := keep + 1;
    }
    var rs := roots[..keep];
    while |rs| < |target|
      invariant keep <= |rs| <= |target|
      invariant forall k :: 0 <= k < |rs| ==> rs[k].index == target[k]
      invariant forall k :: 0 <= k < |rs| ==>
                  (k < |roots| && rs[k] == roots[k]) || (target[k] in store && rs[k] == store[target[k]])
      decreases |target| - |rs|
    {
      var i := target[|rs|];
      if i !in store {
        return Err(MissingNode);
      }
      rs := rs + [store[i]];
    }
    return Ok(rs);
  }

  /** Roots collected from honest roots and an honest store are the roots
      of the log's prefix. */
  lemma CollectedHonest(blocks: seq<Block>, len: nat, roots: seq<Node>, store: map<nat, Node>, rs: seq<Node>)
    requires len <= |blocks| && Honest(blocks, roots) && Stored(blocks, store)
    requires Indices(rs) == FullRoots(len)
    requires Collected(rs, roots, store)
    ensures rs == RootsOf(blocks[..len])
  {
    FullRootsBound(len);
    forall k | 0 <= k < |rs|
      ensures End(rs[k].index) <= len && rs[k] == NodeAt(blocks[..len], rs[k].index)
    {
      var i := rs[k].index;
      assert i == FullRoots(len)[k];
      assert rs[k] == NodeAt(blocks, i);
      assert blocks[..len][..End(i)] == blocks[..End(i)];
      NodeAtPrefix(blocks, blocks[..len], i);
    }
    HonestRoots(blocks[..len], rs);
  }

  /** Truncating an honest batch leaves its store and its shared prefix
      with the tree honest for the log's prefix. */
  lemma TruncatedSound(blocks: seq<Block>, treeBlocks: seq<Block>, ancestors: nat, nodes: map<nat, Node>,
                       len: nat, a: nat)
    requires len <= |blocks| && ancestors <= |blocks| && ancestors <= |treeBlocks|
    requires a == if ancestors < len then ancestors else len
    requires Stored(blocks, nodes) && blocks[..ancestors] == treeBlocks[..ancestors]
    ensures Stored(blocks[..len], Within(nodes, len))
    ensures blocks[..len][..a] == treeBlocks[..a]
  {
    StoredPrefix(blocks, len, nodes);
    assert blocks[..len][..a] == blocks[..ancestors][..a];
  }

  /** Truncating a complete batch leaves it complete. */
  lemma TruncatedComplete(treeNodes: map<nat, Node>, ancestors: nat, nodes: map<nat, Node>, length: nat,
                          len: nat, a: nat)
    requires len <= length && a == if ancestors < len then ancestors else len
    requires Covers(Within(treeNodes, ancestors) + nodes, length)
    ensures Covers(Within(treeNodes, a) + Within(nodes, len), len)
  {
    forall i: nat | End(i) <= len
      ensures i in Within(treeNodes, a) + Within(nodes, len)
    {
      assert i in Within(treeNodes, ancestors) + nodes;
    }
  }

  class MerkleTree {
    var length: nat
    var byteLength: nat
    var fork: nat
    var roots: seq<Node>
    var nodes: map<nat, Node>
    ghost var blocks: seq<Block>

    ghost predicate Valid()
      reads this
    {
      && |blocks| == length
      && Indices(roots) == FullRoots(length)
      && byteLength == SumSizes(roots)
      && forall i :: i in nodes ==> nodes[i].index == i && End(i) <= length
    }

    ghost predicate Sound()
      reads this
    {
      Valid() && roots == RootsOf(blocks) && Stored(blocks, nodes)
    }

    ghost predicate Complete()
      reads this
    {
      Covers(nodes, length)
    }

    /** An empty tree. */
    constructor ()
      ensures Valid() && Sound() && Complete()
      ensures length == 0 && byteLength == 0 && fork == 0 && roots == [] && nodes == map[]
    {
      length, byteLength, fork, roots, nodes := 0, 0, 0, [], map[];
      blocks := [];
      forall i: nat
        ensures End(i) > 0
      {
        StartBeforeEnd(i);
      }
    }

    /** The tree hash: a hash over the roots, each with index, size and hash. */
    function Hash(): Hash
      reads this
    {
      TreeHash(roots)
    }

    /** A node from the store, if it is held. */
    function Get(i: nat): (r: Option<Node>)
      reads this
      ensures r.Some? <==> i in nodes
      ensures Sound() && r.Some? ==> End(i) <= length && r.value == NodeAt(blocks, i)
      ensures Complete() && End(i) <= length ==> r.Some?
    {
      if i in nodes then Some(nodes[i]) else None
    }

    /** `tree.getRoots(length)`: the roots the tree had at an earlier
        length, read from the store. */
    method GetRoots(len: nat) returns (r: Result<seq<Node>>)
      requires Valid()
      ensures r.Ok? ==> Indices(r.value) == FullRoots(len)
      ensures r.Err? ==> r.error == MissingNode
      ensures len > length ==> r.Err?
      ensures Complete() && len <= length ==> r.Ok?
      ensures Sound() && r.Ok? ==> len <= length && r.value == RootsOf(blocks[..len])
      ensures Sound() && r.Ok? && len == length ==> r.value == roots
    {
      if len > length {
        LastRoot(len);
      } else if Complete() {
        FullRootsBound(len);
      }
      r := CollectRoots(FullRoots(len), [], nodes);
      if Sound() && r.Ok? {
        assert len <= length;
        CollectedHonest(blocks, len, [], nodes, r.value);
        assert blocks[..length] == blocks;
      }
    }

    /** `tree.upgradeable(length)`: whether the store holds every root of
        that length, so the tree can prove it had that length. */
    method Upgradeable(len: nat) returns (r: bool)
      requires Valid()
      ensures r <==> HasRoots(nodes.Keys, len)
      ensures Complete() && len <= length ==> r
      ensures len > length ==> !r
    {
      var target := FullRoots(len);
      if Complete() && len <= length {
        FullRootsBound(len);
      }
      if len > length {
        LastRoot(len);
      }
      var k := 0;
      while k < |target|
        invariant k <= |target|
        invariant forall j :: 0 <= j < k ==> target[j] in nodes
      {
        if target[k] !in nodes {
          return false;
        }
        k := k + 1;
      }
      return true;
    }

    /** `tree.nodes(index)`: how many levels above `index` the store is
        missing, walking up until a held node or a node spanning the head. */
    method MissingNodes(index: nat) returns (count: nat)
      requires Valid()
      ensures forall j :: 0 <= j < count ==> Ancestor(index, j) !in nodes && !Spans(Ancestor(index, j), length)
      ensures Ancestor(index, count) in nodes || Spans(Ancestor(index, count), length)
      ensures Complete() && End(index) <= length ==> count == 0
    {
      var cur := index;
      count := 0;
      AncestorCovers(index, 0);
      while !Spans(cur, length) && cur !in nodes
        invariant cur == Ancestor(index, count) && Start(cur) <= Start(index)
        invariant forall j :: 0 <= j < count ==> Ancestor(index, j) !in nodes && !Spans(Ancestor(index, j), length)
        decreases Start(index) + length - Pow2(Depth(cur))
      {
        OutsideBound(cur, length);
        ParentDepth(cur);
        ParentCovers(cur);
        AncestorStep(index, count);
        cur := Parent(cur);
        count := count + 1;
      }
    }

    /** `tree.clear()`: discards every node and resets the tree to empty. */
    method Clear()
      modifies this
      ensures Valid() && Sound() && Complete()
      ensures length == 0 && byteLength == 0 && fork == 0 && roots == [] && nodes == map[]
      ensures forall i :: Get(i) == None
    {
      length, byteLength, fork, roots, nodes := 0, 0, 0, [], map[];
      blocks := [];
      forall i: nat
        ensures End(i) > 0
      {
        StartBeforeEnd(i);
      }
    }
  }

  class Batch {
    const tree: MerkleTree
    var length: nat
    var byteLength: nat
    var fork: nat
    var roots: seq<Node>
    /** The nodes this batch created. */
    var nodes: map<nat, Node>
    /** The tree's stored nodes covering no more than this many leaves are
        still part of the batch's tree. */
    var ancestors: nat
    ghost var blocks: seq<Block>

    ghost predicate Valid()
      reads this, tree
    {
      && tree.Valid()
      && |blocks| == length
      && Indices(roots) == FullRoots(length)
      && byteLength == SumSizes(roots)
      && ancestors <= length && ancestors <= tree.length
      && forall i :: i in nodes ==> nodes[i].index == i && End(i) <= length
    }

    ghost predicate Sound()
      reads this, tree
    {
      && Valid()
      && tree.Sound()
      && roots == RootsOf(blocks) && Stored(blocks, nodes)
      && blocks[..ancestors] == tree.blocks[..ancestors]
    }

    /** The store as the batch sees it: the tree's surviving nodes overlaid
        with the batch's own. */
    function Visible(): map<nat, Node>
      reads this, tree
    {
      Within(tree.nodes, ancestors) + nodes
    }

    ghost predicate Complete()
      reads this, tree
    {
      Covers(Visible(), length)
    }

    lemma VisibleSound()
      requires Sound()
      ensures Stored(blocks, Visible())
    {
      StoredPrefix(tree.blocks, ancestors, tree.nodes);
      assert blocks[..ancestors] == tree.blocks[..ancestors];
      HonestExtend(blocks[..ancestors], blocks, [], Within(tree.nodes, ancestors));
    }

    lemma VisibleKeys()
      requires Valid()
      ensures forall i :: i in Visible() ==> Visible()[i].index == i && End(i) <= length
    {
    }

    lemma CompleteRoots(len: nat)
      requires Complete() && len <= length
      ensures forall k :: 0 <= k < |FullRoots(len)| ==> FullRoots(len)[k] in Visible()
    {
      FullRootsBound(len);
    }

    /** `tree.batch()`: a batch staged on the tree's current state. */
    constructor (t: MerkleTree)
      requires t.Valid()
      ensures tree == t && Valid()
      ensures length == t.length && byteLength == t.byteLength && fork == t.fork && roots == t.roots
      ensures nodes == map[] && ancestors == t.length && blocks == t.blocks
      ensures t.Sound() ==> Sound()
      ensures t.Complete() ==> Complete()
    {
      tree := t;
      length, byteLength, fork, roots := t.length, t.byteLength, t.fork, t.roots;
      nodes := map[];
      ancestors := t.length;
      blocks := t.blocks;
    }

    function Hash(): Hash
      reads this
    {
      TreeHash(roots)
    }

    /** Pushes a node that starts where the roots end, then merges the last
        two roots while they are siblings. `next` is the log the node is
        honest for; the staged state is honest for it when the batch was
        honest and the node is. */
    method AppendRoot(node: Node, ghost next: seq<Block>)
      requires Valid() && Start(node.index) == length && |next| == End(node.index)
      modifies this
      ensures Valid()
      ensures length == End(node.index) && byteLength == old(byteLength) + node.size
      ensures fork == old(fork) && ancestors == old(ancestors) && blocks == next
      ensures node.index in nodes
      ensures forall i :: i in old(nodes) ==> i in nodes && nodes[i] == old(nodes)[i]
      ensures forall i :: i in Merged(Indices(old(roots)) + [node.index]) ==> i in nodes
      ensures forall i :: i in nodes ==>
                i in old(nodes) || i == node.index || i in Merged(Indices(old(roots)) + [node.index])
      ensures old(Sound()) && old(blocks) <= next && node == NodeAt(next, node.index) ==> Sound()
    {
      ghost var honest := Sound() && blocks <= next && node == NodeAt(next, node.index);
      StartBeforeEnd(node.index);
      if honest {
        assert Honest(next, roots) && Stored(next, nodes) by {
          RootsHonest(blocks);
          HonestExtend(blocks, next, roots, nodes);
        }
      }
      var rs, created := PushRoot(roots, node, next, honest);
      Install(rs, created, End(node.index), node.size, next, honest);
    }

    /** The state change of an append, once the new roots and nodes are known. */
    method Install(rs: seq<Node>, created: map<nat, Node>, e: nat, size: nat, ghost next: seq<Block>, ghost honest: bool)
      requires Valid() && length < e == |next| && Indices(rs) == FullRoots(e)
      requires SumSizes(rs) == byteLength + size
      requires forall i :: i in created ==> created[i].index == i && End(i) == |next|
      requires honest ==> Sound() && blocks <= next && Honest(next, rs) && Stored(next, nodes) && Stored(next, created)
      modifies this
      ensures Valid()
      ensures length == |next| && byteLength == old(byteLength) + size && roots == rs && blocks == next
      ensures fork == old(fork) && ancestors == old(ancestors) && nodes == old(nodes) + created
      ensures forall i :: i in old(nodes) ==> nodes[i] == old(nodes)[i]
      ensures honest ==> Sound()
    {
      ghost var oldBlocks := blocks;
      ghost var oldNodes := nodes;
      assert forall i :: i in created ==> i !in oldNodes;
      nodes := nodes + created;
      roots := rs;
      byteLength := byteLength + size;
      length := e;
      blocks := next;
      if honest {
        GrownSound(oldBlocks, next, tree.blocks, ancestors, rs, oldNodes, created);
      }
    }

    /** `batch.append(block)`: pushes the block's leaf at the next sequence
        number. */
    method Append(block: Block)
      requires Valid()
      modifies this
      ensures Valid()
      ensures length == old(length) + 1 && byteLength == old(byteLength) + |block|
      ensures fork == old(fork) && ancestors == old(ancestors)
      ensures 2 * old(length) in nodes
      ensures forall i :: i in old(nodes) ==> i in nodes && nodes[i] == old(nodes)[i]
      ensures blocks == old(blocks) + [block]
      ensures old(Sound()) ==> Sound()
      ensures old(Complete()) ==> Complete()
    {
      var n := length;
      var leaf := LeafNode(n, block);
      ghost var next := blocks + [block];
      assert blocks <= next;
      NodeAtLeaf(next, n);
      ghost var before := Visible();
      AppendRoot(leaf, next);
      if old(Complete()) {
        forall i: nat | End(i) <= length
          ensures i in Visible()
        {
          if End(i) == n + 1 {
            EndingNodes(n, i);
          } else {
            assert i in before;
          }
        }
      }
    }

    /** Stages nodes a verified proof delivered, to be written with the
        batch: a block's leaf, its uncles and the parents between them. */
    method AddNodes(delivered: map<nat, Node>)
      requires Valid()
      requires forall i :: i in delivered ==> delivered[i].index == i && End(i) <= length
      modifies this
      ensures Valid()
      ensures nodes == old(nodes) + delivered
      ensures length == old(length) && byteLength == old(byteLength) && fork == old(fork)
      ensures roots == old(roots) && ancestors == old(ancestors) && blocks == old(blocks)
      ensures old(Sound()) && Stored(blocks, delivered) ==> Sound()
      ensures old(Complete()) ==> Complete()
    {
      if Sound() && Stored(blocks, delivered) {
        StoredUnion(blocks, nodes, delivered);
      }
      ghost var before := Visible();
      nodes := nodes + delivered;
      assert forall i :: i in before ==> i in Visible();
    }

    /** Stages the fork id a verified proof carries. */
    method SetFork(f: nat)
      modifies this
      ensures fork == f
      ensures length == old(length) && byteLength == old(byteLength) && roots == old(roots)
      ensures nodes == old(nodes) && ancestors == old(ancestors) && blocks == old(blocks)
      ensures old(Valid()) ==> Valid()
      ensures old(Sound()) ==> Sound()
    {
      fork := f;
    }

    /** The roots the batch has at an earlier length: the leading roots
        that survive are kept, the others are read from the batch's view of
        the store. */
    method TruncatedRoots(len: nat) returns (r: Result<seq<Node>>)
      requires Valid()
      ensures len > length ==> r == Err(BadArgument)
      ensures r.Ok? ==> len <= length && Indices(r.value) == FullRoots(len)
      ensures r.Err? && len <= length ==>
                r.error == MissingNode && exists k :: 0 <= k < |FullRoots(len)| && FullRoots(len)[k] !in Visible()
      ensures Sound() && r.Ok? ==> r.value == RootsOf(blocks[..len])
      ensures Complete() && len <= length ==> r.Ok?
    {
      if len > length {
        return Err(BadArgument);
      }
      var visible := Visible();
      VisibleKeys();
      if Complete() {
        CompleteRoots(len);
      }
      r := CollectRoots(FullRoots(len), roots, visible);
      if Sound() && r.Ok? {
        VisibleSound();
        RootsHonest(blocks);
        CollectedHonest(blocks, len, roots, visible, r.value);
      }
    }

    /** `batch.truncate(length, fork)`: cuts the staged tree back to a
        shorter length under a new fork id. */
    method Truncate(newLength: nat, newFork: nat) returns (r: Result<()>)
      requires Valid()
      modifies this
      ensures Valid()
      ensures newLength > old(length) ==> r == Err(BadArgument)
      ensures r.Err? ==> unchanged(this)
      ensures r.Ok? ==> length == newLength && fork == newFork
      ensures r.Ok? ==> ancestors == (if old(ancestors) < newLength then old(ancestors) else newLength)
      ensures r.Ok? ==> nodes == Within(old(nodes), newLength)
      ensures r.Ok? ==> blocks == old(blocks)[..newLength]
      ensures old(Sound()) && r.Ok? ==> Sound()
      ensures old(Complete()) && newLength <= old(length) ==> r.Ok? && Complete()
    {
      var collected := TruncatedRoots(newLength);
      if collected.Err? {
        return Err(collected.error);
      }
      var a := if ancestors < newLength then ancestors else newLength;
      if Sound() {
        TruncatedSound(blocks, tree.blocks, ancestors, nodes, newLength, a);
      }
      if Complete() {
        TruncatedComplete(tree.nodes, ancestors, nodes, length, newLength, a);
      }
      CutTo(collected.value, newLength, newFork);
      return Ok(());
    }

    /** The state change of a truncation, once the roots are known. */
    method CutTo(rs: seq<Node>, newLength: nat, newFork: nat)
      requires Valid() && newLength <= length && Indices(rs) == FullRoots(newLength)
      modifies this
      ensures Valid()
      ensures length == newLength && fork == newFork && roots == rs
      ensures ancestors == (if old(ancestors) < newLength then old(ancestors) else newLength)
      ensures nodes == Within(old(nodes), newLength)
      ensures blocks == old(blocks)[..newLength]
    {
      roots := rs;
      byteLength := SumSizes(rs);
      length := newLength;
      fork := newFork;
      ancestors := if ancestors < newLength then ancestors else newLength;
      nodes := Within(nodes, newLength);
      blocks := blocks[..newLength];
    }

    /** `batch.commit()`: the tree takes the staged state and the batch's
        view of the store. */
    method Commit()
      requires Valid()
      modifies tree
      ensures tree.length == length && tree.byteLength == byteLength && tree.fork == fork
      ensures tree.roots == roots && tree.nodes == old(Visible()) && tree.blocks == blocks
      ensures tree.Valid()
      ensures old(Sound()) ==> tree.Sound()
      ensures old(Complete()) ==> tree.Complete()
    {
      ghost var visible := Visible();
      if Sound() {
        VisibleSound();
      }
      tree.nodes := Visible();
      tree.length := length;
      tree.byteLength := byteLength;
      tree.fork := fork;
      tree.roots := roots;
      tree.blocks := blocks;
    }
  }
}
