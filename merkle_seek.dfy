/** Byte addressing over the tree: the byte offset and byte range of a node,
    and the seek from a byte position to the block holding it, with the
    block-by-block scan it must agree with. */
module MerkleSeek {
  import opened Errors
  import opened FlatTree
  import opened MerkleNodes
  import opened Merkle

  /** The bytes before leaf `k` split at any earlier leaf. */
  lemma PrefixSplit(w: seq<Block>, a: nat, b: nat)
    requires a <= b <= |w|
    ensures TotalSize(w[..b]) == TotalSize(w[..a]) + TotalSize(w[a..b])
  {
    SpanSplit(w, 0, a, b);
    assert w[..b] == w[0..b] && w[..a] == w[0..a];
  }

  /** The bytes before a later leaf are no fewer. */
  lemma PrefixMonotone(w: seq<Block>, a: nat, b: nat)
    requires a <= b <= |w|
    ensures TotalSize(w[..a]) <= TotalSize(w[..b])
  {
    PrefixSplit(w, a, b);
  }

  /** The bytes before leaf `k + 1` are those before `k` and block `k`. */
  lemma PrefixNext(w: seq<Block>, k: nat)
    requires k < |w|
    ensures TotalSize(w[..k + 1]) == TotalSize(w[..k]) + |w[k]|
  {
    assert w[..k + 1][..k] == w[..k];
  }

  /** The sizes of the first roots add up to no more than all of them. */
  lemma SumSizesPrefix(rs: seq<Node>, k: nat)
    requires k <= |rs|
    ensures SumSizes(rs[..k]) <= SumSizes(rs)
  {
    SumSizesConcat(rs[..k], rs[k..]);
    assert rs[..k] + rs[k..] == rs;
  }

  /** The root walk of `byteOffset`: the roots before `k` tile the leaves
      `[0, lo)` and, in an honest tree, the offset counts their bytes. */
  ghost predicate RootWalk(roots: seq<Node>, blocks: seq<Block>, sound: bool, k: nat, lo: nat, offset: nat)
  {
    && k <= |roots| && lo <= |blocks|
    && Tiles(Indices(roots)[..k], lo)
    && (sound ==> offset == TotalSize(blocks[..lo]))
  }

  /** Past the last root the walk has covered the whole log. */
  lemma RootWalkDone(roots: seq<Node>, blocks: seq<Block>, sound: bool, k: nat, lo: nat, offset: nat)
    requires Indices(roots) == FullRoots(|blocks|)
    requires RootWalk(roots, blocks, sound, k, lo, offset) && k == |roots|
    ensures lo == |blocks|
  {
    FullRootsTile(|blocks|);
    assert Indices(roots)[..k] == Indices(roots);
    TilesUnique(Indices(roots), lo, |blocks|);
  }

  lemma RootWalkStep(roots: seq<Node>, blocks: seq<Block>, sound: bool, k: nat, lo: nat, offset: nat)
    requires Indices(roots) == FullRoots(|blocks|)
    requires sound ==> roots == RootsOf(blocks)
    requires RootWalk(roots, blocks, sound, k, lo, offset) && k < |roots|
    ensures var x := roots[k].index;
      && Start(x) == lo && lo < End(x) && 2 * lo + 2 * ((x - 2 * lo) + 1) == 2 * End(x)
      && RootWalk(roots, blocks, sound, k + 1, End(x), offset + roots[k].size)
  {
    var idx := Indices(roots);
    var x := idx[k];
    FullRootsTile(|blocks|);
    TilesPrefix(idx, |blocks|, k);
    TilesUnique(idx[..k], lo, Start(x));
    TilesBound(idx, |blocks|, k);
    IndexSpan(x);
    StartBeforeEnd(x);
    if sound {
      RootsHonest(blocks);
      assert roots[k] == NodeAt(blocks, x);
      assert roots[k].size == TotalSize(blocks[Start(x)..End(x)]);
      PrefixSplit(blocks, Start(x), End(x));
    }
    assert Indices(roots)[..k + 1] == idx[..k + 1];
  }

  /** The descent of `byteOffset` towards the leaf of block `s`: the
      current node covers `s` and, in an honest tree, the offset counts the
      bytes before its first leaf. */
  ghost predicate Descent(blocks: seq<Block>, sound: bool, cur: nat, s: nat, offset: nat)
  {
    && Start(cur) <= s < End(cur) && End(cur) <= |blocks|
    && (sound ==> offset == TotalSize(blocks[..Start(cur)]))
  }

  /** One step down: to the left child when `s` lies under it, otherwise
      past it to the right child, adding the left child's bytes. */
  lemma DescentStep(blocks: seq<Block>, sound: bool, cur: nat, s: nat, offset: nat, left: Node)
    requires Descent(blocks, sound, cur, s, offset) && cur != 2 * s
    ensures cur % 2 == 1
    ensures 2 * s < cur <==> s < End(LeftChild(cur))
    ensures End(LeftChild(cur)) <= End(cur)
    ensures Depth(LeftChild(cur)) < Depth(cur) && Depth(RightChild(cur)) < Depth(cur)
    ensures 2 * s < cur ==> Descent(blocks, sound, LeftChild(cur), s, offset)
    ensures 2 * s > cur && End(LeftChild(cur)) <= |blocks| && (sound ==> left == NodeAt(blocks, LeftChild(cur))) ==>
      Descent(blocks, sound, RightChild(cur), s, offset + left.size)
  {
    if cur % 2 == 0 {
      LeafSpan(cur, s);
    }
    Children(cur);
    LeafSide(cur, s);
    var l := LeftChild(cur);
    StartBeforeEnd(l);
    StartBeforeEnd(RightChild(cur));
    if 2 * s > cur && sound && left == NodeAt(blocks, l) {
      assert left.size == TotalSize(blocks[Start(l)..End(l)]);
      PrefixSplit(blocks, Start(cur), End(l));
    }
  }

  /** The inner walk of `byteOffset`: from the root covering leaf `leaf`,
      go down to it, adding the size of every left child passed on the
      right. */
  method Descend(tree: MerkleTree, root: nat, leaf: nat, ghost s: nat, offset: nat) returns (r: Result<nat>)
    requires tree.Valid() && leaf == 2 * s
    requires Start(root) <= s < End(root) <= tree.length
    ensures r.Err? ==> r.error == MissingNode && !tree.Complete()
    ensures tree.Sound() && offset == TotalSize(tree.blocks[..Start(root)]) && r.Ok? ==>
      r.value == TotalSize(tree.blocks[..s])
  {
    ghost var sound := tree.Sound() && offset == TotalSize(tree.blocks[..Start(root)]);
    var cur := root;
    var sum: nat := offset;
    while cur != leaf
      invariant Descent(tree.blocks, sound, cur, s, sum)
      decreases Depth(cur)
    {
      var l := LeftChild(cur) by {
        DescentStep(tree.blocks, sound, cur, s, sum, Node(0, 0, LeafHash([])));
      }
      if leaf < cur {
        DescentStep(tree.blocks, sound, cur, s, sum, Node(0, 0, LeafHash([])));
        cur := l;
      } else {
        if l !in tree.nodes {
          DescentStep(tree.blocks, sound, cur, s, sum, Node(0, 0, LeafHash([])));
          assert !Covers(tree.nodes, tree.length);
          return Err(MissingNode);
        }
        DescentStep(tree.blocks, sound, cur, s, sum, tree.nodes[l]);
        sum := sum + tree.nodes[l].size;
        cur := RightChild(cur);
      }
    }
    LeafIndex(s);
    return Ok(sum);
  }

  /** `tree.byteOffset(index)`: the number of bytes before the first leaf
      of the node, found by summing the roots before it and the left
      children on the way down to that leaf. */
  method ByteOffset(tree: MerkleTree, index: nat) returns (r: Result<nat>)
    requires tree.Valid()
    ensures r == Err(BadArgument) <==> Start(index) >= tree.length
    ensures r.Err? ==> r.error == BadArgument || r.error == MissingNode
    ensures tree.Complete() && Start(index) < tree.length ==> r.Ok?
    ensures tree.Sound() && r.Ok? ==> r.value == TotalSize(tree.blocks[..Start(index)])
  {
    var leaf := if index % 2 == 1 then 2 * Start(index) else index;
    assert leaf == 2 * Start(index);
    ghost var sound := tree.Sound();
    var head: int := 0;
    ghost var lo: nat := 0;
    var offset: nat := 0;
    var k := 0;
    while k < |tree.roots|
      invariant RootWalk(tree.roots, tree.blocks, sound, k, lo, offset)
      invariant head == 2 * lo && leaf >= head
    {
      var node := tree.roots[k];
      RootWalkStep(tree.roots, tree.blocks, sound, k, lo, offset);
      head := head + 2 * ((node.index - head) + 1);
      lo := End(node.index);
      if leaf >= head {
        offset := offset + node.size;
        k := k + 1;
      } else {
        r := Descend(tree, node.index, leaf, Start(index), offset);
        return;
      }
    }
    RootWalkDone(tree.roots, tree.blocks, sound, k, lo, offset);
    return Err(BadArgument);
  }

  /** `tree.byteRange(index)`: the byte offset and byte size of a node
      inside the tree. */
  method ByteRange(tree: MerkleTree, index: nat) returns (r: Result<(nat, nat)>)
    requires tree.Valid()
    ensures r == Err(BadArgument) <==> End(index) > tree.length
    ensures r.Err? ==> r.error == BadArgument || r.error == MissingNode
    ensures tree.Complete() && End(index) <= tree.length ==> r.Ok?
    ensures r.Ok? ==> Start(index) < End(index) <= tree.length
    ensures tree.Sound() && r.Ok? ==>
      r.value == (TotalSize(tree.blocks[..Start(index)]), TotalSize(Under(tree.blocks, index)))
  {
    StartBeforeEnd(index);
    if End(index) > tree.length {
      return Err(BadArgument);
    }
    var offset := ByteOffset(tree, index);
    if offset.Err? {
      return Err(offset.error);
    }
    if index !in tree.nodes {
      return Err(MissingNode);
    }
    return Ok((offset.value, tree.nodes[index].size));
  }

  /** `(i, o)` is the position of byte `bytes`: `o` bytes into block `i`,
      or the start of block `i` (which may be the end of the log). */
  ghost predicate AtByte(blocks: seq<Block>, bytes: nat, i: nat, o: nat)
  {
    && i <= |blocks|
    && TotalSize(blocks[..i]) + o == bytes
    && (o > 0 ==> i < |blocks| && o < |blocks[i]|)
  }

  /** The position the block-by-block scan finds: the first block that
      reaches past `bytes`, or the end of the log with what is left over. */
  ghost predicate LinearAt(blocks: seq<Block>, bytes: nat, i: nat, o: nat)
  {
    && i <= |blocks|
    && TotalSize(blocks[..i]) + o == bytes
    && (i < |blocks| ==> o < |blocks[i]|)
  }

  /** The descent of the seek: the current node lies inside the log and,
      in an honest tree, `bytes` falls strictly inside it, `rem` bytes past
      its first byte. */
  ghost predicate SeekDescent(blocks: seq<Block>, sound: bool, cur: nat, rem: nat, bytes: nat)
  {
    && Start(cur) <= End(cur) <= |blocks|
    && (sound ==> 0 < rem && TotalSize(blocks[..Start(cur)]) + rem == bytes
                  && bytes < TotalSize(blocks[..End(cur)]))
  }

  /** One root of the seek: the byte is at the end of the root, inside it,
      or past it. */
  lemma SeekRootStep(roots: seq<Node>, blocks: seq<Block>, sound: bool, k: nat, lo: nat, passed: nat,
                     rem: nat, bytes: nat)
    requires Indices(roots) == FullRoots(|blocks|)
    requires sound ==> roots == RootsOf(blocks)
    requires RootWalk(roots, blocks, sound, k, lo, passed) && k < |roots|
    requires passed == SumSizes(roots[..k]) && passed + rem == bytes && rem > 0
    ensures var x := roots[k].index;
      && Start(x) <= End(x) <= |blocks|
      && RootWalk(roots, blocks, sound, k + 1, End(x), passed + roots[k].size)
      && passed + roots[k].size == SumSizes(roots[..k + 1]) <= SumSizes(roots)
      && (sound && rem == roots[k].size ==> AtByte(blocks, bytes, End(x), 0))
      && (sound && rem < roots[k].size ==> SeekDescent(blocks, true, x, rem, bytes))
  {
    RootWalkStep(roots, blocks, sound, k, lo, passed);
    assert roots[..k + 1][..k] == roots[..k];
    SumSizesPrefix(roots, k + 1);
  }

  /** The flat-tree facts of one step down from an odd node. */
  lemma SeekChildren(cur: nat)
    requires cur % 2 == 1
    ensures Depth(LeftChild(cur)) < Depth(cur) && Depth(RightChild(cur)) < Depth(cur)
    ensures Start(cur) == Start(LeftChild(cur)) <= End(LeftChild(cur)) == Start(RightChild(cur))
    ensures Start(RightChild(cur)) <= End(RightChild(cur)) == End(cur)
  {
    Children(cur);
    StartBeforeEnd(LeftChild(cur));
    StartBeforeEnd(RightChild(cur));
  }

  /** One step of the seek below an odd node, given its honest left child:
      stop at the end of the left child, go left, or skip it and go right. */
  lemma SeekStep(blocks: seq<Block>, sound: bool, cur: nat, rem: nat, bytes: nat, left: Node)
    requires SeekDescent(blocks, sound, cur, rem, bytes) && cur % 2 == 1
    requires End(LeftChild(cur)) <= End(cur)
    requires sound ==> left == NodeAt(blocks, LeftChild(cur))
    ensures sound && left.size == rem ==> AtByte(blocks, bytes, End(LeftChild(cur)), 0)
    ensures left.size > rem ==> SeekDescent(blocks, sound, LeftChild(cur), rem, bytes)
    ensures left.size < rem ==> SeekDescent(blocks, sound, RightChild(cur), rem - left.size, bytes)
  {
    SeekChildren(cur);
    var l := LeftChild(cur);
    if sound {
      assert left.size == TotalSize(blocks[Start(l)..End(l)]);
      PrefixSplit(blocks, Start(l), End(l));
    }
  }

  /** The seek stops at a leaf: the byte lies inside that leaf's block. */
  lemma SeekLeaf(blocks: seq<Block>, cur: nat, rem: nat, bytes: nat)
    requires SeekDescent(blocks, true, cur, rem, bytes) && cur % 2 == 0
    ensures AtByte(blocks, bytes, cur / 2, rem)
  {
    LeafIndex(cur / 2);
    PrefixNext(blocks, cur / 2);
  }

  /** The inner walk of the seek: from a root that holds byte `bytes`,
      `rem` bytes into it, go down to the leaf holding it, comparing the
      target with the size of each left child. */
  method SeekDown(tree: MerkleTree, root: nat, rem: nat, ghost bytes: nat, ghost sound: bool)
    returns (r: Result<(nat, nat)>)
    requires tree.Valid() && Start(root) <= End(root) <= tree.length
    requires sound ==> tree.Sound() && SeekDescent(tree.blocks, true, root, rem, bytes)
    ensures r.Err? ==> r.error == MissingNode && !tree.Complete()
    ensures sound && r.Ok? ==> AtByte(tree.blocks, bytes, r.value.0, r.value.1)
  {
    var cur := root;
    var left: nat := rem;
    while cur % 2 == 1
      invariant SeekDescent(tree.blocks, sound, cur, left, bytes)
      decreases Depth(cur)
    {
      SeekChildren(cur);
      var l := LeftChild(cur);
      if l !in tree.nodes {
        assert !Covers(tree.nodes, tree.length);
        return Err(MissingNode);
      }
      var node := tree.nodes[l];
      SeekStep(tree.blocks, sound, cur, left, bytes, node);
      if node.size == left {
        return Ok((End(l), 0));
      }
      if node.size > left {
        cur := l;
      } else {
        left := left - node.size;
        cur := RightChild(cur);
      }
    }
    if sound {
      SeekLeaf(tree.blocks, cur, left, bytes);
    }
    return Ok((cur / 2, left));
  }

  /** The root loop of `tree.seek(bytes)`: skips whole roots while the
      target lies past them, and stops at the first root that reaches it,
      `rem` bytes into that root. */
  method SeekRoot(tree: MerkleTree, bytes: nat, ghost sound: bool)
    returns (found: bool, k: nat, rem: nat, ghost lo: nat)
    requires tree.Valid() && bytes > 0 && (sound ==> tree.Sound())
    ensures found ==> && k < |tree.roots| && 0 < rem <= bytes && rem <= tree.roots[k].size
                      && RootWalk(tree.roots, tree.blocks, sound, k, lo, bytes - rem)
                      && bytes - rem == SumSizes(tree.roots[..k])
    ensures !found ==> bytes > tree.byteLength
  {
    lo := 0;
    ghost var passed: nat := 0;
    rem := bytes;
    k := 0;
    while k < |tree.roots|
      invariant RootWalk(tree.roots, tree.blocks, sound, k, lo, passed)
      invariant passed == SumSizes(tree.roots[..k]) && passed + rem == bytes && rem > 0
    {
      var node := tree.roots[k];
      SeekRootStep(tree.roots, tree.blocks, sound, k, lo, passed, rem, bytes);
      if rem <= node.size {
        return true, k, rem, lo;
      }
      rem := rem - node.size;
      passed := passed + node.size;
      lo := End(node.index);
      k := k + 1;
    }
    assert tree.roots[..k] == tree.roots;
    return false, k, rem, lo;
  }

  /** `tree.seek(bytes)`: the block holding byte `bytes` and the offset
      inside it, found from the roots down by comparing sizes. */
  method Seek(tree: MerkleTree, bytes: nat) returns (r: Result<(nat, nat)>)
    requires tree.Valid()
    ensures r == Err(BadArgument) <==> bytes > tree.byteLength
    ensures r.Err? ==> r.error == BadArgument || r.error == MissingNode
    ensures tree.Complete() ==> r != Err(MissingNode)
    ensures tree.Sound() && r.Ok? ==> AtByte(tree.blocks, bytes, r.value.0, r.value.1)
  {
    if bytes == 0 {
      return Ok((0, 0));
    }
    ghost var sound := tree.Sound();
    var found, k, rem, lo := SeekRoot(tree, bytes, sound);
    if !found {
      return Err(BadArgument);
    }
    var node := tree.roots[k];
    SeekRootStep(tree.roots, tree.blocks, sound, k, lo, bytes - rem, rem, bytes);
    if rem == node.size {
      return Ok((End(node.index), 0));
    }
    r := SeekDown(tree, node.index, rem, bytes, sound);
  }

  /** The block-by-block scan the seek must agree with: walk the leaves,
      subtracting each block's size until one reaches past the target. */
  method LinearSeek(tree: MerkleTree, bytes: nat) returns (r: Result<(nat, nat)>)
    requires tree.Valid()
    ensures r.Err? ==> r.error == MissingNode && !tree.Complete()
    ensures tree.Sound() && r.Ok? ==> LinearAt(tree.blocks, bytes, r.value.0, r.value.1)
  {
    ghost var sound := tree.Sound();
    var rem: nat := bytes;
    var i := 0;
    while i < tree.length
      invariant i <= tree.length
      invariant sound ==> tree.Sound() && TotalSize(tree.blocks[..i]) + rem == bytes
    {
      LeafIndex(i);
      if 2 * i !in tree.nodes {
        assert !Covers(tree.nodes, tree.length);
        return Err(MissingNode);
      }
      var node := tree.nodes[2 * i];
      if sound {
        assert node == NodeAt(tree.blocks, 2 * i);
        assert tree.blocks[Start(2 * i)..End(2 * i)] == [tree.blocks[i]];
        assert TotalSize([tree.blocks[i]]) == TotalSize([]) + |tree.blocks[i]|;
        PrefixNext(tree.blocks, i);
      }
      if node.size > rem {
        return Ok((i, rem));
      }
      rem := rem - node.size;
      i := i + 1;
    }
    return Ok((tree.length, rem));
  }

  /** With no empty blocks, a byte before the end of the log has exactly
      one position: the seek and the scan agree. */
  lemma SeekAgreesWithScan(blocks: seq<Block>, bytes: nat, i: nat, o: nat, j: nat, p: nat)
    requires forall b :: 0 <= b < |blocks| ==> |blocks[b]| > 0
    requires bytes < TotalSize(blocks)
    requires AtByte(blocks, bytes, i, o) && LinearAt(blocks, bytes, j, p)
    ensures i == j && o == p
  {
    assert blocks[..|blocks|] == blocks;
    assert i < |blocks| && j < |blocks|;
    if i < j {
      PrefixNext(blocks, i);
      PrefixMonotone(blocks, i + 1, j);
    } else if j < i {
      PrefixNext(blocks, j);
      PrefixMonotone(blocks, j + 1, i);
    }
  }
}
