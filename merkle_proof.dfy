/** Proofs: which nodes a tree sends for a block request and for an
    upgrade to a longer tree, and how a receiving tree checks them and
    stages the result in a batch. */
module MerkleProof {
  import opened Bytes
  import opened Errors
  import opened FlatTree
  import opened MerkleNodes
  import opened Merkle

  // ---------------------------------------------------------------------
  // Which nodes a proof carries

  /** `flat.contains(c, j)`: the flat index `j` lies inside the span of
      node `c`. */
  predicate Contains(c: nat, j: int)
  {
    2 * Start(c) <= j <= 2 * End(c) - 2
  }

  /** The siblings met walking `levels` steps up from `i` that lie to the
      right of the flat index `target`, bottom-up. */
  function RightUncles(i: nat, levels: nat, target: nat): seq<nat>
    decreases levels
  {
    if levels == 0 then []
    else (if Sibling(i) > target then [Sibling(i)] else []) + RightUncles(Parent(i), levels - 1, target)
  }

  /** What an upgrade from length `s` sends for one root `r` of the new
      length: nothing when the receiver already has all of it, the right
      uncles of its last leaf `s - 1` when `r` spans `s`, else `r` itself. */
  function RootStep(r: nat, s: nat): seq<nat>
  {
    if End(r) <= s then []
    else if s > 0 && Contains(r, 2 * (s - 1)) then RightUncles(2 * (s - 1), Depth(r), 2 * (s - 1))
    else [r]
  }

  function Candidates(rs: seq<nat>, s: nat): seq<nat>
    decreases |rs|
  {
    if rs == [] then [] else RootStep(rs[0], s) + Candidates(rs[1..], s)
  }

  /** The nodes an upgrade from length `s` to length `t` carries, in the
      order the receiver appends them. */
  function UpgradeIndices(s: nat, t: nat): seq<nat>
  {
    Candidates(FullRoots(t), s)
  }

  /** The first upgrade node that contains the requested leaf is not sent:
      the block proof up to it stands in for it. Returns the remaining
      upgrade nodes and the node the block proof climbs to. */
  function Substitute(cands: seq<nat>, leaf: nat): (r: (seq<nat>, Option<nat>))
    ensures r.1.None? ==> r.0 == cands && forall k :: 0 <= k < |cands| ==> !Contains(cands[k], leaf)
    ensures r.1.Some? ==> Contains(r.1.value, leaf) && |r.0| + 1 == |cands|
    decreases |cands|
  {
    if cands == [] then ([], None)
    else if Contains(cands[0], leaf) then (cands[1..], Some(cands[0]))
    else
      var (rest, c) := Substitute(cands[1..], leaf);
      assert c.None? ==> cands == [cands[0]] + cands[1..];
      ([cands[0]] + rest, c)
  }

  /** The node the block proof stands in for sits in the upgrade nodes
      where it would have been sent. */
  lemma {:induction false} SubstitutePosition(cands: seq<nat>, leaf: nat)
    requires Substitute(cands, leaf).1.Some?
    ensures var (rest, c) := Substitute(cands, leaf);
      exists k :: 0 <= k <= |rest| && cands == rest[..k] + [c.value] + rest[k..]
    decreases |cands|
  {
    var (rest, c) := Substitute(cands, leaf);
    if Contains(cands[0], leaf) {
      assert cands == rest[..0] + [c.value] + rest[0..];
    } else {
      SubstitutePosition(cands[1..], leaf);
      var (rest', c') := Substitute(cands[1..], leaf);
      var k :| 0 <= k <= |rest'| && cands[1..] == rest'[..k] + [c'.value] + rest'[k..];
      assert rest == [cands[0]] + rest';
      assert cands == rest[..k + 1] + [c.value] + rest[k + 1..];
    }
  }

  /** `nodesToRoot(index, nodes, head)`: the ancestor `levels` steps up,
      refused when one of the ancestors passed reaches the leaf `head`. */
  function NodesToRoot(i: nat, levels: nat, head: nat): (r: Result<nat>)
    ensures r.Ok? ==> r.value == Ancestor(i, levels)
    ensures r.Err? ==> r.error == BadArgument
    decreases levels
  {
    if levels == 0 then Ok(i)
    else if Contains(Parent(i), 2 * head) then Err(BadArgument)
    else NodesToRoot(Parent(i), levels - 1, head)
  }

  datatype BlockRequest = BlockRequest(index: nat, nodes: nat)
  datatype UpgradeRequest = UpgradeRequest(start: nat, length: nat)
  datatype Request = Request(block: Option<BlockRequest>, upgrade: Option<UpgradeRequest>)

  /** The flat indices of the nodes a proof carries: the block's uncles,
      the upgrade nodes and the additional nodes. */
  datatype Plan = Plan(block: Option<seq<nat>>, upgrade: Option<seq<nat>>, additional: seq<nat>)

  /** `tree.proof(request)` for a tree of `len` blocks, as flat indices.
      An upgrade covers `[start, start + length)`; additional nodes carry
      the roots from there to `len`. A block before the upgrade's start (or
      with no upgrade) gets its own proof of `nodes` uncles; a block inside
      the upgrade gets the uncles up to the upgrade node holding it, which
      is then not sent. */
  function ProofPlan(len: nat, req: Request): (r: Result<Plan>)
    ensures r.Err? ==> r.error == BadArgument
    ensures r.Ok? ==> (r.value.block.Some? ==> req.block.Some?) && (r.value.upgrade.Some? ==> req.upgrade.Some?)
    ensures r.Ok? && r.value.upgrade.None? ==> r.value.additional == []
  {
    var from := if req.upgrade.Some? then req.upgrade.value.start else 0;
    var to := if req.upgrade.Some? then from + req.upgrade.value.length else len;
    var additional := if req.upgrade.Some? && to < len then UpgradeIndices(to, len) else [];
    if from >= to || to > len then Err(BadArgument)
    else if req.block.Some? && (req.upgrade.None? || req.block.value.index < from) then
      var b := req.block.value;
      var root := NodesToRoot(2 * b.index, b.nodes, to);
      if root.Err? then Err(root.error)
      else
        Ok(Plan(Some(Uncles(2 * b.index, b.nodes)),
                if req.upgrade.Some? then Some(UpgradeIndices(from, to)) else None,
                additional))
    else if req.upgrade.Some? then
      var cands := UpgradeIndices(from, to);
      if req.block.Some? then
        var leaf := 2 * req.block.value.index;
        var (rest, c) := Substitute(cands, leaf);
        Ok(Plan(if c.Some? then Some(Uncles(leaf, Depth(c.value))) else None, Some(rest), additional))
      else
        Ok(Plan(None, Some(cands), additional))
    else
      Ok(Plan(None, None, []))
  }

  // ---------------------------------------------------------------------
  // The nodes of an upgrade start where the receiver's tree ends

  /** `idx` lists nodes whose spans follow each other from leaf `s` to
      leaf `t`: each starts where the one before ends. */
  ghost predicate Chain(idx: seq<nat>, s: nat, t: nat)
    decreases |idx|
  {
    if idx == [] then s == t
    else Start(idx[0]) == s && Chain(idx[1..], End(idx[0]), t)
  }

  lemma {:induction false} ChainConcat(a: seq<nat>, b: seq<nat>, s: nat, m: nat, t: nat)
    requires Chain(a, s, m) && Chain(b, m, t)
    ensures Chain(a + b, s, t)
    decreases |a|
  {
    if a != [] {
      assert (a + b)[0] == a[0] && (a + b)[1..] == a[1..] + b;
      ChainConcat(a[1..], b, End(a[0]), m, t);
    } else {
      assert a + b == b;
    }
  }

  /** A node's spans only grow along a chain. */
  lemma {:induction false} ChainOrdered(idx: seq<nat>, s: nat, t: nat)
    requires Chain(idx, s, t)
    ensures s <= t
    decreases |idx|
  {
    if idx != [] {
      StartBeforeEnd(idx[0]);
      ChainOrdered(idx[1..], End(idx[0]), t);
    }
  }

  /** The right uncles of a node follow each other from its end to the
      end of its ancestor. */
  lemma {:induction false} RightUnclesChain(i: nat, levels: nat, target: nat)
    requires Contains(i, target)
    ensures Chain(RightUncles(i, levels, target), End(i), End(Ancestor(i, levels)))
    decreases levels
  {
    if levels > 0 {
      var p, s := Parent(i), Sibling(i);
      SiblingSide(i);
      IndexInSpan(s);
      RightUnclesChain(p, levels - 1, target);
      if Start(s) == End(i) {
        assert s > target;
        assert RightUncles(i, levels, target) == [s] + RightUncles(p, levels - 1, target);
      } else {
        assert s < target;
        assert RightUncles(i, levels, target) == RightUncles(p, levels - 1, target);
      }
    }
  }

  lemma {:induction false} CandidatesConcat(a: seq<nat>, b: seq<nat>, s: nat)
    ensures Candidates(a + b, s) == Candidates(a, s) + Candidates(b, s)
    decreases |a|, 1
  {
    if a == [] {
      assert a + b == b;
    } else {
      CandidatesConcatCons(a, b, s);
    }
  }

  lemma {:induction false} CandidatesConcatCons(a: seq<nat>, b: seq<nat>, s: nat)
    requires a != []
    ensures Candidates(a + b, s) == Candidates(a, s) + Candidates(b, s)
    decreases |a|, 0
  {
    var x, rest := a[0], a[1..];
    assert a == [x] + rest && a + b == [x] + (rest + b);
    CandidatesConcat(rest, b, s);
    CandidatesCons(x, rest + b, s);
    CandidatesCons(x, rest, s);
    Associative(RootStep(x, s), Candidates(rest, s), Candidates(b, s));
  }

  lemma {:induction false} CandidatesCons(x: nat, rest: seq<nat>, s: nat)
    ensures Candidates([x] + rest, s) == RootStep(x, s) + Candidates(rest, s)
  {
    assert ([x] + rest)[1..] == rest;
  }

  lemma Associative(p: seq<nat>, q: seq<nat>, r: seq<nat>)
    ensures p + (q + r) == p + q + r
  {
  }

  /** Roots that end by `s` send nothing. */
  lemma {:induction false} CandidatesSkipped(rs: seq<nat>, to: nat, s: nat)
    requires Tiles(rs, to) && to <= s
    ensures Candidates(rs, s) == []
    decreases |rs|
  {
    if rs != [] {
      var n := |rs|;
      var x := rs[n - 1];
      StartBeforeEnd(x);
      CandidatesSkipped(rs[..n - 1], Start(x), s);
      CandidatesConcat(rs[..n - 1], [x], s);
      assert rs == rs[..n - 1] + [x];
    }
  }

  /** The root spanning or following `s` sends nodes that run from `s`
      (or its own start) to its end. */
  lemma RootStepChain(x: nat, s: nat)
    requires s < End(x)
    ensures Start(x) < s ==> Chain(RootStep(x, s), s, End(x))
    ensures s <= Start(x) ==> RootStep(x, s) == [x]
  {
    StartBeforeEnd(x);
    if Start(x) < s {
      LeafIndex(s - 1);
      LeafAncestor(x, s - 1);
      RightUnclesChain(2 * (s - 1), Depth(x), 2 * (s - 1));
    } else {
      assert [x][1..] == [];
    }
  }

  /** The nodes of an upgrade from `s` follow each other from `s` to the
      end of the tiling. */
  lemma {:induction false} CandidatesChain(rs: seq<nat>, to: nat, s: nat)
    requires Tiles(rs, to) && s <= to
    ensures Chain(Candidates(rs, s), s, to)
    decreases |rs|
  {
    if rs != [] {
      var n := |rs|;
      var x := rs[n - 1];
      var prefix := rs[..n - 1];
      assert rs == prefix + [x];
      CandidatesConcat(prefix, [x], s);
      assert Candidates([x], s) == RootStep(x, s) + Candidates([], s);
      StartBeforeEnd(x);
      if s == to {
        CandidatesSkipped(rs, to, s);
      } else if Start(x) < s {
        CandidatesSkipped(prefix, Start(x), s);
        RootStepChain(x, s);
        assert Candidates(rs, s) == RootStep(x, s);
      } else {
        CandidatesChain(prefix, Start(x), s);
        RootStepChain(x, s);
        assert Chain([x], Start(x), to) by {
          assert [x][1..] == [];
        }
        assert Candidates(rs, s) == Candidates(prefix, s) + [x];
        ChainConcat(Candidates(prefix, s), [x], s, Start(x), to);
      }
    }
  }

  /** The upgrade nodes from `s` to `t` start at `s` and end at `t`. */
  lemma UpgradeChain(s: nat, t: nat)
    requires s <= t
    ensures Chain(UpgradeIndices(s, t), s, t)
  {
    FullRootsTile(t);
    CandidatesChain(FullRoots(t), t, s);
  }

  // ---------------------------------------------------------------------
  // The proofs of a ten-block tree

  /** The roots of the lengths the examples use. */
  lemma ExampleRoots()
    ensures FullRoots(5) == [3, 8] && FullRoots(6) == [3, 9]
    ensures FullRoots(8) == [7] && FullRoots(10) == [7, 17]
  {
    SmallRoots();
    assert FullRoots(6) == Ups([1, 4]);
    assert FullRoots(8) == Ups([3]);
    assert FullRoots(10) == Ups([3, 8]);
  }

  /** The spans of the nodes the examples touch. */
  lemma SmallSpans()
    ensures Start(3) == 0 && End(3) == 4 && Depth(3) == 2
    ensures Start(7) == 0 && End(7) == 8 && Depth(7) == 3
    ensures Start(9) == 4 && End(9) == 6 && Start(11) == 4 && End(11) == 8
    ensures Start(17) == 8 && End(17) == 10 && Start(5) == 2 && End(5) == 4
  {
  }

  /** The parents and siblings of the nodes the examples touch. */
  lemma SmallFamily()
    ensures Parent(8) == 9 && Parent(9) == 11 && Parent(11) == 7
    ensures Sibling(8) == 10 && Sibling(9) == 13 && Sibling(11) == 3
    ensures Parent(0) == 1 && Parent(1) == 3 && Sibling(0) == 2 && Sibling(1) == 5
    ensures Parent(3) == 7 && Sibling(3) == 11
  {
  }

  /** A block proof of two levels for block 4 carries its sibling and uncle. */
  lemma PlanBlockOnly()
    ensures ProofPlan(10, Request(Some(BlockRequest(4, 2)), None)) == Ok(Plan(Some([10, 13]), None, []))
  {
    SmallSpans();
    SmallFamily();
    assert NodesToRoot(11, 0, 10) == Ok(11);
    assert NodesToRoot(9, 1, 10) == Ok(11);
    assert NodesToRoot(8, 2, 10) == Ok(11);
    assert Uncles(9, 1) == [13] + Uncles(11, 0);
    assert Uncles(8, 2) == [10] + Uncles(9, 1);
    var req := Request(Some(BlockRequest(4, 2)), None);
    assert NodesToRoot(2 * req.block.value.index, req.block.value.nodes, 10) == Ok(11);
    assert Uncles(2 * req.block.value.index, req.block.value.nodes) == [10, 13];
  }

  /** Block 4 inside an upgrade from nothing: the block proof climbs to
      the first root, which is then not sent. */
  lemma SubstituteBlockFour()
    ensures Substitute([7, 17], 8) == ([17], Some(7)) && Substitute([7], 8) == ([], Some(7))
    ensures Uncles(8, Depth(7)) == [10, 13, 3]
  {
    SmallSpans();
    SmallFamily();
    assert Uncles(8, 3) == [10] + Uncles(9, 2);
    assert Uncles(9, 2) == [13] + Uncles(11, 1);
  }

  /** An upgrade from nothing to all ten blocks: the block proof climbs to
      the first root and the second root is sent. */
  lemma PlanUpgradeFull()
    ensures ProofPlan(10, Request(Some(BlockRequest(4, 0)), Some(UpgradeRequest(0, 10))))
         == Ok(Plan(Some([10, 13, 3]), Some([17]), []))
  {
    ExampleRoots();
    SmallSpans();
    SmallFamily();
    assert RootStep(17, 0) == [17];
    assert Candidates([17], 0) == [17];
    assert UpgradeIndices(0, 10) == [7, 17];
    SubstituteBlockFour();
  }

  /** An upgrade to eight blocks: the root of the first eight comes from
      the block proof and the root of the last two is additional. */
  lemma PlanUpgradeAdditional()
    ensures ProofPlan(10, Request(Some(BlockRequest(4, 0)), Some(UpgradeRequest(0, 8))))
         == Ok(Plan(Some([10, 13, 3]), Some([]), [17]))
  {
    ExampleRoots();
    SmallSpans();
    SmallFamily();
    assert UpgradeIndices(0, 8) == [7];
    assert RootStep(7, 8) == [];
    assert RootStep(17, 8) == [17];
    assert Candidates([17], 8) == [17];
    assert UpgradeIndices(8, 10) == [17];
    SubstituteBlockFour();
  }

  /** The right uncles of block 0 up to the first root of ten blocks. */
  lemma UnclesOfBlockZero()
    ensures RightUncles(0, 3, 0) == [2, 5, 11] && RightUncles(0, 2, 0) == [2, 5]
  {
    SmallSpans();
    SmallFamily();
    assert RightUncles(3, 1, 0) == [11] + RightUncles(7, 0, 0);
    assert RightUncles(1, 2, 0) == [5] + RightUncles(3, 1, 0);
    assert RightUncles(0, 3, 0) == [2] + RightUncles(1, 2, 0);
    assert RightUncles(1, 1, 0) == [5] + RightUncles(3, 0, 0);
    assert RightUncles(0, 2, 0) == [2] + RightUncles(1, 1, 0);
  }

  /** An upgrade from one block to ten: the right uncles of block 0, then
      the second root; block 1 is the first uncle, so its proof is empty. */
  lemma PlanUpgradeFromExisting()
    ensures ProofPlan(10, Request(Some(BlockRequest(1, 0)), Some(UpgradeRequest(1, 9))))
         == Ok(Plan(Some([]), Some([5, 11, 17]), []))
  {
    ExampleRoots();
    SmallSpans();
    SmallFamily();
    UnclesOfBlockZero();
    assert RootStep(7, 1) == [2, 5, 11];
    assert RootStep(17, 1) == [17];
    assert Candidates([17], 1) == [17];
    assert UpgradeIndices(1, 10) == [2, 5, 11, 17];
    assert Substitute([2, 5, 11, 17], 2) == ([5, 11, 17], Some(2));
  }

  /** An upgrade from one block to six, with the roots of ten additional. */
  lemma PlanUpgradeFromExistingAdditional()
    ensures ProofPlan(10, Request(Some(BlockRequest(1, 0)), Some(UpgradeRequest(1, 5))))
         == Ok(Plan(Some([]), Some([5, 9]), [13, 17]))
  {
    ExampleRoots();
    SmallSpans();
    SmallFamily();
    UnclesOfBlockZero();
    assert RootStep(3, 1) == [2, 5];
    assert RootStep(9, 1) == [9];
    assert Candidates([9], 1) == [9];
    assert UpgradeIndices(1, 6) == [2, 5, 9];
    assert Substitute([2, 5, 9], 2) == ([5, 9], Some(2));
    assert RightUncles(10, 3, 10) == [13];
    assert RootStep(7, 6) == [13];
    assert UpgradeIndices(6, 10) == [13, 17];
  }

  // ---------------------------------------------------------------------
  // The nodes a plan names lie inside the tree

  /** Every node in `idx` covers only leaves below `len`. */
  ghost predicate Inside(idx: seq<nat>, len: nat)
  {
    forall k :: 0 <= k < |idx| ==> End(idx[k]) <= len
  }

  /** The nodes of a chain from `s` to `t` lie between `s` and `t`. */
  lemma {:induction false} ChainInside(idx: seq<nat>, s: nat, t: nat)
    requires Chain(idx, s, t)
    ensures forall k :: 0 <= k < |idx| ==> s <= Start(idx[k]) && End(idx[k]) <= t
    decreases |idx|
  {
    if idx != [] {
      StartBeforeEnd(idx[0]);
      ChainInside(idx[1..], End(idx[0]), t);
      forall k | 0 < k < |idx|
        ensures s <= Start(idx[k]) && End(idx[k]) <= t
      {
        assert idx[k] == idx[1..][k - 1];
      }
      ChainOrdered(idx[1..], End(idx[0]), t);
    }
  }

  /** The uncles met climbing `levels` steps from `i` lie under the node
      reached. */
  lemma {:induction false} UnclesUnder(i: nat, levels: nat)
    ensures forall k :: 0 <= k < levels ==> End(Uncles(i, levels)[k]) <= End(Ancestor(i, levels))
    decreases levels
  {
    if levels > 0 {
      var p := Parent(i);
      var top := Ancestor(p, levels - 1);
      var us := Uncles(p, levels - 1);
      assert Ancestor(i, levels) == top;
      assert Uncles(i, levels) == [Sibling(i)] + us;
      UnclesUnder(p, levels - 1);
      SiblingSide(i);
      StartBeforeEnd(i);
      AncestorCovers(p, levels - 1);
      forall k | 0 <= k < levels
        ensures End(Uncles(i, levels)[k]) <= End(top)
      {
        if k > 0 {
          assert Uncles(i, levels)[k] == us[k - 1];
        }
      }
    }
  }

  /** A climb that never reaches the leaf `head` stays below it. */
  lemma {:induction false} ClimbBelow(i: nat, levels: nat, head: nat)
    requires End(i) <= head && NodesToRoot(i, levels, head).Ok?
    ensures Inside(Uncles(i, levels), head)
    decreases levels
  {
    if levels > 0 {
      var p := Parent(i);
      SiblingSide(i);
      StartBeforeEnd(i);
      ClimbBelow(p, levels - 1, head);
      forall k | 0 < k < levels
        ensures End(Uncles(i, levels)[k]) <= head
      {
        assert Uncles(i, levels)[k] == Uncles(p, levels - 1)[k - 1];
      }
    }
  }

  /** Every node a plan names covers leaves of the tree only, provided a
      block asked for without an upgrade lies in the tree. */
  lemma PlanInside(len: nat, req: Request)
    requires ProofPlan(len, req).Ok?
    requires req.block.Some? ==> req.block.value.index < len
    ensures var p := ProofPlan(len, req).value;
      && (p.block.Some? ==> Inside(p.block.value, len))
      && (p.upgrade.Some? ==> Inside(p.upgrade.value, len))
      && Inside(p.additional, len)
  {
    var from := if req.upgrade.Some? then req.upgrade.value.start else 0;
    if req.block.Some? && (req.upgrade.None? || req.block.value.index < from) {
      PlanInsideOwn(len, req);
    } else {
      PlanInsideShared(len, req);
    }
  }

  /** `PlanInside` for a block with a proof of its own. */
  lemma PlanInsideOwn(len: nat, req: Request)
    requires ProofPlan(len, req).Ok? && req.block.Some? && req.block.value.index < len
    requires req.upgrade.None? || req.block.value.index < req.upgrade.value.start
    ensures var p := ProofPlan(len, req).value;
      && (p.block.Some? ==> Inside(p.block.value, len))
      && (p.upgrade.Some? ==> Inside(p.upgrade.value, len))
      && Inside(p.additional, len)
  {
    var from := if req.upgrade.Some? then req.upgrade.value.start else 0;
    var to := if req.upgrade.Some? then from + req.upgrade.value.length else len;
    if req.upgrade.Some? {
      UpgradeInside(from, to, len);
    }
    var b := req.block.value;
    LeafIndex(b.index);
    ClimbBelow(2 * b.index, b.nodes, to);
  }

  /** `PlanInside` for an upgrade, with or without a block inside it. */
  lemma PlanInsideShared(len: nat, req: Request)
    requires ProofPlan(len, req).Ok?
    requires req.block.Some? ==> req.upgrade.Some? && req.upgrade.value.start <= req.block.value.index
    ensures var p := ProofPlan(len, req).value;
      && (p.block.Some? ==> Inside(p.block.value, len))
      && (p.upgrade.Some? ==> Inside(p.upgrade.value, len))
      && Inside(p.additional, len)
  {
    if req.upgrade.Some? {
      var from := req.upgrade.value.start;
      var to := from + req.upgrade.value.length;
      UpgradeInside(from, to, len);
      if req.block.Some? {
        var cands := UpgradeIndices(from, to);
        if Substitute(cands, 2 * req.block.value.index).1.Some? {
          SubstitutedInside(cands, req.block.value.index, len);
        }
      }
    }
  }

  /** The upgrade nodes from `s` to `t`, and those from `t` to `len`, lie
      in a tree of `len` blocks. */
  lemma UpgradeInside(s: nat, t: nat, len: nat)
    requires s <= t <= len
    ensures Inside(UpgradeIndices(s, t), len)
    ensures t < len ==> Inside(UpgradeIndices(t, len), len)
  {
    UpgradeChain(s, t);
    ChainInside(UpgradeIndices(s, t), s, t);
    if t < len {
      UpgradeChain(t, len);
      ChainInside(UpgradeIndices(t, len), t, len);
    }
  }

  /** Taking out the upgrade node that holds leaf `b` leaves the rest
      inside the tree, and the uncles climbing to it lie inside it too. */
  lemma SubstitutedInside(cands: seq<nat>, b: nat, len: nat)
    requires Inside(cands, len) && Substitute(cands, 2 * b).1.Some?
    ensures var (rest, c) := Substitute(cands, 2 * b);
      Inside(rest, len) && Inside(Uncles(2 * b, Depth(c.value)), len)
  {
    var leaf := 2 * b;
    var (rest, c) := Substitute(cands, leaf);
    SubstitutePosition(cands, leaf);
    var j :| 0 <= j <= |rest| && cands == rest[..j] + [c.value] + rest[j..];
    assert c.value == cands[j];
    forall k | 0 <= k < |rest|
      ensures End(rest[k]) <= len
    {
      if k < j {
        assert rest[k] == cands[k];
      } else {
        assert rest[k] == cands[k + 1];
      }
    }
    LeafAncestor(c.value, b);
    UnclesUnder(leaf, Depth(c.value));
  }

  // ---------------------------------------------------------------------
  // Generating a proof

  /** A proven block: its index, its value and its uncles, bottom-up. */
  datatype BlockProof = BlockProof(index: nat, value: Block, nodes: seq<Node>)

  /** An upgrade: the range it covers, the nodes the receiver appends for
      it, the roots from its end to the sender's length, which the receiver
      appends after them, and the signature over the sender's whole tree. */
  datatype UpgradeProof = UpgradeProof(start: nat, length: nat, nodes: seq<Node>,
                                       additional: seq<Node>, signature: seq<byte>)

  datatype Proof = Proof(fork: nat, block: Option<BlockProof>, upgrade: Option<UpgradeProof>)

  /** `proof` answers `req` with the nodes `plan` names, in order, the block
      value `value` and the signature `signature`. */
  ghost predicate Laid(proof: Proof, req: Request, plan: Plan, value: Block, signature: seq<byte>)
  {
    && (proof.block.Some? <==> plan.block.Some?)
    && (proof.block.Some? ==>
          && req.block.Some?
          && proof.block.value.index == req.block.value.index
          && proof.block.value.value == value
          && Indices(proof.block.value.nodes) == plan.block.value)
    && (proof.upgrade.Some? <==> plan.upgrade.Some?)
    && (proof.upgrade.Some? ==>
          && req.upgrade.Some?
          && proof.upgrade.value.start == req.upgrade.value.start
          && proof.upgrade.value.length == req.upgrade.value.length
          && Indices(proof.upgrade.value.nodes) == plan.upgrade.value
          && Indices(proof.upgrade.value.additional) == plan.additional
          && proof.upgrade.value.signature == signature)
  }

  /** Every node `proof` carries is the honest node over `blocks`. */
  ghost predicate ProofHonest(proof: Proof, blocks: seq<Block>)
  {
    && (proof.block.Some? ==> Honest(blocks, proof.block.value.nodes))
    && (proof.upgrade.Some? ==>
          Honest(blocks, proof.upgrade.value.nodes) && Honest(blocks, proof.upgrade.value.additional))
  }

  /** Nodes fetched from an honest store are honest. */
  lemma FetchedHonest(blocks: seq<Block>, store: map<nat, Node>, rs: seq<Node>)
    requires Stored(blocks, store) && Collected(rs, [], store)
    ensures Honest(blocks, rs)
  {
  }

  /** `tree.proof(request)`: plans the proof and fetches its nodes from
      the store. The block's value is read by the caller from block storage
      and passed in, as is the signature of the whole tree. */
  method Prove(tree: MerkleTree, req: Request, value: Block, signature: seq<byte>) returns (r: Result<Proof>)
    requires tree.Valid()
    ensures ProofPlan(tree.length, req).Err? ==> r == Err(ProofPlan(tree.length, req).error)
    ensures r.Err? ==> r.error == BadArgument || r.error == MissingNode
    ensures r.Ok? ==> && ProofPlan(tree.length, req).Ok?
                      && r.value.fork == tree.fork
                      && Laid(r.value, req, ProofPlan(tree.length, req).value, value, signature)
    ensures (&& tree.Complete()
             && ProofPlan(tree.length, req).Ok?
             && (req.block.Some? ==> req.block.value.index < tree.length)) ==> r.Ok?
    ensures tree.Sound() && r.Ok? ==> ProofHonest(r.value, tree.blocks)
  {
    var plan := ProofPlan(tree.length, req);
    if plan.Err? {
      return Err(plan.error);
    }
    if tree.Complete() && (req.block.Some? ==> req.block.value.index < tree.length) {
      PlanInside(tree.length, req);
    }
    r := Assemble(tree, req, plan.value, value, signature);
  }

  /** Fetches the nodes of a plan from the store. */
  method Assemble(tree: MerkleTree, req: Request, p: Plan, value: Block, signature: seq<byte>) returns (r: Result<Proof>)
    requires tree.Valid()
    requires p.block.Some? ==> req.block.Some?
    requires p.upgrade.Some? ==> req.upgrade.Some?
    requires p.upgrade.None? ==> p.additional == []
    ensures r.Err? ==> r.error == MissingNode
    ensures r.Ok? ==> r.value.fork == tree.fork && Laid(r.value, req, p, value, signature)
    ensures (&& tree.Complete()
             && (p.block.Some? ==> Inside(p.block.value, tree.length))
             && (p.upgrade.Some? ==> Inside(p.upgrade.value, tree.length))
             && Inside(p.additional, tree.length)) ==> r.Ok?
    ensures tree.Sound() && r.Ok? ==> ProofHonest(r.value, tree.blocks)
  {
    var block: Option<BlockProof> := None;
    if p.block.Some? {
      var nodes := CollectRoots(p.block.value, [], tree.nodes);
      if nodes.Err? {
        return Err(MissingNode);
      }
      block := Some(BlockProof(req.block.value.index, value, nodes.value));
    }
    var upgrade: Option<UpgradeProof> := None;
    if p.upgrade.Some? {
      var nodes := CollectRoots(p.upgrade.value, [], tree.nodes);
      if nodes.Err? {
        return Err(MissingNode);
      }
      var additional := CollectRoots(p.additional, [], tree.nodes);
      if additional.Err? {
        return Err(MissingNode);
      }
      upgrade := Some(UpgradeProof(req.upgrade.value.start, req.upgrade.value.length,
                                   nodes.value, additional.value, signature));
    }
    r := Ok(Proof(tree.fork, block, upgrade));
  }
}
