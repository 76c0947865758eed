/** Flat-tree addressing: every node of the implicit binary tree over the
    log's leaves has one integer index. Leaf `i` sits at `2 * i`; a node at
    depth `d` and offset `o` sits at `(2 * o + 1) * 2^d - 1`.

    Everything here is defined by recursion on `Up(i) == 2 * i + 1`: the
    node `Up(i)` is the node `i` of the tree whose leaves are the PAIRS of
    leaves. An odd index `i` is `Up(i / 2)`, so each definition reduces an
    odd index to `i / 2`, and each proof is an induction with linear
    arithmetic only. */
module FlatTree {

  function Up(i: nat): nat { 2 * i + 1 }

  /** Number of trailing one-bits of the index: leaves have depth 0. */
  function Depth(i: nat): nat
  {
    if i % 2 == 0 then 0 else 1 + Depth(i / 2)
  }

  /** Position of the node among the nodes of its depth. */
  function Offset(i: nat): nat
  {
    if i % 2 == 0 then i / 2 else Offset(i / 2)
  }

  /** The index of the node at `depth` and `offset`. */
  function Index(depth: nat, offset: nat): nat
  {
    if depth == 0 then 2 * offset else Up(Index(depth - 1, offset))
  }

  /** First leaf (sequence number) under the node. */
  function Start(i: nat): nat
  {
    if i % 2 == 0 then i / 2 else 2 * Start(i / 2)
  }

  /** One past the last leaf under the node. */
  function End(i: nat): nat
  {
    if i % 2 == 0 then i / 2 + 1 else 2 * End(i / 2)
  }

  function Parent(i: nat): nat
  {
    if i % 2 == 0 then (if (i / 2) % 2 == 0 then i + 1 else i - 1)
    else Up(Parent(i / 2))
  }

  function Sibling(i: nat): nat
  {
    if i % 2 == 0 then (if (i / 2) % 2 == 0 then i + 2 else i - 2)
    else Up(Sibling(i / 2))
  }

  function LeftChild(i: nat): nat
    requires i % 2 == 1
  {
    if (i / 2) % 2 == 0 then i - 1 else Up(LeftChild(i / 2))
  }

  function RightChild(i: nat): nat
    requires i % 2 == 1
  {
    if (i / 2) % 2 == 0 then i + 1 else Up(RightChild(i / 2))
  }

  /** `fullRoots(2 * length)`: the roots of the perfect subtrees whose
      leaves partition `[0, length)`, left to right. A length `2m` has the
      roots of `m` lifted one level; an odd length adds its last leaf. */
  function FullRoots(length: nat): seq<nat>
  {
    if length == 0 then []
    else Ups(FullRoots(length / 2)) + (if length % 2 == 1 then [2 * (length - 1)] else [])
  }

  function Ups(s: seq<nat>): (r: seq<nat>)
    ensures |r| == |s| && forall k :: 0 <= k < |s| ==> r[k] == Up(s[k])
  {
    seq(|s|, k requires 0 <= k < |s| => Up(s[k]))
  }

  /** `rs` lists nodes whose leaf spans tile `[0, to)` from left to right. */
  ghost predicate Tiles(rs: seq<nat>, to: nat)
    decreases |rs|
  {
    if rs == [] then to == 0
    else End(rs[|rs| - 1]) == to && Tiles(rs[..|rs| - 1], Start(rs[|rs| - 1]))
  }

  /** The appending rule of the tree: after pushing a node, the last two
      roots are merged into their parent while the one before the last is
      the sibling of the last. */
  function Fold(rs: seq<nat>): seq<nat>
    decreases |rs|
  {
    if |rs| >= 2 && rs[|rs| - 2] == Sibling(rs[|rs| - 1])
    then Fold(rs[..|rs| - 2] + [Parent(rs[|rs| - 1])])
    else rs
  }

  /** The parents those merges create, bottom-up. */
  function Merged(rs: seq<nat>): seq<nat>
    decreases |rs|
  {
    if |rs| >= 2 && rs[|rs| - 2] == Sibling(rs[|rs| - 1])
    then [Parent(rs[|rs| - 1])] + Merged(rs[..|rs| - 2] + [Parent(rs[|rs| - 1])])
    else []
  }

  /** The siblings met walking `levels` steps up from node `i`, bottom-up:
      the nodes a block proof carries. */
  function Uncles(i: nat, levels: nat): (r: seq<nat>)
    ensures |r| == levels
    decreases levels
  {
    if levels == 0 then [] else [Sibling(i)] + Uncles(Parent(i), levels - 1)
  }

  /** The ancestor `levels` steps above `i`. */
  function Ancestor(i: nat, levels: nat): nat
    decreases levels
  {
    if levels == 0 then i else Ancestor(Parent(i), levels - 1)
  }

  // ---------------------------------------------------------------------
  // Addressing

  lemma {:induction false} IndexRoundTrip(depth: nat, offset: nat)
    ensures Depth(Index(depth, offset)) == depth
    ensures Offset(Index(depth, offset)) == offset
  {
    if depth > 0 {
      IndexRoundTrip(depth - 1, offset);
    }
  }

  lemma {:induction false} IndexOfDepthOffset(i: nat)
    ensures Index(Depth(i), Offset(i)) == i
  {
    if i % 2 == 1 {
      IndexOfDepthOffset(i / 2);
    }
  }

  /** The addressing is a bijection between flat indices and (depth, offset). */
  lemma IndexBijective(d1: nat, o1: nat, d2: nat, o2: nat)
    ensures Index(d1, o1) == Index(d2, o2) <==> d1 == d2 && o1 == o2
  {
    IndexRoundTrip(d1, o1);
    IndexRoundTrip(d2, o2);
  }

  function Pow2(n: nat): (r: nat)
    ensures r >= 1
  {
    if n == 0 then 1 else 2 * Pow2(n - 1)
  }

  /** A node at depth `d` covers `2^d` leaves, starting at `offset * 2^d`. */
  lemma {:induction false} Span(i: nat)
    ensures End(i) == Start(i) + Pow2(Depth(i))
    ensures Start(i) == Offset(i) * Pow2(Depth(i))
  {
    if i % 2 == 1 {
      var j := i / 2;
      Span(j);
      var o, q := Offset(j), Pow2(Depth(j));
      assert Pow2(Depth(i)) == 2 * q;
      assert Start(i) == 2 * (o * q) == o * (2 * q);
    }
  }

  /** Halving and parity of a number and its successor. */
  lemma Parity(n: nat)
    ensures n == 2 * (n / 2) + n % 2 && (n % 2 == 0 || n % 2 == 1)
    ensures n % 2 == 1 ==> (n + 1) % 2 == 0 && (n + 1) / 2 == n / 2 + 1
    ensures n % 2 == 0 ==> (n + 1) % 2 == 1 && (n + 1) / 2 == n / 2
  {
  }

  lemma UpFacts(x: nat)
    ensures Up(x) % 2 == 1 && Up(x) / 2 == x
    ensures Depth(Up(x)) == Depth(x) + 1
    ensures Start(Up(x)) == 2 * Start(x) && End(Up(x)) == 2 * End(x)
    ensures Sibling(Up(x)) == Up(Sibling(x)) && Parent(Up(x)) == Up(Parent(x))
  {
    assert Up(x) % 2 == 1 && Up(x) / 2 == x;
  }

  lemma {:induction false} ParentIsOdd(i: nat)
    ensures Parent(i) % 2 == 1
  {
    var j := i / 2;
    if i % 2 == 1 {
      assert i == Up(j);
      UpFacts(j);
      UpFacts(Parent(j));
    } else if j % 2 == 0 {
      assert i == 2 * j;
      LeftLeaf(j);
    } else {
      assert i == 2 * j;
      RightLeaf(j);
    }
  }

  lemma {:induction false} StartBeforeEnd(i: nat)
    ensures Start(i) < End(i)
  {
    if i % 2 == 1 {
      StartBeforeEnd(i / 2);
    }
  }

  /** The children of an odd node: one level down, splitting its span. */
  lemma {:induction false} Children(p: nat)
    requires p % 2 == 1
    ensures Depth(LeftChild(p)) + 1 == Depth(p) && Depth(RightChild(p)) + 1 == Depth(p)
    ensures Start(LeftChild(p)) == Start(p) && End(RightChild(p)) == End(p)
    ensures End(LeftChild(p)) == Start(RightChild(p))
    ensures Parent(LeftChild(p)) == p && Parent(RightChild(p)) == p
    ensures Sibling(LeftChild(p)) == RightChild(p) && Sibling(RightChild(p)) == LeftChild(p)
    ensures LeftChild(p) < p < RightChild(p)
    decreases p, 1
  {
    if (p / 2) % 2 == 1 {
      ChildrenLifted(p);
    } else {
      ChildrenBase(p);
    }
  }

  /** A node just above the leaves has the leaves beside it as children. */
  lemma ChildrenBase(p: nat)
    requires p % 2 == 1 && (p / 2) % 2 == 0
    ensures Depth(LeftChild(p)) + 1 == Depth(p) && Depth(RightChild(p)) + 1 == Depth(p)
    ensures Start(LeftChild(p)) == Start(p) && End(RightChild(p)) == End(p)
    ensures End(LeftChild(p)) == Start(RightChild(p))
    ensures Parent(LeftChild(p)) == p && Parent(RightChild(p)) == p
    ensures Sibling(LeftChild(p)) == RightChild(p) && Sibling(RightChild(p)) == LeftChild(p)
    ensures LeftChild(p) < p < RightChild(p)
  {
    var q := p / 2;
    var r := q / 2;
    assert q == 2 * r && p == 4 * r + 1;
    assert Start(q) == r && End(q) == r + 1 && Depth(q) == 0;
    assert LeftChild(p) == 4 * r && RightChild(p) == 4 * r + 2;
    assert (4 * r) / 2 == 2 * r && (4 * r + 2) / 2 == 2 * r + 1;
    assert Depth(p) == 1 && Start(p) == 2 * r && End(p) == 2 * r + 2;
  }

  lemma {:induction false} ChildrenLifted(p: nat)
    requires p % 2 == 1 && (p / 2) % 2 == 1
    ensures Depth(LeftChild(p)) + 1 == Depth(p) && Depth(RightChild(p)) + 1 == Depth(p)
    ensures Start(LeftChild(p)) == Start(p) && End(RightChild(p)) == End(p)
    ensures End(LeftChild(p)) == Start(RightChild(p))
    ensures Parent(LeftChild(p)) == p && Parent(RightChild(p)) == p
    ensures Sibling(LeftChild(p)) == RightChild(p) && Sibling(RightChild(p)) == LeftChild(p)
    ensures LeftChild(p) < p < RightChild(p)
    decreases p, 0
  {
    var q := p / 2;
    assert p == Up(q);
    Children(q);
    UpFacts(q);
    UpFacts(LeftChild(q));
    UpFacts(RightChild(q));
  }

  /** A node is one of the two children of its parent, its sibling the other. */
  lemma {:induction false} ParentChildren(i: nat)
    ensures Parent(i) % 2 == 1
    ensures (LeftChild(Parent(i)) == i && RightChild(Parent(i)) == Sibling(i))
         || (RightChild(Parent(i)) == i && LeftChild(Parent(i)) == Sibling(i))
    decreases i, 1
  {
    if i % 2 == 1 {
      ParentChildrenOdd(i);
    } else {
      ParentChildrenLeaf(i);
    }
  }

  lemma ParentChildrenLeaf(i: nat)
    requires i % 2 == 0
    ensures Parent(i) % 2 == 1
    ensures (LeftChild(Parent(i)) == i && RightChild(Parent(i)) == Sibling(i))
         || (RightChild(Parent(i)) == i && LeftChild(Parent(i)) == Sibling(i))
  {
    var k := i / 2;
    assert i == 2 * k;
    if k % 2 == 0 {
      LeftLeaf(k);
    } else {
      RightLeaf(k);
    }
  }

  /** Leaf `2k`, for an even `k`, is the left child of `2k + 1`, next to `2k + 2`. */
  lemma LeftLeaf(k: nat)
    requires k % 2 == 0
    ensures Parent(2 * k) == 2 * k + 1 && Sibling(2 * k) == 2 * k + 2
    ensures LeftChild(2 * k + 1) == 2 * k && RightChild(2 * k + 1) == 2 * k + 2
  {
    assert (2 * k) % 2 == 0 && (2 * k) / 2 == k;
    assert (2 * k + 1) % 2 == 1 && (2 * k + 1) / 2 == k;
  }

  /** Leaf `2k`, for an odd `k`, is the right child of `2k - 1`, next to `2k - 2`. */
  lemma RightLeaf(k: nat)
    requires k % 2 == 1
    ensures Parent(2 * k) == 2 * k - 1 && Sibling(2 * k) == 2 * k - 2
    ensures LeftChild(2 * k - 1) == 2 * k - 2 && RightChild(2 * k - 1) == 2 * k
  {
    assert (2 * k) % 2 == 0 && (2 * k) / 2 == k;
    assert (2 * k - 1) % 2 == 1 && (2 * k - 1) / 2 == k - 1 && (k - 1) % 2 == 0;
  }

  lemma {:induction false} ParentChildrenOdd(i: nat)
    requires i % 2 == 1
    ensures Parent(i) % 2 == 1
    ensures (LeftChild(Parent(i)) == i && RightChild(Parent(i)) == Sibling(i))
         || (RightChild(Parent(i)) == i && LeftChild(Parent(i)) == Sibling(i))
    decreases i, 0
  {
    var j := i / 2;
    assert i == Up(j);
    ParentChildren(j);
    ParentIsOdd(i);
    UpFacts(j);
    var p := Parent(j);
    UpFacts(p);
    UpFacts(Sibling(j));
    assert Up(p) / 2 == p && p % 2 == 1;
    assert LeftChild(Up(p)) == Up(LeftChild(p));
    assert RightChild(Up(p)) == Up(RightChild(p));
  }

  /** A parent covers its child. */
  lemma {:induction false} ParentCovers(i: nat)
    ensures Start(Parent(i)) <= Start(i) && End(i) <= End(Parent(i))
    decreases i, 1
  {
    if i % 2 == 1 {
      ParentCoversOdd(i);
    } else {
      assert i == 2 * (i / 2);
      ParentCoversLeaf(i / 2);
    }
  }

  lemma {:induction false} ParentCoversOdd(i: nat)
    requires i % 2 == 1
    ensures Start(Parent(i)) <= Start(i) && End(i) <= End(Parent(i))
    decreases i, 0
  {
    var j := i / 2;
    assert i == Up(j);
    ParentCovers(j);
    ParentCoversUp(j);
  }

  /** Lifting a level keeps a parent covering its child. */
  lemma ParentCoversUp(j: nat)
    requires Start(Parent(j)) <= Start(j) && End(j) <= End(Parent(j))
    ensures Start(Parent(Up(j))) <= Start(Up(j)) && End(Up(j)) <= End(Parent(Up(j)))
  {
    UpFacts(j);
    UpFacts(Parent(j));
  }

  /** The parent of leaf `k` covers it. */
  lemma ParentCoversLeaf(k: nat)
    ensures Start(Parent(2 * k)) <= k && k + 1 <= End(Parent(2 * k))
  {
    var j := k / 2;
    LeafParent(k, j);
    PairSpan(j);
  }

  /** The parent of leaf `k` is the node over the pair `2j, 2j + 1` holding it. */
  lemma LeafParent(k: nat, j: nat)
    requires j == k / 2
    ensures Parent(2 * k) == 4 * j + 1 && 2 * j <= k <= 2 * j + 1
  {
    var i := 2 * k;
    assert i % 2 == 0 && i / 2 == k;
    if k % 2 == 0 {
      assert k == 2 * j;
      assert Parent(i) == i + 1;
    } else {
      assert k == 2 * j + 1;
      assert Parent(i) == i - 1;
    }
  }

  /** The node over the pair of leaves `2j, 2j + 1`. */
  lemma PairSpan(j: nat)
    ensures Start(4 * j + 1) == 2 * j && End(4 * j + 1) == 2 * j + 2
  {
    assert (4 * j + 1) % 2 == 1 && (4 * j + 1) / 2 == 2 * j;
    assert (2 * j) % 2 == 0 && (2 * j) / 2 == j;
  }

  /** A sibling that ends where `x` starts is the left child of their parent. */
  lemma {:induction false} LeftSibling(x: nat, y: nat)
    requires y == Sibling(x) && End(y) == Start(x)
    ensures Parent(x) % 2 == 1
    ensures LeftChild(Parent(x)) == y && RightChild(Parent(x)) == x
  {
    if x % 2 == 1 {
      ParentIsOdd(x);
      var j := x / 2;
      UpFacts(j);
      UpFacts(Sibling(j));
      assert x == Up(j);
      LeftSibling(j, Sibling(j));
      var p := Parent(j);
      UpFacts(p);
      assert LeftChild(Up(p)) == Up(LeftChild(p));
      assert RightChild(Up(p)) == Up(RightChild(p));
    } else {
      var k := x / 2;
      assert x == 2 * k;
      if k % 2 == 0 {
        LeftLeaf(k);
        assert false;
      } else {
        RightLeaf(k);
      }
    }
  }

  lemma {:induction false} SiblingDepth(i: nat)
    ensures Depth(Sibling(i)) == Depth(i)
  {
    if i % 2 == 1 {
      var j := i / 2;
      assert i == Up(j);
      UpFacts(j);
      SiblingDepth(j);
      UpFacts(Sibling(j));
    } else {
      var k := i / 2;
      assert i == 2 * k;
      if k % 2 == 0 {
        LeftLeaf(k);
      } else {
        RightLeaf(k);
      }
    }
  }

  lemma {:induction false} ParentDepth(i: nat)
    ensures Depth(Parent(i)) == Depth(i) + 1
  {
    if i % 2 == 1 {
      ParentDepth(i / 2);
      UpFacts(Parent(i / 2));
    }
  }

  /** The ancestor `levels` up sits `levels` deeper and covers the node. */
  lemma {:induction false} AncestorCovers(i: nat, levels: nat)
    ensures Depth(Ancestor(i, levels)) == Depth(i) + levels
    ensures Start(Ancestor(i, levels)) <= Start(i) && End(i) <= End(Ancestor(i, levels))
    decreases levels
  {
    if levels > 0 {
      ParentDepth(i);
      ParentCovers(i);
      AncestorCovers(Parent(i), levels - 1);
    }
  }

  /** Two nodes of equal depth that share a leaf are the same node. */
  lemma {:induction false} SameDepthOverlap(a: nat, b: nat)
    requires Depth(a) == Depth(b)
    requires Start(a) < End(b) && Start(b) < End(a)
    ensures a == b
  {
    if a % 2 == 1 {
      SameDepthOverlap(a / 2, b / 2);
    }
  }

  // ---------------------------------------------------------------------
  // Roots

  lemma UpsSlice(s: seq<nat>, k: nat)
    requires k <= |s|
    ensures Ups(s)[..k] == Ups(s[..k])
  {
  }

  lemma UpsConcat(a: seq<nat>, b: seq<nat>)
    ensures Ups(a + b) == Ups(a) + Ups(b)
  {
  }

  /** Lifting a tiling of `[0, to)` gives a tiling of `[0, 2 * to)`. */
  lemma {:induction false} TilesUps(rs: seq<nat>, to: nat)
    requires Tiles(rs, to)
    ensures Tiles(Ups(rs), 2 * to)
    decreases |rs|
  {
    if rs != [] {
      var n := |rs|;
      var x := rs[n - 1];
      TilesUps(rs[..n - 1], Start(x));
      UpsSlice(rs, n - 1);
      UpFacts(x);
      var us := Ups(rs);
      assert us[n - 1] == Up(x);
      assert us[..n - 1] == Ups(rs[..n - 1]);
    }
  }

  lemma {:induction false} FullRootsNonEmpty(length: nat)
    ensures length > 0 <==> |FullRoots(length)| > 0
  {
    if length > 1 {
      FullRootsNonEmpty(length / 2);
    }
  }

  /** The roots of a length tile `[0, length)`. */
  lemma {:induction false} FullRootsTile(length: nat)
    ensures Tiles(FullRoots(length), length)
  {
    if length > 0 {
      var m := length / 2;
      FullRootsTile(m);
      TilesUps(FullRoots(m), m);
      if length % 2 == 1 {
        FullRootsTileOdd(length);
      } else {
        var h := Ups(FullRoots(m));
        assert length == 2 * m;
        assert FullRoots(length) == h + [];
        assert h + [] == h;
      }
    }
  }

  /** An odd length adds its last leaf after the lifted roots of half. */
  lemma FullRootsTileOdd(length: nat)
    requires length % 2 == 1 && Tiles(Ups(FullRoots(length / 2)), 2 * (length / 2))
    ensures Tiles(FullRoots(length), length)
  {
    var h := Ups(FullRoots(length / 2));
    var rs := FullRoots(length);
    assert rs == h + [2 * (length - 1)];
    assert rs[..|rs| - 1] == h;
    assert Start(2 * (length - 1)) == 2 * (length / 2);
  }

  /** The last node of a tiling ends at its end; the one before ends
      where the last starts. */
  lemma TilesLast(rs: seq<nat>, to: nat)
    requires Tiles(rs, to) && |rs| >= 1
    ensures End(rs[|rs| - 1]) == to
    ensures |rs| >= 2 ==> End(rs[|rs| - 2]) == Start(rs[|rs| - 1])
  {
    if |rs| >= 2 {
      assert rs[..|rs| - 1][|rs| - 2] == rs[|rs| - 2];
    }
  }

  /** Every node of a tiling lies inside it. */
  lemma {:induction false} TilesBound(rs: seq<nat>, to: nat, k: nat)
    requires Tiles(rs, to) && k < |rs|
    ensures End(rs[k]) <= to
    decreases |rs|
  {
    var n := |rs|;
    if k < n - 1 {
      TilesBound(rs[..n - 1], Start(rs[n - 1]), k);
      StartBeforeEnd(rs[n - 1]);
    }
  }

  lemma FullRootsBound(length: nat)
    ensures forall k :: 0 <= k < |FullRoots(length)| ==> End(FullRoots(length)[k]) <= length
  {
    FullRootsTile(length);
    forall k | 0 <= k < |FullRoots(length)|
      ensures End(FullRoots(length)[k]) <= length
    {
      TilesBound(FullRoots(length), length, k);
    }
  }

  /** Different lengths have different roots: the roots' spans end at the length. */
  lemma FullRootsInjective(a: nat, b: nat)
    requires FullRoots(a) == FullRoots(b)
    ensures a == b
  {
    FullRootsTile(a);
    FullRootsTile(b);
  }

  /** Merging commutes with lifting a level. */
  lemma {:induction false} FoldUps(rs: seq<nat>)
    ensures Fold(Ups(rs)) == Ups(Fold(rs))
    decreases |rs|
  {
    var n := |rs|;
    if n >= 2 {
      UpsLast(rs);
      if rs[n - 2] == Sibling(rs[n - 1]) {
        FoldUps(rs[..n - 2] + [Parent(rs[n - 1])]);
      }
    }
  }

  lemma {:induction false} MergedUps(rs: seq<nat>)
    ensures Merged(Ups(rs)) == Ups(Merged(rs))
    decreases |rs|
  {
    var n := |rs|;
    if n >= 2 {
      UpsLast(rs);
      if rs[n - 2] == Sibling(rs[n - 1]) {
        var next := rs[..n - 2] + [Parent(rs[n - 1])];
        MergedUps(next);
        UpsConcat([Parent(rs[n - 1])], Merged(next));
      }
    }
  }

  /** The last two nodes of a lifted list are siblings exactly when the
      last two nodes of the list are, and merging them lifts the merge. */
  lemma UpsLast(rs: seq<nat>)
    requires |rs| >= 2
    ensures var n, us := |rs|, Ups(rs);
      && (us[n - 2] == Sibling(us[n - 1]) <==> rs[n - 2] == Sibling(rs[n - 1]))
      && Parent(us[n - 1]) == Up(Parent(rs[n - 1]))
      && us[..n - 2] + [Parent(us[n - 1])] == Ups(rs[..n - 2] + [Parent(rs[n - 1])])
  {
    var n, us := |rs|, Ups(rs);
    UpFacts(rs[n - 1]);
    UpFacts(rs[n - 2]);
    UpFacts(Sibling(rs[n - 1]));
    UpsSlice(rs, n - 2);
    UpsConcat(rs[..n - 2], [Parent(rs[n - 1])]);
  }

  /** The leaf case of `FoldAligned`, by halving the length. */
  lemma {:induction false} FoldLeaf(n: nat)
    ensures Fold(FullRoots(n) + [2 * n]) == FullRoots(n + 1)
    decreases n
  {
    var rs := FullRoots(n) + [2 * n];
    if n == 0 {
      assert rs == [0];
    } else if n % 2 == 0 {
      FoldLeafEven(n);
    } else {
      FoldLeafOdd(n);
    }
  }

  /** For a positive even length the new leaf is a left child and merges
      with nothing. */
  lemma FoldLeafEven(n: nat)
    requires n > 0 && n % 2 == 0
    ensures Fold(FullRoots(n) + [2 * n]) == FullRoots(n + 1)
  {
    var m := n / 2;
    assert n == 2 * m && (n + 1) / 2 == m && (n + 1) % 2 == 1;
    var h := FullRoots(m);
    FullRootsNonEmpty(m);
    var rs := FullRoots(n) + [2 * n];
    assert FullRoots(n) == Ups(h) + [];
    assert rs == Ups(h) + [2 * n];
    UpFacts(h[|h| - 1]);
    assert rs[|rs| - 2] == Up(h[|h| - 1]);
    assert (2 * n) / 2 == n && (2 * n) % 2 == 0;
    assert Sibling(2 * n) == 2 * n + 2;
    assert Fold(rs) == rs;
    assert FullRoots(n + 1) == Ups(h) + [2 * n];
  }

  lemma {:induction false} FoldLeafOdd(n: nat)
    requires n % 2 == 1
    ensures Fold(FullRoots(n) + [2 * n]) == FullRoots(n + 1)
    decreases n, 0
  {
    FoldLeaf(n / 2);
    FoldLifted(n);
    OddRoots(n);
  }

  /** Lifting a fold that ends with the leaf `2m`, for `m` the half of odd
      `n`: the lifted roots, then the leaves `4m` and `4m + 2`, fold to the
      lifted result. */
  lemma FoldLifted(n: nat)
    requires n % 2 == 1 && Fold(FullRoots(n / 2) + [2 * (n / 2)]) == FullRoots(n / 2 + 1)
    ensures Fold(Ups(FullRoots(n / 2)) + [4 * (n / 2), 4 * (n / 2) + 2]) == Ups(FullRoots(n / 2 + 1))
  {
    var m := n / 2;
    var h := FullRoots(m);
    LeafPair(m);
    FoldPair(Ups(h), 4 * m, 4 * m + 2);
    UpsConcat(h, [2 * m]);
    assert Ups([2 * m]) == [Up(2 * m)];
    FoldUps(h + [2 * m]);
  }

  /** An odd length has the roots of its half lifted, then its last leaf;
      the length after it has the roots of the half after that, lifted. */
  lemma OddRoots(n: nat)
    requires n % 2 == 1
    ensures FullRoots(n) + [2 * n] == Ups(FullRoots(n / 2)) + [4 * (n / 2), 4 * (n / 2) + 2]
    ensures FullRoots(n + 1) == Ups(FullRoots(n / 2 + 1))
  {
    Parity(n);
    OddRootsLast(n);
    EvenRoots(n + 1);
  }

  lemma OddRootsLast(n: nat)
    requires n % 2 == 1
    ensures FullRoots(n) + [2 * n] == Ups(FullRoots(n / 2)) + [4 * (n / 2), 4 * (n / 2) + 2]
  {
    var m := n / 2;
    assert n == 2 * m + 1;
    assert FullRoots(n) == Ups(FullRoots(m)) + [4 * m];
  }

  lemma EvenRoots(n: nat)
    requires n > 0 && n % 2 == 0
    ensures FullRoots(n) == Ups(FullRoots(n / 2))
  {
    assert FullRoots(n) == Ups(FullRoots(n / 2)) + [];
  }

  /** The leaves `2m` and `2m + 1`, for even `2m`, are siblings under `Up(2m)`. */
  lemma LeafPair(m: nat)
    ensures Sibling(4 * m + 2) == 4 * m && Parent(4 * m + 2) == Up(2 * m)
  {
  }

  /** Folding merges a trailing pair of siblings. */
  lemma FoldPair(us: seq<nat>, a: nat, b: nat)
    requires a == Sibling(b)
    ensures Fold(us + [a, b]) == Fold(us + [Parent(b)])
  {
    var rs := us + [a, b];
    assert rs[..|rs| - 2] == us;
  }

  /** A trailing pair of siblings merges into their parent first. */
  lemma MergedPair(us: seq<nat>, a: nat, b: nat)
    requires a == Sibling(b)
    ensures Merged(us + [a, b]) == [Parent(b)] + Merged(us + [Parent(b)])
  {
    var rs := us + [a, b];
    assert rs[..|rs| - 2] == us;
  }

  lemma FullRootsDouble(k: nat)
    ensures FullRoots(2 * k) == Ups(FullRoots(k))
  {
    if k > 0 {
      assert (2 * k) / 2 == k && (2 * k) % 2 == 0;
      assert FullRoots(2 * k) == Ups(FullRoots(k)) + [];
    }
  }

  /** Pushing the node that starts where the roots end and folding gives
      the roots of the longer length: the append rule keeps the roots
      equal to `fullRoots`. */
  lemma {:induction false} FoldAligned(x: nat)
    ensures Fold(FullRoots(Start(x)) + [x]) == FullRoots(End(x))
    decreases x
  {
    if x % 2 == 1 {
      var y := x / 2;
      UpFacts(y);
      assert x == Up(y);
      FoldAligned(y);
      var low := FullRoots(Start(y)) + [y];
      FullRootsDouble(Start(y));
      UpsConcat(FullRoots(Start(y)), [y]);
      assert Ups([y]) == [x];
      assert FullRoots(Start(x)) + [x] == Ups(low);
      FoldUps(low);
      assert Fold(Ups(low)) == Ups(FullRoots(End(y)));
      FullRootsDouble(End(y));
    } else {
      var n := x / 2;
      assert x == 2 * n && Start(x) == n && End(x) == n + 1;
      FoldLeaf(n);
    }
  }

  /** For an odd length the new leaf merges with the last one, and the
      rest of the merges are those of the half length, lifted. */
  lemma {:induction false} MergedLeafOdd(n: nat)
    requires n % 2 == 1
    ensures Merged(FullRoots(n) + [2 * n]) == [Up(2 * (n / 2))] + Ups(Merged(FullRoots(n / 2) + [2 * (n / 2)]))
  {
    var m := n / 2;
    var h := FullRoots(m);
    OddRootsLast(n);
    LeafPair(m);
    MergedPair(Ups(h), 4 * m, 4 * m + 2);
    UpsConcat(h, [2 * m]);
    assert Ups([2 * m]) == [Up(2 * m)];
    MergedUps(h + [2 * m]);
  }

  /** Appending leaf `n` creates every node whose span ends at `n + 1`:
      the leaf itself and the parents the merges create. */
  lemma {:induction false} EndingNodes(n: nat, i: nat)
    requires End(i) == n + 1
    ensures i == 2 * n || i in Merged(FullRoots(n) + [2 * n])
    decreases i
  {
    if i % 2 == 1 {
      var j := i / 2;
      UpFacts(j);
      assert i == Up(j);
      var m := n / 2;
      assert n % 2 == 1 && End(j) == m + 1;
      EndingNodes(m, j);
      MergedLeafOdd(n);
      var low := Merged(FullRoots(m) + [2 * m]);
      if j != 2 * m {
        var k :| 0 <= k < |low| && low[k] == j;
        assert Ups(low)[k] == i;
      }
    }
  }

  // ---------------------------------------------------------------------
  // Walking down from a root

  /** A node's index is the sum of the bounds of its leaf span, less one:
      its flat range is `[2 * Start(i), 2 * End(i) - 2]`. */
  lemma {:induction false} IndexSpan(i: nat)
    ensures i + 1 == Start(i) + End(i)
  {
    if i % 2 == 1 {
      IndexSpan(i / 2);
    }
  }

  /** An odd node sits just right of its left child's last leaf. */
  lemma {:induction false} Middle(p: nat)
    requires p % 2 == 1
    ensures p + 1 == 2 * End(LeftChild(p))
  {
    var q := p / 2;
    if q % 2 == 1 {
      Middle(q);
      var l := LeftChild(q);
      UpFacts(l);
      assert LeftChild(p) == Up(l);
      assert End(Up(l)) == 2 * End(l);
    } else {
      assert LeftChild(p) == p - 1;
      assert End(p - 1) == (p - 1) / 2 + 1;
    }
  }

  /** Below an odd node, the leaf `2 * s` lies left of the node exactly when
      the leaf is under the left child. */
  lemma LeafSide(p: nat, s: nat)
    requires p % 2 == 1
    ensures 2 * s < p <==> s < End(LeftChild(p))
  {
    Middle(p);
  }

  /** The leaf of block `s` is the node `2 * s`. */
  lemma LeafIndex(s: nat)
    ensures (2 * s) % 2 == 0 && Start(2 * s) == s && End(2 * s) == s + 1 && Depth(2 * s) == 0
  {
  }

  /** An even node spanning leaf `s` is that leaf. */
  lemma LeafSpan(i: nat, s: nat)
    requires Start(i) <= s < End(i) && i % 2 == 0
    ensures i == 2 * s
  {
  }

  /** Every prefix of a tiling tiles up to where the next node starts. */
  lemma {:induction false} TilesPrefix(rs: seq<nat>, to: nat, k: nat)
    requires Tiles(rs, to) && k < |rs|
    ensures Tiles(rs[..k], Start(rs[k]))
    ensures Tiles(rs[..k + 1], End(rs[k]))
    decreases |rs|
  {
    var n := |rs|;
    assert rs[..n] == rs;
    if k < n - 1 {
      TilesPrefix(rs[..n - 1], Start(rs[n - 1]), k);
      assert rs[..n - 1][..k] == rs[..k];
      assert rs[..n - 1][..k + 1] == rs[..k + 1];
    } else {
      TilesLast(rs, to);
      assert rs[..k + 1][..k] == rs[..k];
    }
  }

  /** A tiling covers one span only. */
  lemma TilesUnique(rs: seq<nat>, a: nat, b: nat)
    requires Tiles(rs, a) && Tiles(rs, b)
    ensures a == b
  {
  }

  /** A node's flat index lies between the flat indices of its first and
      last leaves: `flat.contains` is containment of leaf spans. */
  lemma IndexInSpan(j: nat)
    ensures 2 * Start(j) <= j <= 2 * End(j) - 2
  {
    IndexSpan(j);
    StartBeforeEnd(j);
  }

  /** A node and its sibling split their parent's span: the sibling lies
      either right after the node or right before it. */
  lemma SiblingSide(i: nat)
    ensures var p, s := Parent(i), Sibling(i);
      || (Start(i) == Start(p) && End(i) == Start(s) && End(s) == End(p))
      || (Start(s) == Start(p) && End(s) == Start(i) && End(i) == End(p))
  {
    ParentChildren(i);
    Children(Parent(i));
  }

  /** The ancestor of a leaf at the depth of a node covering it is that node. */
  lemma LeafAncestor(r: nat, b: nat)
    requires Start(r) <= b < End(r)
    ensures Ancestor(2 * b, Depth(r)) == r
  {
    LeafIndex(b);
    AncestorCovers(2 * b, Depth(r));
    SameDepthOverlap(Ancestor(2 * b, Depth(r)), r);
  }
}
