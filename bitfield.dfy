/** The sparse bitfield that records which blocks a core holds
    (test/browser/bitfield.spec.ts).

    Bits are grouped in pages of 32768 bits, each page 1024 words of 32
    bits. A page is allocated only when one of its bits is first set to
    true, `set` flips the bit in its page in place and marks the page
    dirty, `flush` writes the dirty pages to storage, and `open` loads
    every stored page back. */
module Bitfield {

  const PAGE_BITS: nat := 32768
  const WORDS: nat := 1024

  type Page = p: seq<bv32> | |p| == WORDS witness seq(WORDS, _ => 0)

  function Mask(b: bv5): bv32
  {
    1 << b
  }

  predicate Test(w: bv32, b: bv5)
  {
    w & Mask(b) != 0
  }

  /** One bit of a word set or cleared; the other 31 are kept. */
  function SetWord(w: bv32, b: bv5, value: bool): (r: bv32)
    ensures Test(r, b) == value
  {
    if value then w | Mask(b) else w & !Mask(b)
  }

  /** Setting or clearing bit `b` of a word keeps every other bit. */
  lemma SetWordKeeps(w: bv32, b: bv5, value: bool, c: bv5)
    requires c != b
    ensures Test(SetWord(w, b, value), c) == Test(w, c)
  {
    if value {
      SetKeeps(w, b, c);
    } else {
      ClearKeeps(w, b, c);
    }
  }

  lemma SetKeeps(w: bv32, b: bv5, c: bv5)
    requires c != b
    ensures Test(w | Mask(b), c) == Test(w, c)
  {
  }

  lemma ClearKeeps(w: bv32, b: bv5, c: bv5)
    requires c != b
    ensures Test(w & !Mask(b), c) == Test(w, c)
  {
  }

  /** The page, the word inside it and the bit inside that word of an index. */
  function PageOf(index: nat): nat
  {
    index / PAGE_BITS
  }

  function WordOf(index: nat): (w: nat)
    ensures w < WORDS
  {
    index % PAGE_BITS / 32
  }

  function BitOf(index: nat): bv5
  {
    (index % 32) as bv5
  }

  /** Two indices never share a bit: the page, word and bit of an index
      determine it. */
  lemma Located(i: nat, k: nat)
    requires PageOf(i) == PageOf(k) && WordOf(i) == WordOf(k) && BitOf(i) == BitOf(k)
    ensures i == k
  {
    var ri, rk := i % PAGE_BITS, k % PAGE_BITS;
    assert ri % 32 == i % 32 && rk % 32 == k % 32 by {
      ModNested(i);
      ModNested(k);
    }
    assert i % 32 == k % 32 by {
      BitInjective(i % 32, k % 32);
    }
    assert ri == rk by {
      Recompose(ri, 32);
      Recompose(rk, 32);
    }
    Recompose(i, PAGE_BITS);
    Recompose(k, PAGE_BITS);
  }

  lemma ModNested(i: nat)
    ensures i % PAGE_BITS % 32 == i % 32
  {
    var q := i / PAGE_BITS;
    assert i == q * PAGE_BITS + i % PAGE_BITS;
    assert q * PAGE_BITS == (q * 1024) * 32;
  }

  lemma BitInjective(a: nat, b: nat)
    requires a < 32 && b < 32 && a as bv5 == b as bv5
    ensures a == b
  {
  }

  lemma Recompose(n: nat, d: nat)
    requires d > 0
    ensures n == n / d * d + n % d
  {
  }

  /** Reads bit `index` out of a set of pages; a missing page reads as all zero. */
  function Read(pages: map<nat, Page>, index: nat): bool
  {
    PageOf(index) in pages && Test(pages[PageOf(index)][WordOf(index)], BitOf(index))
  }

  /** The pages after bit `index` is set to `value`: that bit reads `value`,
      every other bit reads as before, and a page is allocated only to set a
      bit true in it. */
  function Write(pages: map<nat, Page>, index: nat, value: bool): (r: map<nat, Page>)
    ensures Read(r, index) == value
    ensures forall k: nat :: k != index ==> Read(r, k) == Read(pages, k)
    ensures r.Keys == if value then pages.Keys + {PageOf(index)} else pages.Keys
  {
    var p := PageOf(index);
    if p !in pages && !value then
      pages
    else
      var page: Page := if p in pages then pages[p] else Blank();
      var w := WordOf(index);
      var r := pages[p := page[w := SetWord(page[w], BitOf(index), value)]];
      assert forall k: nat :: k != index ==> Read(r, k) == Read(pages, k) by {
        forall k: nat | k != index
          ensures Read(r, k) == Read(pages, k)
        {
          if PageOf(k) == p && WordOf(k) == w {
            if BitOf(k) == BitOf(index) {
              Located(k, index);
            } else {
              SetWordKeeps(page[w], BitOf(index), value, BitOf(k));
            }
          }
        }
      }
      r
  }

  /** Setting a bit in a page allocated all-zero just before is the same as
      setting it in a page that is allocated on demand. */
  lemma WriteBlank(pages: map<nat, Page>, index: nat)
    requires PageOf(index) !in pages
    ensures Write(pages[PageOf(index) := Blank()], index, true) == Write(pages, index, true)
  {
  }

  /** The pages reached from `pages` by applying `ops` (index, value) in order. */
  function Replay(pages: map<nat, Page>, ops: seq<(nat, bool)>): map<nat, Page>
    decreases |ops|
  {
    if ops == [] then pages
    else Replay(Write(pages, ops[0].0, ops[0].1), ops[1..])
  }

  /** The value the last operation on `k` gave it, if any. */
  function Latest(ops: seq<(nat, bool)>, k: nat, otherwise: bool): bool
    decreases |ops|
  {
    if ops == [] then otherwise
    else if ops[|ops| - 1].0 == k then ops[|ops| - 1].1
    else Latest(ops[..|ops| - 1], k, otherwise)
  }

  /** A reference model of the bitfield: after any run of `set`s, a bit
      reads as the last value given to it, and as before when it was never
      touched. */
  lemma {:induction false} ReplayLatest(pages: map<nat, Page>, ops: seq<(nat, bool)>, k: nat)
    ensures Read(Replay(pages, ops), k) == Latest(ops, k, Read(pages, k))
    decreases |ops|
  {
    if ops != [] {
      var first := Write(pages, ops[0].0, ops[0].1);
      ReplayLatest(first, ops[1..], k);
      LatestCons(ops, k, Read(pages, k), Read(first, k));
    }
  }

  lemma {:induction false} LatestCons(ops: seq<(nat, bool)>, k: nat, before: bool, after: bool)
    requires ops != []
    requires after == if ops[0].0 == k then ops[0].1 else before
    ensures Latest(ops[1..], k, after) == Latest(ops, k, before)
    decreases |ops|
  {
    if |ops| > 1 && ops[|ops| - 1].0 != k {
      var init := ops[..|ops| - 1];
      assert init[1..] == ops[1..][..|ops[1..]| - 1];
      assert init[0] == ops[0];
      LatestCons(init, k, before, after);
    }
  }

  /** The bits set true by a run of `set(i, true)`, starting from an empty
      bitfield, are exactly the indices given. */
  lemma SetTrueMembers(idx: seq<nat>, k: nat)
    ensures Read(Replay(map[], Ones(idx)), k) <==> k in idx
  {
    ReplayLatest(map[], Ones(idx), k);
    LatestOnes(idx, k);
  }

  function Ones(idx: seq<nat>): (ops: seq<(nat, bool)>)
    ensures |ops| == |idx|
    ensures forall j :: 0 <= j < |idx| ==> ops[j] == (idx[j], true)
  {
    seq(|idx|, j requires 0 <= j < |idx| => (idx[j], true))
  }

  lemma {:induction false} LatestOnes(idx: seq<nat>, k: nat)
    ensures Latest(Ones(idx), k, false) <==> k in idx
    decreases |idx|
  {
    if idx != [] {
      var init := idx[..|idx| - 1];
      assert Ones(idx)[..|idx| - 1] == Ones(init);
      LatestOnes(init, k);
      assert idx == init + [idx[|idx| - 1]];
    }
  }

  /** An all-zero page. */
  function Blank(): Page
  {
    seq(WORDS, _ => 0)
  }

  /** Allocates an all-zero page in memory. */
  method BlankPage() returns (a: array<bv32>)
    ensures fresh(a) && a.Length == WORDS && a[..] == Blank()
  {
    a := new bv32[WORDS](_ => 0);
    assert a[..] == Blank();
  }

  /** The bitfield, its pages allocated in memory and its backing storage. */
  class Bitfield {
    var pages: map<nat, array<bv32>>
    var dirty: set<nat>
    /** The random-access storage: page `p` lives at byte 4096 * p. */
    var storage: map<nat, Page>

    ghost predicate Valid()
      reads this, pages.Values
    {
      && (forall p :: p in pages ==> pages[p].Length == WORDS)
      && (forall p, q :: p in pages && q in pages && p != q ==> pages[p] != pages[q])
      && dirty <= pages.Keys
      && storage.Keys <= pages.Keys
      && (forall p :: p in pages && p !in dirty ==> p in storage && storage[p] == pages[p][..])
    }

    /** The bits held in memory, as pages. */
    function Snapshot(): (r: map<nat, Page>)
      reads this, pages.Values
      requires Valid()
      ensures r.Keys == pages.Keys
    {
      map p | p in pages :: pages[p][..]
    }

    /** `get`: whether bit `index` is set. */
    function Get(index: nat): bool
      reads this, pages.Values
      requires Valid()
    {
      Read(Snapshot(), index)
    }

    /** `Bitfield.open`: loads every page the storage holds. */
    constructor Open(stored: map<nat, Page>)
      ensures Valid() && dirty == {} && storage == stored
      ensures Snapshot() == stored
      ensures forall p :: p in pages ==> fresh(pages[p])
    {
      storage := map[];
      dirty := {};
      pages := map[];
      new;
      var todo := stored.Keys;
      while todo != {}
        invariant todo <= stored.Keys && storage == map[] && dirty == {}
        invariant pages.Keys == stored.Keys - todo
        invariant forall p :: p in pages ==> fresh(pages[p]) && pages[p].Length == WORDS && pages[p][..] == stored[p]
        invariant forall p, q :: p in pages && q in pages && p != q ==> pages[p] != pages[q]
        decreases todo
      {
        var p :| p in todo;
        var page := stored[p];
        var a := new bv32[WORDS](i requires 0 <= i < WORDS => page[i]);
        assert a[..] == stored[p];
        pages := pages[p := a];
        todo := todo - {p};
      }
      storage := stored;
    }

    /** `set`: sets bit `index` to `value` in its page, in place. */
    method Set(index: nat, value: bool)
      requires Valid()
      modifies this, pages.Values
      ensures Valid() && storage == old(storage)
      ensures Snapshot() == Write(old(Snapshot()), index, value)
      ensures forall p :: p in old(pages) ==> p in pages && pages[p] == old(pages)[p]
      ensures forall p :: p in pages && p !in old(pages) ==> fresh(pages[p])
    {
      var p := PageOf(index);
      if p !in pages {
        if !value {
          return;
        }
        ghost var before := Snapshot();
        Allocate(p);
        WriteBlank(before, index);
      }
      Flip(index, value);
    }

    /** Adds an all-zero page `p`, dirty until it is flushed. */
    method Allocate(p: nat)
      requires Valid() && p !in pages
      modifies this`pages, this`dirty
      ensures p in pages && fresh(pages[p]) && Valid()
      ensures pages == old(pages)[p := pages[p]] && dirty == old(dirty) + {p}
      ensures Snapshot() == old(Snapshot())[p := Blank()]
    {
      ghost var before := Snapshot();
      var blank := BlankPage();
      pages := pages[p := blank];
      dirty := dirty + {p};
      assert Snapshot() == before[p := Blank()];
    }

    /** Flips the bit of `index` in its page, which is resident. */
    method Flip(index: nat, value: bool)
      requires Valid() && PageOf(index) in pages
      modifies this`dirty, pages[PageOf(index)]
      ensures Valid() && pages == old(pages) && dirty == old(dirty) + {PageOf(index)}
      ensures Snapshot() == Write(old(Snapshot()), index, value)
    {
      ghost var before := Snapshot();
      var p, w := PageOf(index), WordOf(index);
      var page := pages[p];
      assert forall q :: q in pages && q != p ==> pages[q] != page;
      page[w] := SetWord(page[w], BitOf(index), value);
      dirty := dirty + {p};
      assert page[..] == before[p][w := SetWord(before[p][w], BitOf(index), value)];
      assert Snapshot() == before[p := page[..]];
    }

    /** `flush`: writes every dirty page to storage. Afterwards the storage
        holds exactly the bits in memory. */
    method Flush()
      requires Valid()
      modifies this`storage, this`dirty
      ensures Valid() && dirty == {}
      ensures storage == Snapshot()
    {
      var todo := dirty;
      while todo != {}
        invariant todo <= dirty <= pages.Keys
        invariant storage.Keys <= pages.Keys
        invariant forall p :: p in pages && p !in todo ==> p in storage && storage[p] == pages[p][..]
        decreases todo
      {
        var p :| p in todo;
        storage := storage[p := pages[p][..]];
        todo := todo - {p};
      }
      dirty := {};
    }
  }

  // ---------------------------------------------------------------------
  // The walks of test/browser/bitfield.spec.ts

  /** bitfield.spec.ts:5-21: on a fresh bitfield bit 42 reads false, then
      true once set; so does bit 42000000, which reads false again once
      cleared. */
  method SetAndGet() returns (before: bool, after: bool, farBefore: bool, farAfter: bool, farCleared: bool)
    ensures !before && after && !farBefore && farAfter && !farCleared
  {
    var b := new Bitfield.Open(map[]);
    before := b.Get(42);
    b.Set(42, true);
    after := b.Get(42);
    farBefore := b.Get(42000000);
    b.Set(42000000, true);
    farAfter := b.Get(42000000);
    b.Set(42000000, false);
    farCleared := b.Get(42000000);
    b.Flush();
  }

  /** bitfield.spec.ts:46-63: bits set and flushed by one bitfield read
      true in a bitfield opened afterwards on the same storage. */
  method Reload() returns (a: bool, b: bool, c: bool)
    ensures a && b && c
  {
    var stored := SetAndFlush();
    var second := new Bitfield.Open(stored);
    a := second.Get(142);
    b := second.Get(40000);
    c := second.Get(1424242424);
  }

  /** The first half of the reload walk: three bits set on a fresh
      bitfield, then flushed; the storage holds them. */
  method SetAndFlush() returns (stored: map<nat, Page>)
    ensures Read(stored, 142) && Read(stored, 40000) && Read(stored, 1424242424)
  {
    var first := new Bitfield.Open(map[]);
    first.Set(142, true);
    ghost var s1 := first.Snapshot();
    first.Set(40000, true);
    ghost var s2 := first.Snapshot();
    first.Set(1424242424, true);
    ghost var s3 := first.Snapshot();
    assert s3 == Write(s2, 1424242424, true) && s2 == Write(s1, 40000, true);
    assert Read(s1, 142) && Read(s2, 40000);
    first.Flush();
    stored := first.storage;
  }
}
