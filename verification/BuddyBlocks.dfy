/**
 Buddy blocks over an arena of units `0, 1, ..., n - 1`, where `n` need not be a power of two.
 A block of level `l` and offset `o` is the aligned run of the units `u` with `u >> l == o`.
 The allocator keeps a set of free blocks; this module states when such a set is coherent and
 shows that a coherent set is determined by the units it covers.
 */
module BuddyBlocks {
  import opened Shift

  datatype Block = Block(level: nat, offset: nat)

  ghost predicate In(u: nat, b: Block) {
    Shr(u, b.level) == b.offset
  }

  /** The block lies wholly within the arena; `InsideMeansBelow` says so in terms of units. */
  predicate Inside(b: Block, n: nat) {
    b.offset < Shr(n, b.level)
  }

  function First(b: Block): nat {
    b.offset * Pow2(b.level)
  }

  /** The block that `b` would merge with. */
  function Buddy(b: Block): Block {
    Block(b.level, if b.offset % 2 == 0 then b.offset + 1 else b.offset - 1)
  }

  function Parent(b: Block): Block {
    Block(b.level + 1, b.offset / 2)
  }

  function Left(b: Block): Block
    requires b.level > 0
  {
    Block(b.level - 1, 2 * b.offset)
  }

  function Right(b: Block): Block
    requires b.level > 0
  {
    Block(b.level - 1, 2 * b.offset + 1)
  }

  ghost predicate Covers(f: set<Block>, u: nat) {
    exists b :: b in f && In(u, b)
  }

  /** No unit lies in two blocks of `f`. */
  ghost predicate Disjoint(f: set<Block>) {
    forall u: nat, b, c :: b in f && c in f && In(u, b) && In(u, c) ==> b == c
  }

  /** No two buddies are both in `f`. */
  ghost predicate Coalesced(f: set<Block>) {
    forall b :: b in f ==> Buddy(b) !in f
  }

  ghost predicate Coherent(f: set<Block>, n: nat) {
    && (forall b :: b in f ==> Inside(b, n))
    && Disjoint(f)
    && Coalesced(f)
  }

  /** Every unit of `b` is covered by `f`. */
  ghost predicate WhollyFree(f: set<Block>, b: Block) {
    forall u: nat :: In(u, b) ==> Covers(f, u)
  }

  /** `b` lies within `c`. */
  ghost predicate Within(b: Block, c: Block) {
    b.level <= c.level && Shr(b.offset, c.level - b.level) == c.offset
  }

  // ----- facts about single blocks

  lemma FirstIn(b: Block)
    ensures In(First(b), b)
  {
    ShrRange(First(b), b.level, b.offset);
    assert (b.offset + 1) * Pow2(b.level) == First(b) + Pow2(b.level);
  }

  lemma InWithin(u: nat, b: Block, c: Block)
    requires In(u, b)
    requires b.level <= c.level
    ensures In(u, c) <==> Within(b, c)
  {
    ShrAdd(u, b.level, c.level - b.level);
  }

  lemma WithinSubset(b: Block, c: Block)
    requires Within(b, c)
    ensures forall u: nat :: In(u, b) ==> In(u, c)
  {
    forall u: nat | In(u, b) ensures In(u, c) {
      InWithin(u, b, c);
    }
  }

  /** A unit of a block lies in exactly one of its halves. */
  lemma InHalves(u: nat, b: Block)
    requires b.level > 0
    ensures In(u, b) <==> In(u, Left(b)) || In(u, Right(b))
    ensures !(In(u, Left(b)) && In(u, Right(b)))
  {
    ShrStep(u, b.level - 1);
  }

  /** `Inside` says that all units of the block are below `n`. */
  lemma InsideMeansBelow(b: Block, n: nat)
    ensures Inside(b, n) <==> forall u: nat :: In(u, b) ==> u < n
  {
    var p := Pow2(b.level);
    var last := (b.offset + 1) * p - 1;
    assert last >= 0 && In(last, b) by {
      assert (b.offset + 1) * p == First(b) + p;
      ShrRange(last, b.level, b.offset);
    }
    if Inside(b, n) {
      forall u: nat | In(u, b) ensures u < n {
        if n <= u {
          ShrMonotone(n, u, b.level);
        }
      }
    } else if last < n {
      var m := Shr(n, b.level);
      ShrRange(n, b.level, m);
      ShrMonotone(last, n, b.level);
      assert false;
    }
  }

  lemma InsideHalves(b: Block, n: nat)
    requires Inside(b, n)
    requires b.level > 0
    ensures Inside(Left(b), n) && Inside(Right(b), n)
  {
    ShrStep(n, b.level - 1);
  }

  lemma InsideLevel(b: Block, n: nat)
    requires Inside(b, n)
    ensures b.level < BitLength(n)
  {
    ShrPositive(n, b.level);
  }

  lemma BuddyHalves(b: Block)
    ensures Buddy(Buddy(b)) == b && Parent(Buddy(b)) == Parent(b) && Buddy(b) != b
    ensures {b, Buddy(b)} == {Left(Parent(b)), Right(Parent(b))}
  {
  }

  // ----- the canonical form

  /** A wholly free run is contained in a single free block: merging leaves no run split. */
  lemma {:induction false} FreeRunHasBlock(f: set<Block>, n: nat, b: Block) returns (c: Block)
    requires Coherent(f, n)
    requires WhollyFree(f, b)
    ensures c in f && Within(b, c)
    decreases b.level
  {
    if b.level == 0 {
      assert In(b.offset, b);
      assert Covers(f, b.offset);
      c :| c in f && In(b.offset, c);
      InWithin(b.offset, b, c);
    } else {
      forall u: nat | In(u, Left(b)) || In(u, Right(b)) ensures Covers(f, u) {
        InHalves(u, b);
      }
      assert Buddy(Left(b)) == Right(b);
      var l := FreeRunHasBlock(f, n, Left(b));
      var r := FreeRunHasBlock(f, n, Right(b));
      c := if l.level >= b.level then l else r;
      if c.level >= b.level {
        WidenWithin(b, c);
      } else {
        assert false;
      }
    }
  }

  lemma WidenWithin(b: Block, c: Block)
    requires b.level > 0
    requires Within(Left(b), c) || Within(Right(b), c)
    requires c.level >= b.level
    ensures Within(b, c)
  {
    var k := c.level - b.level;
    assert Shr(2 * b.offset, k + 1) == Shr(b.offset, k);
    assert Shr(2 * b.offset + 1, k + 1) == Shr(b.offset, k);
  }

  /** Coherent free sets covering the same units have the same blocks. */
  lemma Canonical(f: set<Block>, g: set<Block>, n: nat)
    requires Coherent(f, n) && Coherent(g, n)
    requires forall u: nat :: Covers(f, u) <==> Covers(g, u)
    ensures f == g
  {
    forall b | b in f ensures b in g {
      SameUnitsSameBlock(f, g, n, b);
    }
    forall b | b in g ensures b in f {
      SameUnitsSameBlock(g, f, n, b);
    }
  }

  lemma SameUnitsSameBlock(f: set<Block>, g: set<Block>, n: nat, b: Block)
    requires Coherent(f, n) && Coherent(g, n)
    requires forall u: nat :: Covers(f, u) <==> Covers(g, u)
    requires b in f
    ensures b in g
  {
    var c := FreeRunHasBlock(g, n, b);
    var d := FreeRunHasBlock(f, n, c);
    var u := First(b);
    FirstIn(b);
    InWithin(u, b, c);
    InWithin(u, c, d);
    assert d == b;
    assert c.level == b.level;
  }

  /** The free blocks are exactly the wholly free runs whose parent is not wholly free. */
  lemma FreeBlocksAreMaximalRuns(f: set<Block>, n: nat, b: Block)
    requires Coherent(f, n)
    ensures b in f <==> WhollyFree(f, b) && !WhollyFree(f, Parent(b))
  {
    var u := First(b);
    FirstIn(b);
    assert Within(b, Parent(b)) by {
      assert Shr(b.offset, 1) == Shr(b.offset / 2, 0);
    }
    InWithin(u, b, Parent(b));
    if b in f && WhollyFree(f, Parent(b)) {
      var c := FreeRunHasBlock(f, n, Parent(b));
      InWithin(u, Parent(b), c);
      assert false;
    }
    if WhollyFree(f, b) && b !in f {
      var c := FreeRunHasBlock(f, n, b);
      assert c.level > b.level;
      WithinSubset(b, c);
      assert Within(Parent(b), c) by {
        InWithin(u, b, c);
        InWithin(u, Parent(b), c);
      }
      WithinSubset(Parent(b), c);
      assert WhollyFree(f, Parent(b));
    }
  }

  /** A free run of `2^k` aligned units exists exactly if some free block has level at least `k`. */
  lemma FreeRunIffBlock(f: set<Block>, n: nat, k: nat)
    requires Coherent(f, n)
    ensures (exists o: nat :: WhollyFree(f, Block(k, o))) <==> (exists b :: b in f && b.level >= k)
  {
    if o: nat :| WhollyFree(f, Block(k, o)) {
      var c := FreeRunHasBlock(f, n, Block(k, o));
      assert c in f && c.level >= k;
    }
    if b :| b in f && b.level >= k {
      var u := First(b);
      FirstIn(b);
      var r := Block(k, Shr(u, k));
      InWithin(u, r, b);
      WithinSubset(r, b);
      assert WhollyFree(f, r);
    }
  }

  // ----- taking a block out and putting one back

  /** Taking a block out of the free set removes exactly its units. */
  lemma RemoveBlock(f: set<Block>, n: nat, b: Block)
    requires Coherent(f, n)
    requires b in f
    ensures Coherent(f - {b}, n)
    ensures forall u: nat :: Covers(f - {b}, u) <==> Covers(f, u) && !In(u, b)
  {
    var g := f - {b};
    forall u: nat ensures Covers(g, u) <==> Covers(f, u) && !In(u, b) {
      if Covers(f, u) && !In(u, b) {
        var c :| c in f && In(u, c);
        assert c in g;
      }
    }
  }

  /** A block none of whose units is covered, and whose buddy is absent, may be added. */
  lemma AddBlock(f: set<Block>, n: nat, b: Block)
    requires Coherent(f, n)
    requires Inside(b, n)
    requires Buddy(b) !in f
    requires forall u: nat :: In(u, b) ==> !Covers(f, u)
    ensures Coherent(f + {b}, n)
    ensures forall u: nat :: Covers(f + {b}, u) <==> Covers(f, u) || In(u, b)
  {
    var g := f + {b};
    BuddyHalves(b);
    forall c | c in g ensures Buddy(c) !in g {
      BuddyHalves(c);
    }
    forall u: nat ensures Covers(g, u) <==> Covers(f, u) || In(u, b) {
      if Covers(f, u) {
        var c :| c in f && In(u, c);
        assert c in g;
      } else if In(u, b) {
        assert b in g;
      }
    }
    forall u: nat, c, d | c in g && d in g && In(u, c) && In(u, d) ensures c == d {
      if In(u, b) {
        assert !Covers(f, u);
      }
    }
  }

  // ----- the initial free set

  /** The free set of an arena with nothing allocated: the last block of every odd-count level. */
  ghost function InitialFree(n: nat): set<Block> {
    set l: nat | l < BitLength(n) && Shr(n, l) % 2 == 1 :: Block(l, Shr(n, l) - 1)
  }

  lemma {:induction false} BelowStaysAbove(u: nat, n: nat, l: nat, m: nat)
    requires l <= m
    requires Shr(u, l) >= Shr(n, l)
    ensures Shr(u, m) >= Shr(n, m)
  {
    ShrAdd(u, l, m - l);
    ShrAdd(n, l, m - l);
    ShrMonotone(Shr(n, l), Shr(u, l), m - l);
  }

  lemma InitialLevelUnique(n: nat, u: nat, b: Block, c: Block)
    requires b in InitialFree(n) && c in InitialFree(n)
    requires In(u, b) && In(u, c)
    ensures b == c
  {
    if b.level < c.level {
      InitialLevelOrder(n, u, b, c);
    } else if c.level < b.level {
      InitialLevelOrder(n, u, c, b);
    }
  }

  lemma InitialLevelOrder(n: nat, u: nat, b: Block, c: Block)
    requires b in InitialFree(n) && c in InitialFree(n)
    requires In(u, b) && In(u, c)
    ensures b.level >= c.level
  {
    if b.level < c.level {
      ShrStep(u, b.level);
      ShrStep(n, b.level);
      BelowStaysAbove(u, n, b.level + 1, c.level);
    }
  }

  lemma {:induction false} InitialCoversFrom(n: nat, u: nat, l: nat)
    requires Shr(u, l) < Shr(n, l)
    ensures Covers(InitialFree(n), u)
    decreases Shr(n, l)
  {
    ShrStep(u, l);
    ShrStep(n, l);
    if Shr(u, l + 1) < Shr(n, l + 1) {
      InitialCoversFrom(n, u, l + 1);
    } else {
      ShrPositive(n, l);
      var b := Block(l, Shr(n, l) - 1);
      assert b in InitialFree(n) && In(u, b);
    }
  }

  /** The initial free set is coherent and covers exactly the arena. */
  lemma InitialIsCoherent(n: nat)
    ensures Coherent(InitialFree(n), n)
    ensures forall u: nat :: Covers(InitialFree(n), u) <==> u < n
  {
    var f := InitialFree(n);
    forall b | b in f ensures Inside(b, n) && Buddy(b) !in f {
      ShrPositive(n, b.level);
    }
    forall u: nat, b, c | b in f && c in f && In(u, b) && In(u, c) ensures b == c {
      InitialLevelUnique(n, u, b, c);
    }
    forall u: nat ensures Covers(f, u) <==> u < n {
      if u < n {
        InitialCoversFrom(n, u, 0);
      } else if Covers(f, u) {
        var b :| b in f && In(u, b);
        BelowStaysAbove(u, n, 0, b.level);
      }
    }
  }

  // ----- counting units

  ghost function UnitsCovered(f: set<Block>, n: nat): set<nat> {
    set u: nat | u < n && Covers(f, u)
  }

  ghost function Units(b: Block, n: nat): set<nat> {
    set u: nat | u < n && In(u, b)
  }

  ghost function Interval(lo: nat, hi: nat): (s: set<nat>)
    requires lo <= hi
    ensures forall u :: u in s <==> lo <= u < hi
    ensures |s| == hi - lo
    decreases hi - lo
  {
    if lo == hi then {} else {lo} + Interval(lo + 1, hi)
  }

  /** A block of level `l` has `2^l` units. */
  lemma UnitCount(b: Block, n: nat)
    requires Inside(b, n)
    ensures |Units(b, n)| == Pow2(b.level)
  {
    var lo := First(b);
    var hi := lo + Pow2(b.level);
    assert (b.offset + 1) * Pow2(b.level) == hi;
    forall u: nat ensures In(u, b) <==> lo <= u < hi {
      ShrRange(u, b.level, b.offset);
    }
    InsideMeansBelow(b, n);
    assert In(hi - 1, b);
    assert Units(b, n) == Interval(lo, hi);
  }
}
