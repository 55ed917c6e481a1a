/**
 What the allocator promises, on values: a heap is a coherent set of free blocks together with the
 live blocks (first unit to level) and the used size in bytes. Free and live blocks tile the arena.
 */
module BuddyHeap {
  import opened Shift
  import opened BuddyBlocks

  const MIN_SIZE: nat := 1024

  datatype Heap = Heap(n: nat, free: set<Block>, live: map<nat, nat>, used: nat)

  function LiveBlock(u: nat, level: nat): Block {
    Block(level, Shr(u, level))
  }

  ghost predicate LiveCovers(live: map<nat, nat>, x: nat) {
    exists u :: u in live && In(x, LiveBlock(u, live[u]))
  }

  /** Every live block is an aligned run inside the arena, and live blocks do not overlap. */
  ghost predicate LiveBlocksApart(live: map<nat, nat>, n: nat) {
    && (forall u :: u in live ==> Inside(LiveBlock(u, live[u]), n) && First(LiveBlock(u, live[u])) == u)
    && (forall x: nat, u, v ::
          u in live && v in live && In(x, LiveBlock(u, live[u])) && In(x, LiveBlock(v, live[v])) ==> u == v)
  }

  /** Each unit of the arena lies in exactly one block, free or live; no block leaves the arena. */
  ghost predicate Tiled(h: Heap) {
    && (forall x: nat :: x < h.n <==> Covers(h.free, x) || LiveCovers(h.live, x))
    && (forall x: nat :: !(Covers(h.free, x) && LiveCovers(h.live, x)))
  }

  ghost function FreeSize(h: Heap): nat {
    MIN_SIZE * |UnitsCovered(h.free, h.n)|
  }

  ghost predicate Inv(h: Heap) {
    && Coherent(h.free, h.n)
    && LiveBlocksApart(h.live, h.n)
    && Tiled(h)
    && h.used + FreeSize(h) == MIN_SIZE * h.n
  }

  ghost function Initial(n: nat): Heap {
    Heap(n, InitialFree(n), map[], 0)
  }

  // ----- steps

  /** An aligned, wholly free run of `2^k` units exists. */
  ghost predicate HasFreeRun(f: set<Block>, k: nat) {
    exists o: nat :: WhollyFree(f, Block(k, o))
  }

  /** The lowest sufficient level with a free block, and the least offset there. */
  ghost predicate FirstFit(f: set<Block>, k: nat, c: Block) {
    && c in f && c.level >= k
    && forall d :: d in f && d.level >= k ==>
         c.level < d.level || (c.level == d.level && c.offset <= d.offset)
  }

  ghost predicate Takes(f: set<Block>, b: Block, g: set<Block>) {
    forall x: nat :: Covers(g, x) <==> Covers(f, x) && !In(x, b)
  }

  ghost predicate Gives(f: set<Block>, b: Block, g: set<Block>) {
    forall x: nat :: Covers(g, x) <==> Covers(f, x) || In(x, b)
  }

  /** A request of level `k` is served at unit `u`: the front of the first fitting free block. */
  ghost predicate AllocateStep(h: Heap, k: nat, u: nat, h': Heap) {
    && (exists c :: FirstFit(h.free, k, c) && First(c) == u)
    && Coherent(h'.free, h.n)
    && Takes(h.free, LiveBlock(u, k), h'.free)
    && h' == Heap(h.n, h'.free, h.live[u := k], h.used + MIN_SIZE * Pow2(k))
  }

  /** The live block at unit `u` is given back. */
  ghost predicate FreeStep(h: Heap, u: nat, h': Heap) {
    && u in h.live
    && Coherent(h'.free, h.n)
    && Gives(h.free, LiveBlock(u, h.live[u]), h'.free)
    && h'.n == h.n
    && h'.live == h.live - {u}
    && h'.used == h.used - MIN_SIZE * Pow2(h.live[u])
  }

  // ----- the front of a block

  lemma FirstOfLeft(b: Block)
    requires b.level > 0
    ensures First(Left(b)) == First(b)
  {
    assert Pow2(b.level) == 2 * Pow2(b.level - 1);
  }

  /** The run of level `k` at the front of a block starts where the block does and lies within it. */
  lemma {:induction false} FrontRun(c: Block, k: nat)
    requires k <= c.level
    ensures First(LiveBlock(First(c), k)) == First(c)
    ensures Within(LiveBlock(First(c), k), c)
    decreases c.level - k
  {
    FirstIn(c);
    if k < c.level {
      FirstOfLeft(c);
      FrontRun(Left(c), k);
    }
    InWithin(First(c), LiveBlock(First(c), k), c);
  }

  // ----- sizes

  lemma CountTaken(f: set<Block>, g: set<Block>, b: Block, n: nat)
    requires Takes(f, b, g) && WhollyFree(f, b) && Inside(b, n)
    ensures |UnitsCovered(f, n)| == |UnitsCovered(g, n)| + Pow2(b.level)
  {
    var us, ug := Units(b, n), UnitsCovered(g, n);
    UnitCount(b, n);
    assert UnitsCovered(f, n) == ug + us;
    assert ug !! us;
  }

  lemma CountGiven(f: set<Block>, g: set<Block>, b: Block, n: nat)
    requires Gives(f, b, g) && Inside(b, n)
    requires forall x: nat :: In(x, b) ==> !Covers(f, x)
    ensures |UnitsCovered(g, n)| == |UnitsCovered(f, n)| + Pow2(b.level)
  {
    assert WhollyFree(g, b);
    assert Takes(g, b, f);
    CountTaken(g, f, b, n);
  }

  /** A free run never exceeds what the used size leaves, so the early capacity test is harmless. */
  lemma FreeRunFits(h: Heap, k: nat)
    requires Inv(h)
    requires HasFreeRun(h.free, k)
    ensures h.used + MIN_SIZE * Pow2(k) <= MIN_SIZE * h.n
  {
    var o: nat :| WhollyFree(h.free, Block(k, o));
    var b := Block(k, o);
    forall u: nat | In(u, b) ensures u < h.n {
      assert Covers(h.free, u);
    }
    InsideMeansBelow(b, h.n);
    UnitCount(b, h.n);
    assert Units(b, h.n) <= UnitsCovered(h.free, h.n);
    SubsetSize(Units(b, h.n), UnitsCovered(h.free, h.n));
  }

  lemma SubsetSize(a: set<nat>, b: set<nat>)
    requires a <= b
    ensures |a| <= |b|
  {
    assert b == a + (b - a);
  }

  // ----- the invariant holds in every run

  lemma AllCovered(f: set<Block>, n: nat)
    requires forall u: nat :: Covers(f, u) <==> u < n
    ensures |UnitsCovered(f, n)| == n
  {
    assert UnitsCovered(f, n) == Interval(0, n);
  }

  lemma InitialInv(n: nat)
    ensures Inv(Initial(n))
  {
    InitialIsCoherent(n);
    AllCovered(InitialFree(n), n);
    assert forall x: nat :: !LiveCovers(map[], x);
  }

  lemma FitIsFree(f: set<Block>, n: nat, k: nat, c: Block)
    requires Coherent(f, n)
    requires c in f && c.level >= k
    ensures WhollyFree(f, LiveBlock(First(c), k)) && Inside(LiveBlock(First(c), k), n)
    ensures First(LiveBlock(First(c), k)) == First(c)
  {
    FrontRun(c, k);
    var b := LiveBlock(First(c), k);
    WithinSubset(b, c);
    InsideMeansBelow(b, n);
    InsideMeansBelow(c, n);
  }

  lemma AllocateKeepsInv(h: Heap, k: nat, u: nat, h': Heap)
    requires Inv(h) && AllocateStep(h, k, u, h')
    ensures Inv(h') && u !in h.live
  {
    var c :| FirstFit(h.free, k, c) && First(c) == u;
    var b := LiveBlock(u, k);
    FitIsFree(h.free, h.n, k, c);
    CountTaken(h.free, h'.free, b, h.n);
    FirstIn(b);
    assert Covers(h.free, u);
    if u in h.live {
      FirstIn(LiveBlock(u, h.live[u]));
      assert LiveCovers(h.live, u);
    }
    LiveAdded(h.live, u, k);
    forall x: nat, v | In(x, b) && v in h.live && In(x, LiveBlock(v, h.live[v])) ensures false {
      assert Covers(h.free, x) && LiveCovers(h.live, x);
    }
  }

  lemma LiveAdded(live: map<nat, nat>, u: nat, k: nat)
    requires u !in live
    ensures forall x: nat :: LiveCovers(live[u := k], x) <==> LiveCovers(live, x) || In(x, LiveBlock(u, k))
  {
    var live' := live[u := k];
    forall x: nat ensures LiveCovers(live', x) <==> LiveCovers(live, x) || In(x, LiveBlock(u, k)) {
      if LiveCovers(live, x) {
        var v :| v in live && In(x, LiveBlock(v, live[v]));
        assert v in live' && live'[v] == live[v];
      }
      if In(x, LiveBlock(u, k)) {
        assert u in live' && live'[u] == k;
      }
    }
  }

  lemma FreeKeepsInv(h: Heap, u: nat, h': Heap)
    requires Inv(h) && FreeStep(h, u, h')
    ensures Inv(h')
  {
    var b := LiveBlock(u, h.live[u]);
    forall x: nat | In(x, b) ensures !Covers(h.free, x) && !LiveCovers(h'.live, x) {
      assert LiveCovers(h.live, x);
    }
    CountGiven(h.free, h'.free, b, h.n);
    assert h.live == h'.live[u := h.live[u]];
    LiveAdded(h'.live, u, h.live[u]);
  }

  /** Every run from initialisation: each step serves a request or gives back a live block. */
  ghost predicate Step(h: Heap, h': Heap) {
    (exists k: nat, u: nat :: AllocateStep(h, k, u, h')) || (exists u: nat :: FreeStep(h, u, h'))
  }

  ghost predicate Run(n: nat, trace: seq<Heap>) {
    && |trace| > 0 && trace[0] == Initial(n)
    && forall i :: 0 < i < |trace| ==> Step(trace[i - 1], trace[i])
  }

  lemma StepKeepsInv(h: Heap, h': Heap)
    requires Inv(h) && Step(h, h')
    ensures Inv(h') && h'.n == h.n
  {
    if k: nat, u: nat :| AllocateStep(h, k, u, h') {
      AllocateKeepsInv(h, k, u, h');
    } else {
      var u: nat :| FreeStep(h, u, h');
      FreeKeepsInv(h, u, h');
    }
  }

  /** In every reachable state free and live blocks tile the arena and the sizes add up. */
  lemma {:induction false} RunsKeepInv(n: nat, trace: seq<Heap>, i: nat)
    requires Run(n, trace) && i < |trace|
    ensures Inv(trace[i]) && trace[i].n == n
  {
    if i == 0 {
      InitialInv(n);
    } else {
      RunsKeepInv(n, trace, i - 1);
      StepKeepsInv(trace[i - 1], trace[i]);
    }
  }

  // ----- the live blocks determine everything else

  /** Two coherent heaps with the same live blocks are the same heap. */
  lemma LiveDeterminesHeap(h: Heap, g: Heap)
    requires Inv(h) && Inv(g)
    requires h.n == g.n && h.live == g.live
    ensures h == g
  {
    forall x: nat ensures Covers(h.free, x) <==> Covers(g.free, x) {
      assert x < h.n <==> x < g.n;
    }
    Canonical(h.free, g.free, h.n);
  }

  /** Allocating and then freeing the result restores the heap exactly. */
  lemma AllocateThenFree(h: Heap, k: nat, u: nat, h': Heap, h'': Heap)
    requires Inv(h)
    requires AllocateStep(h, k, u, h')
    requires FreeStep(h', u, h'')
    ensures h'' == h
  {
    AllocateKeepsInv(h, k, u, h');
    FreeKeepsInv(h', u, h'');
    assert h''.live == h.live;
    LiveDeterminesHeap(h'', h);
  }

  /** Freeing everything, in whatever order, returns to the heap built at initialisation. */
  lemma {:induction false} FreeingAllRestoresInitial(trace: seq<Heap>, units: seq<nat>)
    requires |trace| == |units| + 1 && Inv(trace[0])
    requires forall i :: 0 <= i < |units| ==> FreeStep(trace[i], units[i], trace[i + 1])
    requires trace[|units|].live == map[]
    ensures trace[|units|] == Initial(trace[0].n)
    decreases |units|
  {
    if units == [] {
      InitialInv(trace[0].n);
      LiveDeterminesHeap(trace[0], Initial(trace[0].n));
    } else {
      FreeKeepsInv(trace[0], units[0], trace[1]);
      FreeingAllRestoresInitial(trace[1..], units[1..]);
    }
  }

  /** The order in which two live blocks are freed does not matter. */
  lemma FreesCommute(h: Heap, u: nat, v: nat, hu: Heap, huv: Heap, hv: Heap, hvu: Heap)
    requires Inv(h)
    requires FreeStep(h, u, hu) && FreeStep(hu, v, huv)
    requires FreeStep(h, v, hv) && FreeStep(hv, u, hvu)
    ensures huv == hvu
  {
    TwoFrees(h, u, v, hu, huv);
    TwoFrees(h, v, u, hv, hvu);
    LiveDeterminesHeap(huv, hvu);
  }

  lemma TwoFrees(h: Heap, u: nat, v: nat, hu: Heap, huv: Heap)
    requires Inv(h) && FreeStep(h, u, hu) && FreeStep(hu, v, huv)
    ensures Inv(huv) && huv.n == h.n && huv.live == h.live - {u, v}
  {
    FreeKeepsInv(h, u, hu);
    FreeKeepsInv(hu, v, huv);
  }

  /** A request has at most one outcome. */
  lemma AllocateIsDeterministic(h: Heap, k: nat, u: nat, h': Heap, v: nat, h'': Heap)
    requires Inv(h)
    requires AllocateStep(h, k, u, h') && AllocateStep(h, k, v, h'')
    ensures u == v && h' == h''
  {
    var c :| FirstFit(h.free, k, c) && First(c) == u;
    var d :| FirstFit(h.free, k, d) && First(d) == v;
    assert c == d;
    AllocateKeepsInv(h, k, u, h');
    AllocateKeepsInv(h, k, v, h'');
    LiveDeterminesHeap(h', h'');
  }
}
