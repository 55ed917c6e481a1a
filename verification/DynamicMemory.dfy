/**
 The buddy allocator of the kernel's dynamic memory: per-level bitmaps laid end to end in the
 metadata region, a count of set bits per level, and one byte per unit with the level of the live
 block that starts there (0xff when none does).
 */
module DynamicMemory {
  import opened Words
  import opened Shift
  import opened Bytes
  import opened BuddyBlocks
  import opened BuddyHeap

  const NO_BLOCK: nat := 0xff
  const BITMAP_HEADER: nat := 16
  const MAX_RAM_SIZE: nat := 3 * 1024 * 1024 * 1024

  /** The last level whose block size the source's 32-bit shift computes correctly. */
  const WIDEST: nat := 20

  // ----- layout of the metadata

  /** Bytes of a bitmap of `count` bits. */
  function BitmapBytes(count: nat): nat {
    (count + 7) / 8
  }

  /** Bytes of the bitmaps of the levels below `l`, for `n` smallest blocks. */
  function BitmapBase(n: nat, l: nat): nat {
    if l == 0 then 0 else BitmapBytes(n) + BitmapBase(n / 2, l - 1)
  }

  /** Bytes of the headers and bitmaps of all levels. */
  function LevelBytes(n: nat): nat {
    if n == 0 then 0 else BITMAP_HEADER + BitmapBytes(n) + LevelBytes(n / 2)
  }

  /** Smallest blocks set aside for metadata out of `total`. */
  function MetaBlocks(total: nat): nat {
    (total + LevelBytes(total) + MIN_SIZE - 1) / MIN_SIZE
  }

  /** As many bytes as the bits need, and no more. */
  lemma BitmapBytesLeast(count: nat)
    ensures 8 * (BitmapBytes(count) - 1) < count <= 8 * BitmapBytes(count)
  {
  }

  lemma {:induction false} BaseStep(n: nat, l: nat)
    ensures BitmapBase(n, l + 1) == BitmapBase(n, l) + BitmapBytes(Shr(n, l))
  {
    if l > 0 {
      BaseStep(n / 2, l - 1);
    }
  }

  lemma {:induction false} BaseMonotone(n: nat, l: nat, m: nat)
    requires l < m
    ensures BitmapBase(n, l) + BitmapBytes(Shr(n, l)) <= BitmapBase(n, m)
    decreases m - l
  {
    BaseStep(n, m - 1);
    if l < m - 1 {
      BaseMonotone(n, l, m - 1);
    }
  }

  lemma {:induction false} LevelBytesSplit(n: nat)
    ensures LevelBytes(n) == BITMAP_HEADER * BitLength(n) + BitmapBase(n, BitLength(n))
  {
    if n > 0 {
      LevelBytesSplit(n / 2);
    }
  }

  lemma {:induction false} LevelBytesMonotone(n: nat, m: nat)
    requires n <= m
    ensures LevelBytes(n) <= LevelBytes(m)
  {
    if n > 0 {
      LevelBytesMonotone(n / 2, m / 2);
    }
  }

  lemma {:induction false} LevelBytesBound(n: nat)
    ensures LevelBytes(n) <= 18 * n
  {
    if n > 1 {
      LevelBytesBound(n / 2);
    }
  }

  /** The least number of blocks that holds the level array, the headers and the bitmaps of `total` blocks. */
  lemma MetaBlocksLeast(total: nat)
    ensures 1024 * (MetaBlocks(total) - 1) < total + LevelBytes(total) <= 1024 * MetaBlocks(total)
  {
  }

  /**
   The level array, the headers and the bitmaps laid out for the reduced block count end within the
   blocks set aside for them, and the estimate fits its 32-bit accumulator.
   */
  lemma MetadataFits(total: nat)
    requires total <= MAX_RAM_SIZE / MIN_SIZE
    ensures MetaBlocks(total) <= total
    ensures var n := total - MetaBlocks(total);
            n + BITMAP_HEADER * BitLength(n) + BitmapBase(n, BitLength(n)) <= MIN_SIZE * MetaBlocks(total)
    ensures total + LevelBytes(total) + MIN_SIZE - 1 < DWORD
  {
    LevelBytesBound(total);
    MetaBlocksLeast(total);
    var n := total - MetaBlocks(total);
    LevelBytesMonotone(n, total);
    LevelBytesSplit(n);
  }

  lemma {:induction false} BitLengthBound(n: nat, k: nat)
    requires n < Pow2(k)
    ensures BitLength(n) <= k
  {
    if n > 0 {
      BitLengthBound(n / 2, k - 1);
    }
  }

  /** There are at most 22 levels, so they fit in the byte that records them. */
  lemma SmallLevels(n: nat)
    requires n <= MAX_RAM_SIZE / MIN_SIZE
    ensures BitLength(n) <= WIDEST + 2 < NO_BLOCK
  {
    assert Pow2(8) == 256 && Pow2(16) == 256 * Pow2(8) && Pow2(22) == 64 * Pow2(16);
    BitLengthBound(n, 22);
  }

  // ----- counting the free blocks of a level

  ghost function AtLevel(f: set<Block>, l: nat): set<Block> {
    set b | b in f && b.level == l
  }

  lemma AtLevelAdd(f: set<Block>, b: Block, l: nat)
    ensures AtLevel(f + {b}, l) == if b.level == l then AtLevel(f, l) + {b} else AtLevel(f, l)
  {
  }

  lemma AtLevelRemove(f: set<Block>, b: Block, l: nat)
    ensures AtLevel(f - {b}, l) == if b.level == l then AtLevel(f, l) - {b} else AtLevel(f, l)
  {
  }

  // ----- bits of the bitmap area

  /** Bit `o` of level `l` belongs to the level's bytes; the bits past the block count are padding. */
  ghost predicate HasBit(n: nat, l: nat, o: nat) {
    l < BitLength(n) && o / 8 < BitmapBytes(Shr(n, l))
  }

  /** The byte that holds bit `o` of level `l`. */
  function ByteAt(n: nat, l: nat, o: nat): nat {
    BitmapBase(n, l) + o / 8
  }

  ghost predicate BitSet(bytes: seq<byte>, n: nat, l: nat, o: nat) {
    ByteAt(n, l, o) < |bytes| && Bit(bytes[ByteAt(n, l, o)], o % 8)
  }

  /** Every bit of every level's bytes, padding included, is set exactly if its block is in `f`. */
  ghost predicate BitsMatch(bytes: seq<byte>, n: nat, f: set<Block>) {
    forall l: nat, o: nat :: HasBit(n, l, o) ==> (BitSet(bytes, n, l, o) <==> Block(l, o) in f)
  }

  ghost predicate CountsMatch(counts: seq<nat>, f: set<Block>) {
    forall l :: 0 <= l < |counts| ==> counts[l] == |AtLevel(f, l)|
  }

  lemma ByteInside(n: nat, l: nat, o: nat)
    requires HasBit(n, l, o)
    ensures ByteAt(n, l, o) < BitmapBase(n, BitLength(n))
  {
    BaseMonotone(n, l, BitLength(n));
  }

  /** Two bits share a byte only within one level. */
  lemma BytesApart(n: nat, l: nat, o: nat, m: nat, p: nat)
    requires HasBit(n, l, o) && HasBit(n, m, p)
    requires ByteAt(n, l, o) == ByteAt(n, m, p)
    ensures l == m && o / 8 == p / 8
  {
    if l < m {
      BaseMonotone(n, l, m);
    } else if m < l {
      BaseMonotone(n, m, l);
    }
  }

  lemma SameByteBits(o: nat, p: nat)
    requires o / 8 == p / 8
    ensures o == p <==> o % 8 == p % 8
  {
  }

  function WithBit(b: byte, k: nat, exist: bool): byte
    requires k < 8
  {
    if exist then b | Mask(k) else b & !Mask(k)
  }

  function WithBlock(f: set<Block>, b: Block, exist: bool): set<Block> {
    if exist then f + {b} else f - {b}
  }

  /** Changing one bit of the area changes the membership of its block, and of no other. */
  lemma ChangeBit(bytes: seq<byte>, n: nat, f: set<Block>, l: nat, o: nat, exist: bool, bytes': seq<byte>)
    requires BitsMatch(bytes, n, f) && HasBit(n, l, o)
    requires BitmapBase(n, BitLength(n)) <= |bytes| && ByteAt(n, l, o) < |bytes|
    requires bytes' == bytes[ByteAt(n, l, o) := WithBit(bytes[ByteAt(n, l, o)], o % 8, exist)]
    ensures BitsMatch(bytes', n, WithBlock(f, Block(l, o), exist))
  {
    var at := ByteAt(n, l, o);
    forall m: nat, p: nat | HasBit(n, m, p)
      ensures BitSet(bytes', n, m, p) <==> Block(m, p) in WithBlock(f, Block(l, o), exist)
    {
      assert BitSet(bytes, n, m, p) <==> Block(m, p) in f;
      if ByteAt(n, m, p) == at {
        BytesApart(n, l, o, m, p);
        SetBit(bytes[at], o % 8, p % 8);
        ClearBit(bytes[at], o % 8, p % 8);
        SameByteBits(o, p);
      }
    }
  }

  lemma ChangeCount(counts: seq<nat>, f: set<Block>, b: Block, exist: bool, counts': seq<nat>)
    requires CountsMatch(counts, f) && b.level < |counts| == |counts'|
    requires forall m :: 0 <= m < |counts| && m != b.level ==> counts'[m] == counts[m]
    requires var change: int := if exist && b !in f then 1 else if !exist && b in f then -1 else 0;
             counts'[b.level] as int == counts[b.level] as int + change
    ensures CountsMatch(counts', WithBlock(f, b, exist))
  {
    forall m | 0 <= m < |counts'| ensures counts'[m] == |AtLevel(WithBlock(f, b, exist), m)| {
      AtLevelAdd(f, b, m);
      AtLevelRemove(f, b, m);
      assert b in f <==> b in AtLevel(f, b.level);
    }
  }

  /** The level whose bitmap holds a byte of the area. */
  lemma {:induction false} LevelOfByte(n: nat, at: nat) returns (l: nat)
    requires at < BitmapBase(n, BitLength(n))
    ensures l < BitLength(n) && BitmapBase(n, l) <= at < BitmapBase(n, l) + BitmapBytes(Shr(n, l))
  {
    if at < BitmapBytes(n) {
      l := 0;
    } else {
      var m := LevelOfByte(n / 2, at - BitmapBytes(n));
      l := m + 1;
    }
  }

  /** The free set determines every byte of the bitmaps and every count. */
  lemma FreeSetDeterminesBitmaps(n: nat, f: set<Block>, bytes: seq<byte>, bytes': seq<byte>,
                                 counts: seq<nat>, counts': seq<nat>)
    requires BitsMatch(bytes, n, f) && BitsMatch(bytes', n, f)
    requires BitmapBase(n, BitLength(n)) <= |bytes| && BitmapBase(n, BitLength(n)) <= |bytes'|
    requires CountsMatch(counts, f) && CountsMatch(counts', f) && |counts| == |counts'|
    ensures bytes[..BitmapBase(n, BitLength(n))] == bytes'[..BitmapBase(n, BitLength(n))]
    ensures counts == counts'
  {
    forall at | 0 <= at < BitmapBase(n, BitLength(n)) ensures bytes[at] == bytes'[at] {
      var l := LevelOfByte(n, at);
      forall k | 0 <= k < 8 ensures Bit(bytes[at], k) <==> Bit(bytes'[at], k) {
        var o := 8 * (at - BitmapBase(n, l)) + k;
        assert HasBit(n, l, o) && ByteAt(n, l, o) == at && o % 8 == k;
        assert BitSet(bytes, n, l, o) <==> BitSet(bytes', n, l, o);
      }
      SameBits(bytes[at], bytes'[at]);
    }
  }

  // ----- the allocator's data as a whole

  /** The bitmaps of all levels, the counts, the level array and the used size. */
  datatype Snapshot = Snapshot(bitmaps: seq<byte>, counts: seq<nat>, levels: seq<nat>, used: nat)

  ghost function LiveIn(levels: seq<nat>): map<nat, nat> {
    map u: nat | u < |levels| && levels[u] != NO_BLOCK :: levels[u]
  }

  ghost predicate Shows(s: Snapshot, h: Heap) {
    && |s.bitmaps| == BitmapBase(h.n, BitLength(h.n)) && BitsMatch(s.bitmaps, h.n, h.free)
    && |s.counts| == BitLength(h.n) && CountsMatch(s.counts, h.free)
    && |s.levels| == h.n && LiveIn(s.levels) == h.live
    && s.used == h.used
  }

  lemma SameLevels(a: seq<nat>, b: seq<nat>)
    requires |a| == |b| && LiveIn(a) == LiveIn(b)
    ensures a == b
  {
    forall u | 0 <= u < |a| ensures a[u] == b[u] {
      assert u in LiveIn(a) <==> a[u] != NO_BLOCK;
      assert u in LiveIn(b) <==> b[u] != NO_BLOCK;
      if u in LiveIn(a) {
        assert LiveIn(a)[u] == LiveIn(b)[u];
      }
    }
  }

  /** A heap determines every byte, every count, every entry of the level array and the used size. */
  lemma HeapDeterminesSnapshot(a: Snapshot, b: Snapshot, h: Heap)
    requires Shows(a, h) && Shows(b, h)
    ensures a == b
  {
    FreeSetDeterminesBitmaps(h.n, h.free, a.bitmaps, b.bitmaps, a.counts, b.counts);
    SameLevels(a.levels, b.levels);
  }

  /** Allocating and then freeing the result restores the allocator's data, byte for byte. */
  lemma AllocateThenFreeRestores(s: Snapshot, h: Heap, k: nat, u: nat, h': Heap, s'': Snapshot, h'': Heap)
    requires Inv(h) && Shows(s, h) && AllocateStep(h, k, u, h') && FreeStep(h', u, h'') && Shows(s'', h'')
    ensures s'' == s
  {
    AllocateThenFree(h, k, u, h', h'');
    HeapDeterminesSnapshot(s, s'', h);
  }

  lemma EmptyLevel(f: set<Block>, l: nat)
    requires |AtLevel(f, l)| == 0
    ensures forall o: nat :: Block(l, o) !in f
  {
    forall o: nat ensures Block(l, o) !in f {
      assert Block(l, o) !in AtLevel(f, l);
    }
  }

  /** The QWORD at a byte position. */
  function WordAt(bytes: seq<byte>, at: nat): nat {
    if at + 8 <= |bytes| then Word(Values(bytes[at..at + 8])) else 0
  }

  /** Inside a byte, a word that could be skipped has already been seen to be non-zero. */
  ghost predicate SkipSafe(bytes: seq<byte>, n: nat, l: nat, i: nat) {
    i % 8 != 0 && i + 64 <= Shr(n, l) ==> WordAt(bytes, ByteAt(n, l, i)) != 0
  }

  lemma WordInside(n: nat, l: nat, i: nat)
    requires i % 8 == 0 && i + 64 <= Shr(n, l) && l < BitLength(n)
    ensures HasBit(n, l, i + 63) && ByteAt(n, l, i) + 8 <= BitmapBase(n, l) + BitmapBytes(Shr(n, l))
    ensures ByteAt(n, l, i + 63) == ByteAt(n, l, i) + 7
  {
  }

  /** A zero word, read at a multiple of eight, stands for sixty-four clear bits, all of this level. */
  lemma ZeroWordSkips(bytes: seq<byte>, n: nat, f: set<Block>, l: nat, i: nat)
    requires BitsMatch(bytes, n, f) && BitmapBase(n, BitLength(n)) <= |bytes|
    requires i % 8 == 0 && i + 64 <= Shr(n, l) && l < BitLength(n)
    requires WordAt(bytes, ByteAt(n, l, i)) == 0
    ensures HasBit(n, l, i + 63) && ByteAt(n, l, i) + 8 <= BitmapBase(n, l) + BitmapBytes(Shr(n, l))
    ensures forall o: nat :: i <= o < i + 64 ==> Block(l, o) !in f
  {
    WordInside(n, l, i);
    ByteInside(n, l, i + 63);
    var at := ByteAt(n, l, i);
    var w := bytes[at..at + 8];
    ZeroWord(w);
    forall o: nat | i <= o < i + 64 ensures Block(l, o) !in f {
      assert HasBit(n, l, o);
      assert bytes[ByteAt(n, l, o)] == w[o / 8 - i / 8];
      assert !BitSet(bytes, n, l, o);
    }
  }

  lemma SkipSafeNext(bytes: seq<byte>, n: nat, l: nat, i: nat)
    requires i + 64 <= Shr(n, l) ==> WordAt(bytes, ByteAt(n, l, i)) != 0
    ensures SkipSafe(bytes, n, l, i + 1)
  {
    assert (i + 1) % 8 != 0 ==> (i + 1) / 8 == i / 8;
  }

  lemma SkipSafeAfter(bytes: seq<byte>, n: nat, l: nat, i: nat)
    requires SkipSafe(bytes, n, l, i) && i + 64 <= Shr(n, l) && WordAt(bytes, ByteAt(n, l, i)) == 0
    ensures i % 8 == 0 && SkipSafe(bytes, n, l, i + 64)
  {
  }

  // ----- the bitmaps built at initialisation

  /** The bits of level `l` stand for the blocks of the initial free set. */
  ghost predicate LevelBuilt(bytes: seq<byte>, n: nat, l: nat) {
    forall o: nat :: HasBit(n, l, o) ==> (BitSet(bytes, n, l, o) <==> Block(l, o) in InitialFree(n))
  }

  /** The last, partial byte of a bitmap: the bit of the unpaired last block of an odd count. */
  function LastByte(count: nat): byte {
    if count % 8 % 2 == 1 then Mask(count % 8 - 1) else 0
  }

  /** Bytes laid out for a bitmap of `count` bits at `base`. */
  ghost predicate BytesBuilt(bytes: seq<byte>, base: nat, count: nat) {
    && base + BitmapBytes(count) <= |bytes|
    && (forall p :: base <= p < base + count / 8 ==> bytes[p] == 0)
    && (count % 8 != 0 ==> bytes[base + count / 8] == LastByte(count))
  }

  lemma BitBuilt(bytes: seq<byte>, base: nat, count: nat, o: nat)
    requires BytesBuilt(bytes, base, count) && o / 8 < BitmapBytes(count)
    ensures Bit(bytes[base + o / 8], o % 8) <==> count % 2 == 1 && o == count - 1
  {
    BuiltBit(count, o);
  }

  lemma LevelBitBuilt(bytes: seq<byte>, n: nat, l: nat, o: nat)
    requires BytesBuilt(bytes, BitmapBase(n, l), Shr(n, l)) && HasBit(n, l, o)
    ensures BitSet(bytes, n, l, o) <==> Shr(n, l) % 2 == 1 && o == Shr(n, l) - 1
  {
    BitBuilt(bytes, BitmapBase(n, l), Shr(n, l), o);
  }

  lemma LevelBytesBuilt(bytes: seq<byte>, n: nat, l: nat)
    requires l < BitLength(n) && BytesBuilt(bytes, BitmapBase(n, l), Shr(n, l))
    ensures LevelBuilt(bytes, n, l)
  {
    forall o: nat | HasBit(n, l, o) ensures BitSet(bytes, n, l, o) <==> Block(l, o) in InitialFree(n) {
      LevelBitBuilt(bytes, n, l, o);
    }
  }

  /** Bit `o` of a freshly built bitmap of `count` bits. */
  lemma BuiltBit(count: nat, o: nat)
    requires o / 8 < BitmapBytes(count)
    ensures Bit(if o / 8 < count / 8 then 0 else LastByte(count), o % 8) <==> count % 2 == 1 && o == count - 1
  {
    var q, r := count / 8, count % 8;
    var k := o % 8;
    assert count % 2 == r % 2;
    if o / 8 < q {
      assert o != count - 1 || r == 0;
    } else if r % 2 == 1 {
      assert o / 8 == q;
    }
  }

  lemma LevelCountBuilt(n: nat, l: nat)
    requires l < BitLength(n)
    ensures |AtLevel(InitialFree(n), l)| == if Shr(n, l) % 2 == 1 then 1 else 0
  {
    if Shr(n, l) % 2 == 1 {
      assert AtLevel(InitialFree(n), l) == {Block(l, Shr(n, l) - 1)};
    } else {
      assert AtLevel(InitialFree(n), l) == {};
    }
  }

  lemma LevelBuiltFrame(bytes: seq<byte>, bytes': seq<byte>, n: nat, l: nat, j: nat)
    requires LevelBuilt(bytes, n, l) && l < j <= BitLength(n)
    requires |bytes| == |bytes'| && BitmapBase(n, j) <= |bytes|
    requires bytes[..BitmapBase(n, j)] == bytes'[..BitmapBase(n, j)]
    ensures LevelBuilt(bytes', n, l)
  {
    BaseMonotone(n, l, j);
    forall o: nat | HasBit(n, l, o) ensures BitSet(bytes', n, l, o) <==> Block(l, o) in InitialFree(n) {
      assert BitSet(bytes, n, l, o) <==> Block(l, o) in InitialFree(n);
      var at := ByteAt(n, l, o);
      assert bytes[..BitmapBase(n, j)][at] == bytes'[..BitmapBase(n, j)][at];
    }
  }

  ghost predicate LevelsBuilt(bytes: seq<byte>, n: nat, j: nat) {
    forall l: nat :: l < j ==> LevelBuilt(bytes, n, l)
  }

  /** Building level `j` leaves the bitmaps below it alone. */
  lemma NextLevelBuilt(bytes: seq<byte>, bytes': seq<byte>, n: nat, j: nat)
    requires LevelsBuilt(bytes, n, j) && j < BitLength(n) && LevelBuilt(bytes', n, j)
    requires |bytes| == |bytes'| && BitmapBase(n, j) <= |bytes|
    requires bytes[..BitmapBase(n, j)] == bytes'[..BitmapBase(n, j)]
    ensures LevelsBuilt(bytes', n, j + 1)
  {
    forall l: nat | l < j ensures LevelBuilt(bytes', n, l) {
      LevelBuiltFrame(bytes, bytes', n, l, j);
    }
  }

  lemma AllLevelsBuilt(bytes: seq<byte>, n: nat)
    requires LevelsBuilt(bytes, n, BitLength(n))
    ensures BitsMatch(bytes, n, InitialFree(n))
  {
    forall l: nat, o: nat | HasBit(n, l, o)
      ensures BitSet(bytes, n, l, o) <==> Block(l, o) in InitialFree(n)
    {
      assert LevelBuilt(bytes, n, l);
    }
  }

  // ----- splitting and merging

  /** A block `b` taken out of `f0`, together with what is now free, `f`. */
  ghost predicate Splitting(f0: set<Block>, f: set<Block>, b: Block, n: nat) {
    Coherent(f, n) && Inside(b, n) && WhollyFree(f0, b) && Takes(f0, b, f)
  }

  lemma HalvesOf(b: Block)
    requires b.level > 0
    ensures forall u: nat :: In(u, b) <==> In(u, Left(b)) || In(u, Right(b))
    ensures forall u: nat :: !(In(u, Left(b)) && In(u, Right(b)))
  {
    forall u: nat
      ensures In(u, b) <==> In(u, Left(b)) || In(u, Right(b))
      ensures !(In(u, Left(b)) && In(u, Right(b)))
    {
      InHalves(u, b);
    }
  }

  lemma SplitHalves(f0: set<Block>, f: set<Block>, n: nat, b: Block)
    requires b.level > 0 && Splitting(f0, f, b, n)
    ensures Left(b) !in f && Splitting(f0, f + {Right(b)}, Left(b), n)
  {
    HalvesOf(b);
    InsideHalves(b, n);
    FirstIn(Left(b));
    assert !Covers(f, First(Left(b)));
    AddBlock(f, n, Right(b));
  }

  /** Splitting a pending block: the right half becomes free and the left half stays pending. */
  lemma SplitPending(f0: set<Block>, f: set<Block>, n: nat, level: nat, offset: nat)
    requires level > 0 && Splitting(f0, f, Block(level, offset), n)
    ensures offset * 2 + 1 < Shr(n, level - 1)
    ensures var l, r := Block(level - 1, offset * 2), Block(level - 1, offset * 2 + 1);
            && Splitting(f0, WithBlock(WithBlock(f, l, false), r, true), l, n)
            && First(l) == First(Block(level, offset))
  {
    var b := Block(level, offset);
    assert Left(b) == Block(level - 1, offset * 2) && Right(b) == Block(level - 1, offset * 2 + 1);
    FirstOfLeft(b);
    InsideHalves(b, n);
    SplitHalves(f0, f, n, b);
    assert WithBlock(f, Left(b), false) == f;
  }

  lemma StartSplitting(f0: set<Block>, n: nat, c: Block)
    requires Coherent(f0, n) && c in f0
    ensures Splitting(f0, f0 - {c}, c, n)
  {
    RemoveBlock(f0, n, c);
  }

  /** The free set after merging: pending block `b` and `f` together cover what `f0` and `b0` did. */
  ghost predicate Pending(f0: set<Block>, b0: Block, f: set<Block>, b: Block, n: nat) {
    && Coherent(f, n) && Inside(b, n)
    && (forall u: nat :: In(u, b) ==> !Covers(f, u))
    && (forall u: nat :: Covers(f, u) || In(u, b) <==> Covers(f0, u) || In(u, b0))
  }

  lemma BuddyLeaves(f0: set<Block>, b0: Block, f: set<Block>, b: Block, n: nat)
    requires Pending(f0, b0, f, b, n) && Buddy(b) in f
    ensures Pending(f0, b0, f - {Buddy(b)}, Parent(b), n)
  {
    RemoveBlock(f, n, Buddy(b));
    BuddyHalves(b);
    ShrStep(n, b.level);
    forall u: nat ensures In(u, Parent(b)) <==> In(u, b) || In(u, Buddy(b)) {
      InHalves(u, Parent(b));
    }
  }

  /** A free buddy has a block number, and the parent has a level. */
  lemma MergeLevels(f: set<Block>, b: Block, n: nat)
    requires Coherent(f, n) && Inside(b, n) && Buddy(b) in f && Inside(Parent(b), n)
    ensures Buddy(b).offset < Shr(n, b.level) && b.level + 1 < BitLength(n)
  {
    InsideLevel(Parent(b), n);
  }

  /** A pending block whose buddy is free merges into its parent. */
  lemma MergePending(f0: set<Block>, b0: Block, f: set<Block>, n: nat, level: nat, offset: nat)
    requires var b := Block(level, offset); Pending(f0, b0, f, b, n) && Buddy(b) in f
    ensures Buddy(Block(level, offset)).offset < Shr(n, level)
    ensures level + 1 < BitLength(n)
    ensures var b := Block(level, offset);
            Pending(f0, b0, WithBlock(WithBlock(WithBlock(f, b, true), Buddy(b), false), b, false),
                    Block(level + 1, offset / 2), n)
  {
    var b := Block(level, offset);
    PendingNotFree(f, b);
    BuddyLeaves(f0, b0, f, b, n);
    MergeLevels(f, b, n);
    assert Parent(b) == Block(level + 1, offset / 2);
  }

  lemma PendingNotFree(f: set<Block>, b: Block)
    requires forall u: nat :: In(u, b) ==> !Covers(f, u)
    ensures b !in f
  {
    FirstIn(b);
    assert !Covers(f, First(b));
  }

  /** A pending block whose buddy is not free becomes free itself. */
  lemma SettlePending(f0: set<Block>, b0: Block, f: set<Block>, b: Block, n: nat)
    requires Pending(f0, b0, f, b, n) && Buddy(b) !in f
    ensures Coherent(f + {b}, n) && Gives(f0, b0, f + {b})
  {
    AddBlock(f, n, b);
  }

  /** The bit of the buddy lies within the level's bytes even when the level has no such block. */
  lemma BuddyHasBit(b: Block, n: nat)
    requires Inside(b, n)
    ensures HasBit(n, b.level, Buddy(b).offset)
  {
    InsideLevel(b, n);
  }

  // ----- the level of a request

  /** The least level whose blocks hold `size` bytes. */
  function RequestLevel(size: nat): nat {
    if size <= MIN_SIZE then 0 else 1 + RequestLevel((size + 1) / 2)
  }

  lemma {:induction false} RequestLevelIsLeast(size: nat, k: nat)
    ensures size <= MIN_SIZE * Pow2(k) <==> RequestLevel(size) <= k
  {
    if size > MIN_SIZE && k > 0 {
      RequestLevelIsLeast((size + 1) / 2, k - 1);
    }
  }

  /** Above the top level there is no run to be had. */
  lemma NoRunAboveTop(f: set<Block>, n: nat, k: nat)
    requires Coherent(f, n)
    requires k >= BitLength(n)
    ensures !HasFreeRun(f, k)
  {
    FreeRunIffBlock(f, n, k);
    forall b | b in f ensures b.level < k {
      InsideLevel(b, n);
    }
  }

  // ----- block sizes as the source computes them

  /** A 32-bit signed number, widened to a 64-bit unsigned one. */
  function Widened(x: nat): (r: nat)
    ensures x < 0x8000_0000 ==> r == x
    ensures x == 0x8000_0000 ==> r == QWORD - 0x8000_0000
  {
    var low := x % DWORD;
    if low < 0x8000_0000 then low else low + (QWORD - DWORD)
  }

  /** `1024 << i` in 32-bit signed arithmetic, compared as a 64-bit unsigned number. */
  function IntShift(i: nat): nat {
    Widened(MIN_SIZE * Pow2(i))
  }

  lemma {:induction false} Pow2Monotone(i: nat, j: nat)
    requires i <= j
    ensures Pow2(i) <= Pow2(j)
  {
    if i < j {
      Pow2Monotone(i, j - 1);
    }
  }

  lemma Pow2Widest()
    ensures Pow2(WIDEST) == 0x10_0000 && Pow2(WIDEST + 1) == 0x20_0000
  {
    assert Pow2(8) == 256 && Pow2(16) == 256 * Pow2(8) && Pow2(20) == 16 * Pow2(16);
  }

  /** The shift is right up to level 20; at level 21 it comes out as almost 2^64. */
  lemma IntShiftValue(i: nat)
    requires i <= WIDEST + 1
    ensures IntShift(i) == if i <= WIDEST then MIN_SIZE * Pow2(i) else QWORD - 0x8000_0000
    ensures i <= WIDEST ==> IntShift(i) <= 0x4000_0000
  {
    Pow2Widest();
    if i <= WIDEST {
      Pow2Monotone(i, WIDEST);
      assert MIN_SIZE * Pow2(i) <= 0x4000_0000;
    } else {
      assert MIN_SIZE * Pow2(i) == 0x8000_0000;
    }
  }

  lemma PositiveSize(i: nat)
    requires i <= WIDEST
    ensures IntShift(i) > 0
  {
    IntShiftValue(i);
  }

  lemma {:induction false} Pow2Increasing(i: nat, j: nat)
    requires i < j
    ensures Pow2(i) < Pow2(j)
  {
    Pow2Monotone(i + 1, j);
  }

  lemma IntShiftIncreasing(i: nat, j: nat)
    requires i < j <= WIDEST + 1
    ensures IntShift(i) < IntShift(j)
  {
    IntShiftValue(i);
    IntShiftValue(j);
    Pow2Increasing(i, j);
  }

  /** `aligned` exceeds the sizes of all levels below `i`. */
  ghost predicate ExceedsBelow(aligned: nat, i: nat) {
    forall j: nat {:trigger IntShift(j)} :: j < i ==> aligned > IntShift(j)
  }

  /** The least level whose size is at least that of level `k` is `k` itself. */
  lemma OwnLevel(k: nat, aligned: nat, i: int, levels: nat)
    requires k < levels <= WIDEST + 2 && -1 <= i < levels && aligned == IntShift(k)
    requires if i == -1 then ExceedsBelow(aligned, levels) else aligned <= IntShift(i) && ExceedsBelow(aligned, i)
    ensures i == k
  {
    if 0 <= i < k {
      IntShiftIncreasing(i, k);
    }
  }

  /** Whether a request fits a level, by the computed sizes. */
  lemma FitsLevel(size: nat, i: nat)
    requires i <= WIDEST + 1
    ensures i <= WIDEST ==> (size <= IntShift(i) <==> RequestLevel(size) <= i)
    ensures i > WIDEST && RequestLevel(size) <= i ==> size <= IntShift(i)
  {
    IntShiftValue(i);
    RequestLevelIsLeast(size, i);
    Pow2Widest();
  }

  /** The aligned size of a request among `levels` levels: 0 if none is large enough. */
  function AlignedSize(size: nat, levels: nat): nat {
    if RequestLevel(size) < levels && RequestLevel(size) <= WIDEST then IntShift(RequestLevel(size))
    else if levels == WIDEST + 2 && size <= IntShift(WIDEST + 1) then IntShift(WIDEST + 1)
    else 0
  }

  /**
   The early capacity test, in 64-bit arithmetic. Up to level 20 it refuses no request that a free run
   could serve; at level 21 it refuses every one of them.
   */
  lemma CapacityTest(h: Heap, start: nat, end: nat, k: nat)
    requires Inv(h) && start + MIN_SIZE * h.n <= end <= MAX_RAM_SIZE && k <= WIDEST + 1
    requires HasFreeRun(h.free, k)
    ensures (start + h.used + IntShift(k)) % QWORD > end <==> k == WIDEST + 1
  {
    FreeRunFits(h, k);
    IntShiftValue(k);
    Pow2Widest();
  }

  /** An arena of 2 GiB or more, all free, has room for this request of 1.5 GiB, which the code refuses. */
  lemma LargeRequestHasRoom(n: nat)
    requires 0x20_0000 <= n < 0x40_0000
    ensures RequestLevel(0x6000_0000) == WIDEST + 1
    ensures HasFreeRun(InitialFree(n), RequestLevel(0x6000_0000))
  {
    Pow2Widest();
    RequestLevelIsLeast(0x6000_0000, WIDEST);
    RequestLevelIsLeast(0x6000_0000, WIDEST + 1);
    ShrRange(n, WIDEST + 1, 1);
    ShrPositive(n, WIDEST + 1);
    InitialIsCoherent(n);
    var b := Block(WIDEST + 1, 0);
    ShrRange(0, WIDEST + 1, 0);
    assert b in InitialFree(n);
    FreeRunIffBlock(InitialFree(n), n, WIDEST + 1);
  }

  /** The memory between `base` and the end of the RAM, of which the source uses at most 3 GiB. */
  function DynamicSize(ramSize: nat, base: nat): nat
    requires base <= ramSize && base <= MAX_RAM_SIZE
  {
    (if ramSize > MAX_RAM_SIZE then MAX_RAM_SIZE else ramSize) - base
  }

  lemma DynamicEnd(ramSize: nat, base: nat)
    requires base <= ramSize && base <= MAX_RAM_SIZE
    ensures base + DynamicSize(ramSize, base) == if ramSize <= 0xc000_0000 then ramSize else 0xc000_0000
  {
  }

  method CalculateMetaBlockCount(dynamicSize: nat) returns (count: nat)
    requires dynamicSize <= MAX_RAM_SIZE
    ensures count == MetaBlocks(dynamicSize / MIN_SIZE)
  {
    var total := dynamicSize / MIN_SIZE;
    var bitmapSize, i := 0, 0;
    while Shr(total, i) > 0
      invariant LevelBytes(total) == bitmapSize + LevelBytes(Shr(total, i))
      decreases Shr(total, i)
    {
      bitmapSize := bitmapSize + BITMAP_HEADER;
      bitmapSize := bitmapSize + (Shr(total, i) + 7) / 8;
      ShrStep(total, i);
      i := i + 1;
    }
    count := (total + bitmapSize + MIN_SIZE - 1) / MIN_SIZE;
  }

  /** The byte address of a block, relative to the arena. */
  lemma RelativeAddress(level: nat, offset: nat)
    ensures var relative := MIN_SIZE * Pow2(level) * offset;
            relative == MIN_SIZE * First(Block(level, offset)) && relative / MIN_SIZE == First(Block(level, offset))
  {
    var p := Pow2(level);
    assert MIN_SIZE * p * offset == MIN_SIZE * (offset * p);
  }

  /** The offset of a block from a byte address inside its first unit. */
  lemma {:induction false} BlockOffset(relative: nat, level: nat)
    ensures relative / (MIN_SIZE * Pow2(level)) == Shr(relative / MIN_SIZE, level)
  {
    if level > 0 {
      HalveTwice(relative, MIN_SIZE * Pow2(level - 1));
      assert relative / 2 / MIN_SIZE == relative / MIN_SIZE / 2;
      BlockOffset(relative / 2, level - 1);
    }
  }

  lemma HalveTwice(x: nat, d: nat)
    requires d > 0
    ensures x / (2 * d) == x / 2 / d
  {
    var q := x / 2 / d;
    assert x / 2 == q * d + x / 2 % d;
    QuotientUnique(x, 2 * d, q);
  }

  lemma QuotientUnique(x: nat, d: nat, q: nat)
    requires d > 0 && q * d <= x < q * d + d
    ensures x / d == q
  {
    var r := x / d;
    assert x == r * d + x % d;
    assert r < q ==> (r + 1) * d <= q * d;
    assert r > q ==> (q + 1) * d <= r * d;
  }

  /** With no run of a level there is none of a higher one. */
  lemma NoRunAbove(f: set<Block>, n: nat, k: nat, j: nat)
    requires Coherent(f, n) && k <= j
    ensures HasFreeRun(f, j) ==> HasFreeRun(f, k)
  {
    FreeRunIffBlock(f, n, k);
    FreeRunIffBlock(f, n, j);
  }

  lemma TakenInside(h: Heap, k: nat, offset: nat, f: set<Block>)
    requires Inv(h) && Splitting(h.free, f, Block(k, offset), h.n)
    requires exists c :: FirstFit(h.free, k, c) && First(c) == First(Block(k, offset))
    ensures HasFreeRun(h.free, k) && First(Block(k, offset)) < h.n && k < BitLength(h.n)
    ensures LiveBlock(First(Block(k, offset)), k) == Block(k, offset)
  {
    FirstIn(Block(k, offset));
    InsideMeansBelow(Block(k, offset), h.n);
    InsideLevel(Block(k, offset), h.n);
  }

  /** Recording a block taken by first fit completes an allocation step. */
  lemma AllocateStepIntro(h: Heap, k: nat, offset: nat, f: set<Block>, h': Heap)
    requires Inv(h) && Splitting(h.free, f, Block(k, offset), h.n)
    requires exists c :: FirstFit(h.free, k, c) && First(c) == First(Block(k, offset))
    requires h' == Heap(h.n, f, h.live[First(Block(k, offset)) := k], h.used + MIN_SIZE * Pow2(k))
    ensures AllocateStep(h, k, First(Block(k, offset)), h') && Inv(h')
  {
    TakenInside(h, k, offset, f);
    AllocateKeepsInv(h, k, First(Block(k, offset)), h');
  }

  lemma FreeStepIntro(h: Heap, u: nat, h': Heap)
    requires Inv(h) && u in h.live && Coherent(h'.free, h.n) && Gives(h.free, LiveBlock(u, h.live[u]), h'.free)
    requires MIN_SIZE * Pow2(h.live[u]) <= h.used
    requires h' == Heap(h.n, h'.free, h.live - {u}, h.used - MIN_SIZE * Pow2(h.live[u]))
    ensures FreeStep(h, u, h') && Inv(h')
  {
    FreeKeepsInv(h, u, h');
  }

  lemma LiveBlockIsTaken(h: Heap, u: nat)
    requires Inv(h) && u in h.live
    ensures Inside(LiveBlock(u, h.live[u]), h.n)
    ensures forall x: nat :: In(x, LiveBlock(u, h.live[u])) ==> !Covers(h.free, x)
    ensures MIN_SIZE * Pow2(h.live[u]) <= h.used
  {
    var b := LiveBlock(u, h.live[u]);
    forall x: nat | In(x, b) ensures !Covers(h.free, x) {
      assert LiveCovers(h.live, x);
    }
    UnitCount(b, h.n);
    var us, ug := Units(b, h.n), UnitsCovered(h.free, h.n);
    assert us !! ug;
    assert us + ug <= Interval(0, h.n);
    SubsetSize(us + ug, Interval(0, h.n));
  }

  ghost predicate Computed(live: map<nat, nat>) {
    forall u :: u in live ==> live[u] <= WIDEST
  }

  class Allocator {
    var maxLevel: nat
    var blockCount: nat
    var usedSize: nat
    var startAddress: nat
    var endAddress: nat
    var blockLevel: array<nat>
    var bitmapAt: array<nat>
    var existCount: array<nat>
    var bitmap: array<byte>
    ghost var free: set<Block>

    // ----- representation

    ghost predicate Shape()
      reads this, blockLevel, bitmapAt, existCount, bitmap
    {
      && maxLevel == BitLength(blockCount)
      && blockLevel.Length == blockCount
      && bitmapAt.Length == maxLevel && existCount.Length == maxLevel
      && blockLevel != bitmapAt && blockLevel != existCount && bitmapAt != existCount
      && bitmap as object !in {blockLevel, bitmapAt, existCount}
      && (forall l :: 0 <= l < maxLevel ==> bitmapAt[l] == BitmapBase(blockCount, l))
      && BitmapBase(blockCount, maxLevel) <= bitmap.Length
      && startAddress > 0
      && startAddress + MIN_SIZE * blockCount <= endAddress
    }

    ghost predicate Represented()
      reads this, blockLevel, bitmapAt, existCount, bitmap
    {
      && Shape()
      && BitsMatch(bitmap[..], blockCount, free)
      && CountsMatch(existCount[..], free)
    }

    // ----- the abstract heap

    ghost function Live(): map<nat, nat>
      reads this, blockLevel
    {
      map u: nat | u < blockLevel.Length && blockLevel[u] != NO_BLOCK :: blockLevel[u]
    }

    ghost function State(): Heap
      reads this, blockLevel
    {
      Heap(blockCount, free, Live(), usedSize)
    }

    ghost predicate Valid()
      reads this, blockLevel, bitmapAt, existCount, bitmap
    {
      && Represented() && Inv(State()) && maxLevel <= WIDEST + 2 && endAddress <= MAX_RAM_SIZE
      && LevelsComputed()
    }

    /** No live block is of a level whose size the source's shift gets wrong. */
    ghost predicate LevelsComputed()
      reads this, blockLevel
    {
      Computed(Live())
    }

    ghost function Data(): Snapshot
      requires Shape()
      reads this, blockLevel, bitmapAt, existCount, bitmap
    {
      Snapshot(bitmap[..BitmapBase(blockCount, maxLevel)], existCount[..], blockLevel[..], usedSize)
    }

    /** The allocator's data show its heap, so equal heaps mean equal data. */
    lemma DataShow()
      requires Valid()
      ensures Shows(Data(), State())
    {
      assert Live() == LiveIn(blockLevel[..]);
      forall l, o | HasBit(blockCount, l, o)
        ensures BitSet(bitmap[..], blockCount, l, o) <==> BitSet(Data().bitmaps, blockCount, l, o)
      {
        ByteInside(blockCount, l, o);
      }
    }

    // ----- initialisation

    /** Lays out the metadata of the arena that begins at `base`, with everything free. */
    constructor (ramSize: nat, base: nat)
      requires 0 < base <= ramSize && base <= MAX_RAM_SIZE
      ensures Valid()
      ensures var total := DynamicSize(ramSize, base) / MIN_SIZE;
              && MetaBlocks(total) <= total
              && State() == Initial(total - MetaBlocks(total))
              && startAddress == base + MIN_SIZE * MetaBlocks(total)
              && endAddress == base + DynamicSize(ramSize, base)
      ensures endAddress == if ramSize <= 0xc000_0000 then ramSize else 0xc000_0000
      ensures fresh(blockLevel) && fresh(bitmapAt) && fresh(existCount) && fresh(bitmap)
    {
      var dynamicSize, metaCount, n, i := Measure(ramSize, base);
      SmallLevels(n);
      blockCount := n;
      maxLevel := i;
      blockLevel := new nat[n](_ => NO_BLOCK);
      bitmapAt := new nat[i](_ => 0);
      existCount := new nat[i](_ => 0);
      bitmap := new byte[MIN_SIZE * metaCount - n - BITMAP_HEADER * i];
      startAddress := base + metaCount * MIN_SIZE;
      endAddress := base + dynamicSize;
      usedSize := 0;
      free := InitialFree(n);
      new;
      BuildLevels();
      AllLevelsBuilt(bitmap[..], n);
      InitialInv(n);
      assert Live() == map[];
      assert State() == Initial(n);
    }

    /** The size of the arena, the blocks for metadata and for memory, and the number of levels. */
    static method Measure(ramSize: nat, base: nat) returns (dynamicSize: nat, metaCount: nat, n: nat, levels: nat)
      requires 0 < base <= ramSize && base <= MAX_RAM_SIZE
      ensures dynamicSize == DynamicSize(ramSize, base)
      ensures base + dynamicSize == if ramSize <= 0xc000_0000 then ramSize else 0xc000_0000
      ensures metaCount == MetaBlocks(dynamicSize / MIN_SIZE) && metaCount + n == dynamicSize / MIN_SIZE
      ensures MIN_SIZE * (metaCount + n) <= dynamicSize <= MAX_RAM_SIZE && levels == BitLength(n)
      ensures n + BITMAP_HEADER * levels + BitmapBase(n, levels) <= MIN_SIZE * metaCount
    {
      DynamicEnd(ramSize, base);
      dynamicSize := DynamicSize(ramSize, base);
      metaCount := CalculateMetaBlockCount(dynamicSize);
      MetadataFits(dynamicSize / MIN_SIZE);
      n := dynamicSize / MIN_SIZE - metaCount;
      levels := CountLevels(n);
    }

    static method CountLevels(n: nat) returns (i: nat)
      ensures i == BitLength(n)
    {
      i := 0;
      while Shr(n, i) > 0
        invariant i <= BitLength(n)
        decreases BitLength(n) - i
      {
        ShrPositive(n, i);
        i := i + 1;
      }
      ShrPositive(n, i);
    }

    /** The part of the shape that holds before the bitmaps are laid out. */
    ghost predicate Blank()
      reads this
    {
      && maxLevel == BitLength(blockCount)
      && bitmapAt.Length == maxLevel && existCount.Length == maxLevel
      && bitmapAt != existCount
      && bitmap as object !in {bitmapAt, existCount}
      && BitmapBase(blockCount, maxLevel) <= bitmap.Length
    }

    method BuildLevels()
      requires Blank()
      modifies bitmapAt, existCount, bitmap
      ensures forall l :: 0 <= l < maxLevel ==> bitmapAt[l] == BitmapBase(blockCount, l)
      ensures LevelsBuilt(bitmap[..], blockCount, maxLevel)
      ensures CountsMatch(existCount[..], InitialFree(blockCount))
    {
      var at := 0;
      for j := 0 to maxLevel
        invariant at == BitmapBase(blockCount, j)
        invariant forall l :: 0 <= l < j ==> bitmapAt[l] == BitmapBase(blockCount, l)
        invariant LevelsBuilt(bitmap[..], blockCount, j)
        invariant forall l :: 0 <= l < j ==> existCount[l] == |AtLevel(InitialFree(blockCount), l)|
      {
        bitmapAt[j] := at;
        existCount[j] := 0;
        BaseStep(blockCount, j);
        BaseMonotone(blockCount, j, maxLevel);
        ghost var bytes := bitmap[..];
        at := BuildLevel(j, at);
        NextLevelBuilt(bytes, bitmap[..], blockCount, j);
      }
    }

    method ClearBytes(start: nat, count: nat) returns (at: nat)
      requires start + count <= bitmap.Length
      modifies bitmap
      ensures at == start + count
      ensures bitmap[..start] == old(bitmap[..start])
      ensures forall p :: start <= p < at ==> bitmap[p] == 0
    {
      at := start;
      for i := 0 to count
        invariant at == start + i
        invariant bitmap[..start] == old(bitmap[..start])
        invariant forall p :: start <= p < at ==> bitmap[p] == 0
      {
        bitmap[at] := 0;
        at := at + 1;
      }
    }

    method BuildLastByte(at: nat, count: nat) returns (odd: bool)
      requires at < bitmap.Length && count % 8 != 0
      modifies bitmap
      ensures bitmap[..] == old(bitmap[..])[at := LastByte(count)]
      ensures odd <==> count % 2 == 1
    {
      bitmap[at] := 0;
      var i := count % 8;
      odd := i % 2 == 1;
      if odd {
        bitmap[at] := bitmap[at] | Mask(i - 1);
      }
    }

    method BuildLevel(j: nat, start: nat) returns (at: nat)
      requires Blank() && j < maxLevel && start == BitmapBase(blockCount, j)
      requires existCount[j] == 0
      requires start + BitmapBytes(Shr(blockCount, j)) <= bitmap.Length
      modifies existCount, bitmap
      ensures at == start + BitmapBytes(Shr(blockCount, j))
      ensures bitmap[..start] == old(bitmap[..start])
      ensures LevelBuilt(bitmap[..], blockCount, j)
      ensures existCount[j] == |AtLevel(InitialFree(blockCount), j)|
      ensures forall l :: 0 <= l < maxLevel && l != j ==> existCount[l] == old(existCount[l])
    {
      var count := Shr(blockCount, j);
      at := ClearBytes(start, count / 8);
      if count % 8 != 0 {
        var odd := BuildLastByte(at, count);
        if odd {
          existCount[j] := 1;
        }
        at := at + 1;
      }
      LevelBytesBuilt(bitmap[..], blockCount, j);
      LevelCountBuilt(blockCount, j);
    }

    // ----- bits

    method GetFlag(l: nat, o: nat) returns (exist: bool)
      requires Represented() && HasBit(blockCount, l, o)
      ensures exist <==> Block(l, o) in free
    {
      ByteInside(blockCount, l, o);
      exist := bitmap[bitmapAt[l] + o / 8] & Mask(o % 8) != 0;
      assert exist <==> BitSet(bitmap[..], blockCount, l, o);
    }

    method StoreBit(at: nat, k: nat, exist: bool)
      requires at < bitmap.Length && k < 8
      modifies bitmap
      ensures bitmap[..] == old(bitmap[..])[at := WithBit(old(bitmap[at]), k, exist)]
    {
      if exist {
        bitmap[at] := bitmap[at] | Mask(k);
      } else {
        bitmap[at] := bitmap[at] & !Mask(k);
      }
    }

    method AdjustCount(l: nat, o: nat, was: bool, exist: bool)
      requires Shape() && CountsMatch(existCount[..], free)
      requires l < maxLevel && (was <==> Block(l, o) in free)
      modifies existCount
      ensures CountsMatch(existCount[..], WithBlock(free, Block(l, o), exist))
    {
      ghost var counts := existCount[..];
      if exist && !was {
        existCount[l] := existCount[l] + 1;
      } else if !exist && was {
        assert Block(l, o) in AtLevel(free, l);
        existCount[l] := existCount[l] - 1;
      }
      ChangeCount(counts, free, Block(l, o), exist, existCount[..]);
    }

    method SetFlag(l: nat, o: nat, exist: bool)
      requires Represented() && l < maxLevel && o < Shr(blockCount, l)
      modifies `free, existCount, bitmap
      ensures Represented()
      ensures free == WithBlock(old(free), Block(l, o), exist)
    {
      ByteInside(blockCount, l, o);
      var was := GetFlag(l, o);
      AdjustCount(l, o, was, exist);
      StoreBit(bitmapAt[l] + o / 8, o % 8, exist);
      ChangeBit(old(bitmap[..]), blockCount, free, l, o, exist, bitmap[..]);
      free := WithBlock(free, Block(l, o), exist);
    }

    // ----- allocation

    method ReadWord(l: nat, i: nat) returns (w: nat)
      requires Shape() && l < maxLevel && i + 64 <= Shr(blockCount, l)
      ensures w == WordAt(bitmap[..], ByteAt(blockCount, l, i))
    {
      ByteInside(blockCount, l, i + 63);
      var at := bitmapAt[l] + i / 8;
      assert at + 8 <= bitmap.Length;
      assert bitmap[..][at..at + 8] == bitmap[at..at + 8];
      w := Word(Values(bitmap[at..at + 8]));
    }

    /** Whether the next sixty-four bits may be skipped: at least that many remain and the word is zero. */
    method SkipWord(l: nat, i: nat, maxCount: nat) returns (skip: bool)
      requires Represented() && l < maxLevel && i <= maxCount == Shr(blockCount, l)
      requires SkipSafe(bitmap[..], blockCount, l, i)
      ensures skip ==> i + 64 <= maxCount && forall o: nat :: i <= o < i + 64 ==> Block(l, o) !in free
      ensures SkipSafe(bitmap[..], blockCount, l, if skip then i + 64 else i + 1)
    {
      skip := false;
      if (maxCount - i) / 64 > 0 {
        var w := ReadWord(l, i);
        if w == 0 {
          ZeroWordSkips(bitmap[..], blockCount, free, l, i);
          SkipSafeAfter(bitmap[..], blockCount, l, i);
          return true;
        }
      }
      SkipSafeNext(bitmap[..], blockCount, l, i);
    }

    /** The least free block of a level, found by a scan that skips eight zero bytes at a time. */
    method FindFreeBlock(l: nat) returns (r: int)
      requires Represented() && l < maxLevel
      requires forall b :: b in free ==> Inside(b, blockCount)
      ensures r >= -1
      ensures r == -1 ==> forall o: nat :: Block(l, o) !in free
      ensures r >= 0 ==> Block(l, r) in free && forall o: nat :: o < r ==> Block(l, o) !in free
    {
      if existCount[l] == 0 {
        EmptyLevel(free, l);
        return -1;
      }
      var maxCount := Shr(blockCount, l);
      var i := 0;
      while i < maxCount
        invariant 0 <= i <= maxCount
        invariant forall o: nat :: o < i ==> Block(l, o) !in free
        invariant SkipSafe(bitmap[..], blockCount, l, i)
      {
        var skip := SkipWord(l, i, maxCount);
        if skip {
          i := i + 64;
          continue;
        }
        var exist := GetFlag(l, i);
        if exist {
          return i;
        }
        i := i + 1;
      }
      return -1;
    }

    method GetBuddyBlockSize(size: nat) returns (aligned: nat)
      requires Shape() && maxLevel <= WIDEST + 2
      ensures aligned == AlignedSize(size, maxLevel)
    {
      for i := 0 to maxLevel
        invariant RequestLevel(size) >= i
        invariant i == WIDEST + 2 ==> size > IntShift(WIDEST + 1)
      {
        FitsLevel(size, i);
        if size <= IntShift(i) {
          return IntShift(i);
        }
      }
      return 0;
    }

    method GetBlockListIndex(aligned: nat) returns (i: int)
      requires Shape()
      ensures -1 <= i < maxLevel
      ensures if i == -1 then ExceedsBelow(aligned, maxLevel) else aligned <= IntShift(i) && ExceedsBelow(aligned, i)
    {
      for j := 0 to maxLevel
        invariant ExceedsBelow(aligned, j)
      {
        if aligned <= IntShift(j) {
          return j;
        }
      }
      return -1;
    }

    /** The search finds the level that the aligned size was computed from. */
    method OwnLevelIndex(aligned: nat, ghost k: nat) returns (i: nat)
      requires Shape() && k < maxLevel <= WIDEST + 2 && aligned == IntShift(k)
      ensures i == k
    {
      var j := GetBlockListIndex(aligned);
      OwnLevel(k, aligned, j, maxLevel);
      i := j;
    }

    /** The first level from `k` up with a free block, and its least block; level `maxLevel` if none. */
    method FindLevel(k: nat) returns (i: nat, r: int)
      requires Represented() && k < maxLevel
      requires forall b :: b in free ==> Inside(b, blockCount)
      ensures k <= i <= maxLevel && r >= -1
      ensures i < maxLevel <==> r >= 0
      ensures r >= 0 ==> FirstFit(free, k, Block(i, r))
      ensures r == -1 ==> forall b :: b in free ==> b.level < k
    {
      i, r := k, -1;
      while i < maxLevel
        invariant k <= i <= maxLevel && r == -1
        invariant forall b :: b in free ==> b.level < k || b.level >= i
      {
        r := FindFreeBlock(i);
        if r != -1 {
          return;
        }
        forall b | b in free ensures b.level < k || b.level >= i + 1 {
          assert b == Block(b.level, b.offset);
        }
        i := i + 1;
      }
      forall b | b in free ensures b.level < k {
        InsideLevel(b, blockCount);
      }
    }

    /** Takes the first fitting block and splits it down to level `k`; the offset there, or -1. */
    method AllocateBlock(k: nat) returns (offset: int)
      requires Represented() && k < maxLevel && Coherent(free, blockCount)
      modifies `free, existCount, bitmap
      ensures Represented() && offset >= -1
      ensures offset == -1 ==> free == old(free) && !HasFreeRun(free, k)
      ensures offset >= 0 ==>
                && Splitting(old(free), free, Block(k, offset), blockCount)
                && exists c :: FirstFit(old(free), k, c) && First(c) == First(Block(k, offset))
    {
      FreeRunIffBlock(free, blockCount, k);
      var i, r := FindLevel(k);
      if r == -1 {
        return -1;
      }
      ghost var f0, c := free, Block(i, r);
      StartSplitting(f0, blockCount, c);
      SetFlag(i, r, false);
      offset := SplitDown(i, r, k, f0);
    }

    /** The splitting loop: left halves stay pending, right halves become free. */
    method SplitDown(level: nat, start: nat, k: nat, ghost f0: set<Block>) returns (offset: nat)
      requires Represented() && k <= level < maxLevel
      requires Splitting(f0, free, Block(level, start), blockCount)
      modifies `free, existCount, bitmap
      ensures Represented()
      ensures Splitting(f0, free, Block(k, offset), blockCount)
      ensures First(Block(k, offset)) == First(Block(level, start))
    {
      var i := level;
      offset := start;
      while i > k
        invariant k <= i < maxLevel
        invariant Represented()
        invariant Splitting(f0, free, Block(i, offset), blockCount)
        invariant First(Block(i, offset)) == First(Block(level, start))
        decreases i
      {
        SplitOnce(i, offset, f0);
        i := i - 1;
        offset := offset * 2;
      }
    }

    /** One split: the flags of the two halves of a pending block. */
    method SplitOnce(level: nat, offset: nat, ghost f0: set<Block>)
      requires Represented() && 0 < level < maxLevel
      requires Splitting(f0, free, Block(level, offset), blockCount)
      modifies `free, existCount, bitmap
      ensures Represented()
      ensures Splitting(f0, free, Block(level - 1, offset * 2), blockCount)
      ensures First(Block(level - 1, offset * 2)) == First(Block(level, offset))
    {
      SplitPending(f0, free, blockCount, level, offset);
      SetFlag(level - 1, offset * 2, false);
      SetFlag(level - 1, offset * 2 + 1, true);
    }

    /** The exact condition under which a request is treated as the sizes demand; a caller can evaluate it. */
    predicate Served(size: nat)
      requires existCount.Length == maxLevel
      reads this, existCount
    {
      RequestLevel(size) != WIDEST + 1 || maxLevel <= WIDEST + 1 || existCount[WIDEST + 1] == 0
    }

    lemma ServedMeans(size: nat)
      requires Valid()
      ensures Served(size) <==> (HasFreeRun(free, RequestLevel(size)) ==> RequestLevel(size) <= WIDEST)
    {
      var k := RequestLevel(size);
      if k >= maxLevel {
        NoRunAboveTop(free, blockCount, k);
      } else if k > WIDEST {
        FreeRunIffBlock(free, blockCount, k);
        assert existCount[k] == |AtLevel(free, k)|;
        if exists b :: b in free && b.level >= k {
          var b :| b in free && b.level >= k;
          InsideLevel(b, blockCount);
          assert b in AtLevel(free, k);
        } else {
          assert AtLevel(free, k) == {};
        }
      }
    }

    /**
     Serves a request: the address of the block, or 0. It is 0 exactly when no run of the request's level is
     free, if and only if `Served` holds; otherwise it is 0 although there is room.
     */
    method Allocate(size: nat) returns (address: nat)
      requires Valid() && size < QWORD
      modifies `free, `usedSize, existCount, bitmap, blockLevel
      ensures Valid()
      ensures (address != 0 <==> HasFreeRun(old(free), RequestLevel(size))) <==> old(Served(size))
      ensures !old(Served(size)) ==> address == 0 && HasFreeRun(old(free), RequestLevel(size))
      ensures address == 0 ==> State() == old(State())
      ensures address != 0 ==>
                exists u: nat :: address == startAddress + MIN_SIZE * u
                              && AllocateStep(old(State()), RequestLevel(size), u, State())
    {
      ServedMeans(size);
      var aligned := AdmittedSize(size);
      if aligned == 0 {
        return 0;
      }
      address := Serve(aligned, LevelTried(size));
    }

    /** The aligned size of a request that passes the test for a level and the early capacity test, else 0. */
    method AdmittedSize(size: nat) returns (aligned: nat)
      requires Valid()
      ensures aligned == 0 ==> !(RequestLevel(size) <= WIDEST && HasFreeRun(free, RequestLevel(size)))
      ensures aligned != 0 ==> LevelTried(size) < maxLevel && aligned == IntShift(LevelTried(size))
      ensures aligned != 0 && RequestLevel(size) > WIDEST ==>
                !HasFreeRun(free, LevelTried(size)) && !HasFreeRun(free, RequestLevel(size))
    {
      aligned := GetBuddyBlockSize(size);
      if RequestLevel(size) <= WIDEST {
        DecidedNarrow(size, aligned);
      } else {
        DecidedWide(size, aligned);
      }
      if !WithinCapacity(aligned) {
        return 0;
      }
    }

    /** The early capacity test, in 64-bit arithmetic. */
    predicate WithinCapacity(aligned: nat)
      reads this
    {
      (startAddress + usedSize + aligned) % QWORD <= endAddress
    }

    /** The level that the computed size stands for. */
    ghost function LevelTried(size: nat): nat {
      if RequestLevel(size) <= WIDEST then RequestLevel(size) else WIDEST + 1
    }

    /** A request of level 20 or less is tried at its level, and refused before that only if it cannot be served. */
    lemma DecidedNarrow(size: nat, aligned: nat)
      requires Valid() && aligned == AlignedSize(size, maxLevel) && RequestLevel(size) <= WIDEST
      ensures aligned != 0 ==> RequestLevel(size) < maxLevel && aligned == IntShift(RequestLevel(size))
      ensures HasFreeRun(free, RequestLevel(size)) ==>
                aligned != 0 && WithinCapacity(aligned)
    {
      var k := RequestLevel(size);
      PositiveSize(k);
      if k >= maxLevel {
        NoRunAboveTop(free, blockCount, k);
      } else if HasFreeRun(free, k) {
        CapacityTest(State(), startAddress, endAddress, k);
      }
    }

    /** A higher request that passes both tests is tried at level 21, where it cannot be served. */
    lemma DecidedWide(size: nat, aligned: nat)
      requires Valid() && aligned == AlignedSize(size, maxLevel) && RequestLevel(size) > WIDEST
      ensures aligned != 0 ==> maxLevel == WIDEST + 2 && aligned == IntShift(WIDEST + 1)
      ensures aligned != 0 && WithinCapacity(aligned) ==>
                !HasFreeRun(free, WIDEST + 1) && !HasFreeRun(free, RequestLevel(size))
    {
      var k := WIDEST + 1;
      NoRunAbove(free, blockCount, k, RequestLevel(size));
      if HasFreeRun(free, k) {
        CapacityTest(State(), startAddress, endAddress, k);
        assert aligned != 0 ==> !WithinCapacity(aligned);
      }
    }

    /** Takes a block for an aligned size that passed the capacity test. */
    method Serve(aligned: nat, ghost k: nat) returns (address: nat)
      requires Valid()
      requires k < maxLevel && aligned == IntShift(k) && (HasFreeRun(free, k) ==> k <= WIDEST)
      modifies `free, `usedSize, existCount, bitmap, blockLevel
      ensures Valid()
      ensures address != 0 <==> HasFreeRun(old(free), k)
      ensures address == 0 ==> State() == old(State())
      ensures address != 0 ==>
                exists u: nat :: address == startAddress + MIN_SIZE * u
                              && AllocateStep(old(State()), k, u, State())
    {
      var level := OwnLevelIndex(aligned, k);
      var offset := AllocateBlock(level);
      if offset == -1 {
        assert State() == old(State());
        return 0;
      }
      assert Live() == old(Live());
      address := Record(old(State()), k, offset, aligned, level);
    }

    method MarkUnit(u: nat, level: nat)
      requires Represented() && u < blockCount
      modifies blockLevel
      ensures Represented()
      ensures Live() == if level == NO_BLOCK then old(Live()) - {u} else old(Live())[u := level]
    {
      blockLevel[u] := level;
    }

    method RelativeTo(ghost k: nat, offset: nat, aligned: nat) returns (relative: nat)
      requires k <= WIDEST && aligned == IntShift(k)
      ensures aligned == MIN_SIZE * Pow2(k) && relative == MIN_SIZE * First(Block(k, offset))
      ensures relative / MIN_SIZE == First(Block(k, offset))
    {
      IntShiftValue(k);
      RelativeAddress(k, offset);
      relative := aligned * offset;
    }

    /** Notes the level of the block just taken and adds its size to the used size. */
    method Record(ghost h: Heap, ghost k: nat, offset: nat, aligned: nat, level: nat) returns (address: nat)
      requires Represented() && maxLevel <= WIDEST + 2 && endAddress <= MAX_RAM_SIZE && LevelsComputed()
      requires Inv(h) && h == Heap(blockCount, h.free, Live(), usedSize)
      requires Splitting(h.free, free, Block(k, offset), blockCount)
      requires exists c :: FirstFit(h.free, k, c) && First(c) == First(Block(k, offset))
      requires level == k && aligned == IntShift(k) && (HasFreeRun(h.free, k) ==> k <= WIDEST)
      modifies `usedSize, blockLevel
      ensures Valid()
      ensures HasFreeRun(h.free, k)
      ensures address == startAddress + MIN_SIZE * First(Block(k, offset))
      ensures AllocateStep(h, k, First(Block(k, offset)), State())
    {
      TakenInside(h, k, offset, free);
      var relative := RelativeTo(k, offset, aligned);
      Enter(relative / MIN_SIZE, level, aligned);
      AllocateStepIntro(h, k, offset, free, State());
      return relative + startAddress;
    }

    method Enter(u: nat, level: nat, aligned: nat)
      requires Represented() && u < blockCount && level <= WIDEST
      modifies `usedSize, blockLevel
      ensures Represented() && usedSize == old(usedSize) + aligned && Live() == old(Live())[u := level]
      ensures old(LevelsComputed()) ==> LevelsComputed()
    {
      MarkUnit(u, level);
      usedSize := usedSize + aligned;
    }

    // ----- deallocation

    /** Returns a block to the free set, merging it with free buddies as far up as they go. */
    method FreeBlock(l: nat, o: nat)
      requires Represented() && Coherent(free, blockCount)
      requires Inside(Block(l, o), blockCount)
      requires forall u: nat :: In(u, Block(l, o)) ==> !Covers(free, u)
      modifies `free, existCount, bitmap
      ensures Represented() && Coherent(free, blockCount)
      ensures Gives(old(free), Block(l, o), free)
    {
      ghost var f0, b0 := free, Block(l, o);
      var i, offset := l, o;
      InsideLevel(b0, blockCount);
      while i < maxLevel
        invariant i < maxLevel
        invariant Represented()
        invariant Pending(f0, b0, free, Block(i, offset), blockCount)
        decreases maxLevel - i
      {
        var merged := MergeOnce(i, offset, f0, b0);
        if !merged {
          break;
        }
        offset := offset / 2;
        i := i + 1;
      }
    }

    /** One round of merging: the block is set free, or it and its free buddy give way to their parent. */
    method MergeOnce(level: nat, offset: nat, ghost f0: set<Block>, ghost b0: Block) returns (merged: bool)
      requires Represented() && level < maxLevel
      requires Pending(f0, b0, free, Block(level, offset), blockCount)
      modifies `free, existCount, bitmap
      ensures Represented()
      ensures merged ==> level + 1 < maxLevel && Pending(f0, b0, free, Block(level + 1, offset / 2), blockCount)
      ensures !merged ==> Coherent(free, blockCount) && Gives(f0, b0, free)
    {
      ghost var f, b := free, Block(level, offset);
      BuddyHasBit(b, blockCount);
      SetFlag(level, offset, true);
      var buddy := if offset % 2 == 0 then offset + 1 else offset - 1;
      merged := GetFlag(level, buddy);
      if !merged {
        SettlePending(f0, b0, f, b, blockCount);
        return;
      }
      MergePending(f0, b0, f, blockCount, level, offset);
      SetFlag(level, buddy, false);
      SetFlag(level, offset, false);
    }

    /** Gives back the live block at an address; refuses the null address and units where none starts. */
    method Free(address: nat) returns (ok: bool)
      requires Valid()
      requires address == 0 || startAddress <= address < startAddress + MIN_SIZE * blockCount
      modifies `free, `usedSize, existCount, bitmap, blockLevel
      ensures Valid()
      ensures ok <==> address != 0 && (address - startAddress) / MIN_SIZE in old(Live())
      ensures !ok ==> State() == old(State())
      ensures ok ==> FreeStep(old(State()), (address - startAddress) / MIN_SIZE, State())
    {
      if address == 0 {
        return false;
      }
      var relative := address - startAddress;
      var u := relative / MIN_SIZE;
      if blockLevel[u] == NO_BLOCK {
        return false;
      }
      Release(relative, u);
      return true;
    }

    /** The size of a block of a level and the offset of the one at a relative address. */
    method Locate(relative: nat, level: nat) returns (blockSize: nat, offset: nat)
      requires level <= WIDEST
      ensures blockSize == MIN_SIZE * Pow2(level) && offset == Shr(relative / MIN_SIZE, level)
    {
      IntShiftValue(level);
      BlockOffset(relative, level);
      blockSize := IntShift(level);
      offset := relative / blockSize;
    }

    /** Frees the live block at unit `u`, and takes its size off the used size. */
    method Release(relative: nat, u: nat)
      requires Valid() && u in Live() && relative / MIN_SIZE == u
      modifies `free, `usedSize, existCount, bitmap, blockLevel
      ensures Valid()
      ensures FreeStep(old(State()), u, State())
    {
      ghost var h := State();
      LiveBlockIsTaken(h, u);
      var level := blockLevel[u];
      Unmark(u);
      GiveBack(LiveBlock(u, level), relative, level);
      FreeStepIntro(h, u, State());
    }

    method GiveBack(ghost b: Block, relative: nat, level: nat)
      requires Represented() && Coherent(free, blockCount) && level <= WIDEST
      requires b == LiveBlock(relative / MIN_SIZE, level) && Inside(b, blockCount)
      requires forall x: nat :: In(x, b) ==> !Covers(free, x)
      requires MIN_SIZE * Pow2(level) <= usedSize
      modifies `free, `usedSize, existCount, bitmap
      ensures Represented() && Coherent(free, blockCount) && Gives(old(free), b, free)
      ensures usedSize == old(usedSize) - MIN_SIZE * Pow2(level)
    {
      var blockSize, offset := Locate(relative, level);
      FreeBlock(level, offset);
      usedSize := usedSize - blockSize;
    }

    method Unmark(u: nat)
      requires Represented() && LevelsComputed() && u < blockCount
      modifies blockLevel
      ensures Represented() && LevelsComputed() && Live() == old(Live()) - {u}
    {
      MarkUnit(u, NO_BLOCK);
    }
  }
}
