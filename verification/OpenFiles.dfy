/**
 The file system with its pool of handles: opening, closing, reading, writing, seeking and removing with any
 number of files open. Each operation is a step on the files as their user sees them, and the exact condition
 is stated under which every handle stays in order.
 */
module OpenFiles {
  import opened Words
  import opened ClusterChains
  import opened FileImage
  import opened Bytes
  import opened LinkTable
  import opened FileState
  import opened FileSystem
  import opened AbstractFiles

  const HANDLES: nat := 1024 * 3

  // ----- the files as a map

  ghost function AllContents(clusters: seq<Cluster>, chains: Chains, directory: seq<DirEntry>): map<nat, seq<byte>> {
    map f | f in chains :: ContentOf(clusters, chains, directory, f)
  }

  lemma OneFileChanged(cl0: seq<Cluster>, ch0: Chains, dir0: seq<DirEntry>, size0: nat,
                       cl1: seq<Cluster>, ch1: Chains, dir1: seq<DirEntry>, size1: nat, f: nat)
    requires OnlyFile(cl0, ch0, dir0, size0, cl1, ch1, dir1, size1, f) && f in ch0
    ensures AllContents(cl1, ch1, dir1) == AllContents(cl0, ch0, dir0)[f := ContentOf(cl1, ch1, dir1, f)]
  {
    forall g | g in ch0 && g != f ensures ContentOf(cl1, ch1, dir1, g) == ContentOf(cl0, ch0, dir0, g) {
      assert Unchanged(cl0, ch0, dir0, cl1, ch1, dir1, g);
    }
  }

  lemma OneFileEmptied(clusters: seq<Cluster>, ch0: Chains, dir0: seq<DirEntry>, ch1: Chains, dir1: seq<DirEntry>,
                       f: nat)
    requires FilesKept(clusters, ch0, dir0, ch1, dir1, f) && ch1.Keys == ch0.Keys + {f}
    requires ContentOf(clusters, ch1, dir1, f) == []
    ensures AllContents(clusters, ch1, dir1) == AllContents(clusters, ch0, dir0)[f := []]
  {
  }

  lemma OneFileRemoved(clusters: seq<Cluster>, ch0: Chains, dir0: seq<DirEntry>, ch1: Chains, dir1: seq<DirEntry>,
                       f: nat)
    requires FilesKept(clusters, ch0, dir0, ch1, dir1, f) && ch1.Keys == ch0.Keys - {f}
    ensures AllContents(clusters, ch1, dir1) == AllContents(clusters, ch0, dir0) - {f}
  {
  }

  ghost predicate SizesFit(directory: seq<DirEntry>) {
    forall i :: 0 <= i < |directory| ==> directory[i].size < DWORD
  }

  lemma SizesStillFit(ch0: Chains, dir0: seq<DirEntry>, ch1: Chains, dir1: seq<DirEntry>, f: int)
    requires SizesFit(dir0) && OthersSame(ch0, dir0, ch1, dir1, f) && |dir1| == |dir0|
    requires 0 <= f < |dir1| ==> dir1[f].size < DWORD
    ensures SizesFit(dir1)
  {
    forall i | 0 <= i < |dir1| ensures dir1[i].size < DWORD {
      if i != f {
        assert SameFile(ch0, dir0, ch1, dir1, i);
      }
    }
  }

  // ----- the handle pool as a value

  datatype Slot = Slot(inUse: bool, state: HandleState)

  ghost predicate SlotFits(chains: Chains, directory: seq<DirEntry>, slot: Slot) {
    slot.inUse ==> HandleFits(chains, directory, slot.state)
  }

  /** Every handle in use, except perhaps `i`, is in order. */
  ghost predicate AllFit(chains: Chains, directory: seq<DirEntry>, slots: seq<Slot>, i: int) {
    forall j :: 0 <= j < |slots| && j != i ==> SlotFits(chains, directory, slots[j])
  }

  ghost function PointersOf(slots: seq<Slot>): map<nat, Pointer> {
    map i: nat | i < |slots| && slots[i].inUse :: Pointer(slots[i].state.entry, slots[i].state.offset)
  }

  ghost predicate AllTaken(slots: seq<Slot>) {
    forall j :: 0 <= j < |slots| ==> slots[j].inUse
  }

  ghost predicate FirstFree(slots: seq<Slot>, i: int) {
    0 <= i < |slots| && !slots[i].inUse && forall j :: 0 <= j < i ==> slots[j].inUse
  }

  /** No other handle in use is on file `f`. */
  ghost predicate NoOther(slots: seq<Slot>, i: int, f: nat) {
    forall j :: 0 <= j < |slots| && j != i && slots[j].inUse ==> slots[j].state.entry != f
  }

  lemma PointerSet(slots: seq<Slot>, i: nat, slot: Slot)
    requires i < |slots|
    ensures slot.inUse ==>
              PointersOf(slots[i := slot]) == PointersOf(slots)[i := Pointer(slot.state.entry, slot.state.offset)]
    ensures !slot.inUse ==> PointersOf(slots[i := slot]) == PointersOf(slots) - {i}
  {
  }

  lemma SlotSetIff(chains: Chains, directory: seq<DirEntry>, slots: seq<Slot>, i: nat, slot: Slot)
    requires i < |slots|
    ensures AllFit(chains, directory, slots[i := slot], -1)
            <==> AllFit(chains, directory, slots, i) && SlotFits(chains, directory, slot)
  {
    var slots' := slots[i := slot];
    assert slots'[i] == slot && forall j :: 0 <= j < |slots| && j != i ==> slots'[j] == slots[j];
    if AllFit(chains, directory, slots', -1) {
      assert SlotFits(chains, directory, slots'[i]);
      forall j | 0 <= j < |slots| && j != i ensures SlotFits(chains, directory, slots[j]) {
        assert SlotFits(chains, directory, slots'[j]);
      }
    }
  }

  /**
   Handles on other files stay in order when one file changes; those on the same file exactly if it keeps its
   size.
   */
  lemma OthersFitIff(ch0: Chains, dir0: seq<DirEntry>, ch1: Chains, dir1: seq<DirEntry>, f: nat,
                     slots: seq<Slot>, i: int)
    requires AllFit(ch0, dir0, slots, i) && OthersSame(ch0, dir0, ch1, dir1, f) && f < |dir0| == |dir1|
    requires dir1[f].size == dir0[f].size ==> ch1 == ch0 && dir1 == dir0
    ensures AllFit(ch1, dir1, slots, i) <==> dir1[f].size == dir0[f].size || NoOther(slots, i, f)
  {
    if dir1[f].size != dir0[f].size {
      forall j | 0 <= j < |slots| && j != i
        ensures SlotFits(ch1, dir1, slots[j]) <==> !slots[j].inUse || slots[j].state.entry != f
      {
        assert SlotFits(ch0, dir0, slots[j]);
        if slots[j].inUse && slots[j].state.entry != f {
          assert SameFile(ch0, dir0, ch1, dir1, slots[j].state.entry);
        }
      }
    }
  }

  /** Handles on other files stay in order whatever happens to a file that has none. */
  lemma FitOthers(ch0: Chains, dir0: seq<DirEntry>, ch1: Chains, dir1: seq<DirEntry>, f: nat, slots: seq<Slot>)
    requires AllFit(ch0, dir0, slots, -1) && OthersSame(ch0, dir0, ch1, dir1, f) && NoOther(slots, -1, f)
    ensures AllFit(ch1, dir1, slots, -1)
  {
    forall j | 0 <= j < |slots| ensures SlotFits(ch1, dir1, slots[j]) {
      assert SlotFits(ch0, dir0, slots[j]);
      if slots[j].inUse {
        assert SameFile(ch0, dir0, ch1, dir1, slots[j].state.entry);
      }
    }
  }

  lemma FitAfterCreating(ch0: Chains, dir0: seq<DirEntry>, ch1: Chains, dir1: seq<DirEntry>, f: nat, slots: seq<Slot>)
    requires AllFit(ch0, dir0, slots, -1) && OthersSame(ch0, dir0, ch1, dir1, f) && f !in ch0
    ensures AllFit(ch1, dir1, slots, -1)
  {
    forall j | 0 <= j < |slots| && slots[j].inUse ensures slots[j].state.entry != f {
      assert SlotFits(ch0, dir0, slots[j]);
    }
    FitOthers(ch0, dir0, ch1, dir1, f, slots);
  }

  lemma FreeSlotFits(chains: Chains, directory: seq<DirEntry>, slots: seq<Slot>, i: nat)
    requires i < |slots| && !slots[i].inUse
    ensures AllFit(chains, directory, slots, i) <==> AllFit(chains, directory, slots, -1)
  {
    if AllFit(chains, directory, slots, i) {
      forall j | 0 <= j < |slots| ensures SlotFits(chains, directory, slots[j]) {
      }
    }
  }

  /** Whether another handle is on the same file, as the user sees it. */
  lemma AloneMeans(slots: seq<Slot>, contents: map<nat, seq<byte>>, i: nat)
    requires i < |slots| && slots[i].inUse
    ensures i in PointersOf(slots)
    ensures Alone(Files(contents, PointersOf(slots)), i) <==> NoOther(slots, i, slots[i].state.entry)
  {
    var p := PointersOf(slots);
    assert forall j: nat :: j in p <==> j < |slots| && slots[j].inUse;
  }

  lemma HasHandleMeans(slots: seq<Slot>, contents: map<nat, seq<byte>>, f: nat)
    ensures HasHandle(Files(contents, PointersOf(slots)), f) <==> !NoOther(slots, -1, f)
  {
    var p := PointersOf(slots);
    assert forall j: nat :: j in p <==> j < |slots| && slots[j].inUse;
    if !NoOther(slots, -1, f) {
      var j :| 0 <= j < |slots| && slots[j].inUse && slots[j].state.entry == f;
      assert j in p && p[j].file == f;
    }
  }

  /** What is seen of a file system whose handles are in order is in order. */
  lemma SeenInOrder(clusters: seq<Cluster>, chains: Chains, directory: seq<DirEntry>, slots: seq<Slot>)
    requires AllFit(chains, directory, slots, -1)
    requires forall f :: f in chains && f < |directory| ==>
               |ContentOf(clusters, chains, directory, f)| == directory[f].size
    ensures InOrder(Files(AllContents(clusters, chains, directory), PointersOf(slots)))
  {
    var p := PointersOf(slots);
    forall i | i in p
      ensures p[i].file in chains && p[i].offset <= |ContentOf(clusters, chains, directory, p[i].file)|
    {
      assert SlotFits(chains, directory, slots[i]);
    }
  }

  // ----- operations as steps on the files

  lemma PutStep(a: Files, i: nat, d: seq<byte>, p: Pointer, c: seq<byte>, b: Files)
    requires InOrder(a) && i in a.handles && p == Pointer(a.handles[i].file, a.handles[i].offset + |d|)
    requires Alone(a, i) || p.offset <= |a.contents[p.file]|
    requires c == Splice(a.contents[p.file], a.handles[i].offset, d)
    requires b.contents == a.contents[p.file := c] && b.handles == a.handles[i := p]
    ensures Enabled(a, Put(i, d)) && b == Step(a, Put(i, d))
  {
  }

  lemma SoughtStep(a: Files, i: nat, z: nat, p: Pointer, c: seq<byte>, b: Files)
    requires InOrder(a) && i in a.handles && p.file == a.handles[i].file && (Alone(a, i) || z == 0)
    requires c == a.contents[p.file] + Zeros(z) && p.offset <= |c|
    requires b.contents == a.contents[p.file := c] && b.handles == a.handles[i := p]
    ensures Enabled(a, Sought(i, p.offset, z)) && b == Step(a, Sought(i, p.offset, z))
  {
  }

  lemma TookStep(a: Files, i: nat, d: seq<byte>, p: Pointer, b: Files)
    requires InOrder(a) && i in a.handles && Reads(a.contents[a.handles[i].file], a.handles[i].offset, d)
    requires p == Pointer(a.handles[i].file, a.handles[i].offset + |d|)
    requires b.contents == a.contents && b.handles == a.handles[i := p]
    ensures Enabled(a, Took(i, d)) && b == Step(a, Took(i, d))
  {
  }

  lemma EmptiedStep(a: Files, f: nat, b: Files)
    requires InOrder(a) && f in a.contents && (HasHandle(a, f) ==> a.contents[f] == [])
    requires b.contents == a.contents[f := []] && b.handles == a.handles
    ensures Does(a, [Emptied(f)], b)
  {
    OneOp(a, Emptied(f), b);
  }

  lemma CreatedStep(a: Files, f: nat, b: Files)
    requires InOrder(a) && f !in a.contents && b.contents == a.contents[f := []] && b.handles == a.handles
    ensures Does(a, [Created(f)], b)
  {
    OneOp(a, Created(f), b);
  }

  lemma OpenedStep(a: Files, i: nat, p: Pointer, b: Files)
    requires InOrder(a) && i !in a.handles && p.file in a.contents && p.offset <= |a.contents[p.file]|
    requires b.contents == a.contents && b.handles == a.handles[i := p]
    ensures Enabled(a, Opened(i, p.file, p.offset)) && b == Step(a, Opened(i, p.file, p.offset))
  {
  }

  lemma OneOp(a: Files, op: Op, b: Files)
    requires Enabled(a, op) && b == Step(a, op)
    ensures Does(a, [op], b)
  {
    assert [op][1..] == [];
  }

  /** One operation more, after a run. */
  lemma {:induction false} RunThen(a: Files, ops: seq<Op>, op: Op)
    requires AllEnabled(a, ops) && Enabled(Run(a, ops), op)
    ensures AllEnabled(a, ops + [op]) && Run(a, ops + [op]) == Step(Run(a, ops), op)
    decreases |ops|
  {
    if ops == [] {
      OneOp(a, op, Step(a, op));
      assert ops + [op] == [op];
    } else {
      RunThen(Step(a, ops[0]), ops[1..], op);
      assert (ops + [op])[1..] == ops[1..] + [op];
    }
  }

  ghost function OpenedOp(i: int, entry: int, at: nat): seq<Op> {
    if i >= 0 && entry >= 0 then [Opened(i, entry, at)] else []
  }

  /** The operations can be carried out one after the other, and lead from `a` to `b`. */
  ghost predicate Does(a: Files, ops: seq<Op>, b: Files) {
    AllEnabled(a, ops) && b == Run(a, ops)
  }

  lemma DoesThen(a: Files, ops: seq<Op>, b: Files, i: nat, entry: nat, at: nat, c: Files)
    requires Does(a, ops, b) && Enabled(b, Opened(i, entry, at)) && c == Step(b, Opened(i, entry, at))
    ensures Does(a, ops + OpenedOp(i, entry, at), c)
  {
    RunThen(a, ops, Opened(i, entry, at));
  }

  lemma DoesOnly(a: Files, ops: seq<Op>, b: Files, entry: int, at: nat)
    requires Does(a, ops, b)
    ensures Does(a, ops + OpenedOp(-1, entry, at), b)
  {
    assert ops + [] == ops;
  }

  /** What finding, creating or emptying the file to open means to the user. */
  ghost function EntryOps(found: int, mode: char, entry: int): seq<Op> {
    if entry < 0 then []
    else if found == -1 then [Created(entry)]
    else if mode == 'w' then [Emptied(entry)]
    else []
  }

  /** The first directory entry that no file has. */
  ghost predicate FirstUnused(a: Files, entry: nat) {
    entry !in a.contents && forall f: nat :: f < entry ==> f in a.contents
  }

  /** What is seen after a file has been opened: nothing but the file itself and the handle has changed. */
  lemma OpeningMeans(a: Files, found: int, mode: char, entry: int, i: int, at: nat, b: Files)
    requires entry >= -1 && i >= -1 && (found != -1 ==> entry == found) && (i >= 0 ==> entry >= 0)
    requires Does(a, EntryOps(found, mode, entry) + OpenedOp(i, entry, at), b)
    ensures b.contents == if entry >= 0 && (found == -1 || mode == 'w') then a.contents[entry := []] else a.contents
    ensures b.handles == if i >= 0 then a.handles[i := Pointer(entry, at)] else a.handles
  {
    var first, second := EntryOps(found, mode, entry), OpenedOp(i, entry, at);
    var ops := first + second;
    if first == [] {
      assert ops == second;
      RunOfOne(a, second);
    } else {
      assert ops[0] == first[0] && ops[1..] == second;
      RunOfOne(Step(a, ops[0]), second);
    }
  }

  lemma RunOfOne(a: Files, ops: seq<Op>)
    requires |ops| <= 1 && AllEnabled(a, ops)
    ensures Run(a, ops) == if ops == [] then a else Step(a, ops[0])
  {
    if ops != [] {
      assert ops[1..] == [];
    }
  }

  class FileTable {
    const fs: FileSystem
    const pool: seq<FileHandle>

    ghost predicate Pool() {
      |pool| == HANDLES && forall i, j :: 0 <= i < j < |pool| ==> pool[i] != pool[j]
    }

    ghost function Slots(): seq<Slot>
      reads pool
    {
      seq(|pool|, i requires 0 <= i < |pool| reads pool => Slot(pool[i].inUse, pool[i].State()))
    }

    ghost predicate Base()
      reads fs
    {
      Pool() && fs.Valid() && SizesFit(fs.directory)
    }

    /** The file system is in order, and so is every handle in use. */
    ghost predicate Valid()
      reads fs, pool
    {
      Base() && AllFit(fs.chains, fs.directory, Slots(), -1)
    }

    ghost function View(): Files
      reads fs, pool
    {
      Files(AllContents(fs.clusters, fs.chains, fs.directory), PointersOf(Slots()))
    }

    lemma ViewInOrder()
      requires Valid()
      ensures InOrder(View())
    {
      forall f | f in fs.chains && f < |fs.directory|
        ensures |ContentOf(fs.clusters, fs.chains, fs.directory, f)| == fs.directory[f].size
      {
        fs.ContentLength(f);
      }
      SeenInOrder(fs.clusters, fs.chains, fs.directory, Slots());
    }

    lemma InUse(i: nat)
      requires Valid() && i < |pool| && pool[i].inUse
      ensures fs.Open(pool[i]) && |fs.Content(pool[i].entry)| == pool[i].size
      ensures pool[i].entry in View().contents && View().contents[pool[i].entry] == fs.Content(pool[i].entry)
      ensures i in View().handles && View().handles[i] == Pointer(pool[i].entry, pool[i].offset)
    {
      assert SlotFits(fs.chains, fs.directory, Slots()[i]);
      fs.OpenIff(pool[i]);
      fs.ContentLength(pool[i].entry);
    }

    /** A freshly formatted disk with no handle in use. */
    constructor (totalSectors: nat, before: seq<Cluster>)
      requires 10 <= totalSectors < DWORD && |before| == FormatClusters(totalSectors)
      ensures Valid() && View() == Files(map[], map[])
      ensures fresh(fs) && forall k :: 0 <= k < |pool| ==> fresh(pool[k])
      ensures forall f :: 0 <= f < |fs.directory| ==> fs.directory[f] == DirEntry(0, FREE)
      ensures fs.totalClusters == FormatClusters(totalSectors)
      ensures forall c :: 0 < c < fs.totalClusters ==> c < |Flat(fs.sectors)| && Flat(fs.sectors)[c] == FREE
    {
      var f := new FileSystem.Format(totalSectors, before);
      var handles := FreeHandles(HANDLES);
      fs, pool := f, handles;
    }

    static method FreeHandles(n: nat) returns (r: seq<FileHandle>)
      ensures |r| == n && (forall i, j :: 0 <= i < j < n ==> r[i] != r[j])
      ensures forall i :: 0 <= i < n ==> fresh(r[i]) && !r[i].inUse
    {
      r := [];
      for i := 0 to n
        invariant |r| == i && (forall j, k :: 0 <= j < k < i ==> r[j] != r[k])
        invariant forall j :: 0 <= j < i ==> fresh(r[j]) && !r[j].inUse
      {
        var h := new FileHandle();
        r := r + [h];
      }
    }

    // ----- reading

    /** Reads through a handle: the bytes of its file at its offset, as many as were asked for or remain. */
    method ReadFile(i: nat, buffer: array<byte>, itemSize: nat, count: nat) returns (items: nat, ghost got: nat)
      requires Valid() && i < |pool| && itemSize > 0 && buffer as object != fs && buffer as object !in pool
      requires itemSize * count <= buffer.Length && itemSize * count < DWORD
      modifies fs, pool[i], buffer
      ensures Valid() && got <= buffer.Length && buffer[got..] == old(buffer[got..])
      ensures WholeItems(items, got, itemSize, count)
      ensures !old(pool[i].inUse) ==> got == 0 && View() == old(View())
      ensures old(pool[i].inUse) ==>
                && old(pool[i].offset) <= old(pool[i].size)
                && got == Min(itemSize * count, old(pool[i].size) - old(pool[i].offset))
                && Enabled(old(View()), Took(i, buffer[..got])) && View() == Step(old(View()), Took(i, buffer[..got]))
    {
      if !pool[i].inUse {
        return 0, 0;
      }
      items, got := ReadOpen(i, buffer, itemSize, count);
    }

    method ReadOpen(i: nat, buffer: array<byte>, itemSize: nat, count: nat) returns (items: nat, ghost got: nat)
      requires Valid() && i < |pool| && pool[i].inUse && itemSize > 0
      requires buffer as object != fs && buffer as object !in pool
      requires itemSize * count <= buffer.Length && itemSize * count < DWORD
      modifies fs, pool[i], buffer
      ensures Valid() && got <= buffer.Length && WholeItems(items, got, itemSize, count)
      ensures buffer[got..] == old(buffer[got..])
      ensures old(pool[i].offset) <= old(pool[i].size)
      ensures got == Min(itemSize * count, old(pool[i].size) - old(pool[i].offset))
      ensures Enabled(old(View()), Took(i, buffer[..got])) && View() == Step(old(View()), Took(i, buffer[..got]))
    {
      ghost var slots, a := Slots(), View();
      ViewInOrder();
      InUse(i);
      items, got := ReadThrough(i, buffer, itemSize, count);
      SlotsNow(slots, i);
      Replaced(slots, i);
      TookStep(a, i, buffer[..got], Pointer(pool[i].entry, pool[i].offset), View());
    }

    method ReadThrough(i: nat, buffer: array<byte>, itemSize: nat, count: nat) returns (items: nat, ghost got: nat)
      requires Pool() && i < |pool| && fs.Open(pool[i]) && itemSize > 0
      requires buffer as object != fs && buffer as object !in pool
      requires itemSize * count <= buffer.Length && itemSize * count < DWORD
      modifies fs, pool[i], buffer
      ensures got <= buffer.Length && WholeItems(items, got, itemSize, count) && buffer[got..] == old(buffer[got..])
      ensures old(pool[i].offset) <= old(pool[i].size)
              && got == Min(itemSize * count, old(pool[i].size) - old(pool[i].offset))
      ensures fs.Valid() && fs.clusters == old(fs.clusters) && fs.chains == old(fs.chains)
              && fs.directory == old(fs.directory)
      ensures pool[i].inUse == old(pool[i].inUse) && HandleFits(fs.chains, fs.directory, pool[i].State())
      ensures pool[i].entry == old(pool[i].entry) && pool[i].offset == old(pool[i].offset) + got
      ensures Reads(old(fs.Content(pool[i].entry)), old(pool[i].offset), buffer[..got])
    {
      items, got := fs.ReadFile(pool[i], buffer, itemSize, count);
      fs.OpenIff(pool[i]);
    }

    /** Only slot `i` of the pool has changed. */
    lemma SlotsNow(slots: seq<Slot>, i: nat)
      requires |slots| == |pool| && i < |pool|
      requires forall j :: 0 <= j < |pool| && j != i ==> slots[j] == Slot(pool[j].inUse, pool[j].State())
      ensures Slots() == slots[i := Slot(pool[i].inUse, pool[i].State())]
    {
    }

    lemma Replaced(slots: seq<Slot>, i: nat)
      requires i < |pool| == |slots| && pool[i].inUse
      requires Slots() == slots[i := Slot(true, pool[i].State())]
      ensures AllFit(fs.chains, fs.directory, Slots(), -1)
              <==> AllFit(fs.chains, fs.directory, slots, i) && HandleFits(fs.chains, fs.directory, pool[i].State())
      ensures PointersOf(Slots()) == PointersOf(slots)[i := Pointer(pool[i].entry, pool[i].offset)]
    {
      PointerSet(slots, i, Slot(true, pool[i].State()));
      SlotSetIff(fs.chains, fs.directory, slots, i, Slot(true, pool[i].State()));
    }

    /** After a change to one file through handle `i`: what is in order, and what is seen of the handles. */
    lemma Judged(slots: seq<Slot>, contents: map<nat, seq<byte>>, chains0: Chains, directory0: seq<DirEntry>, i: nat,
                 f: nat)
      requires Base() && i < |pool| == |slots| && slots[i].inUse && pool[i].inUse
      requires slots[i].state.entry == f == pool[i].entry
      requires Slots() == slots[i := Slot(true, pool[i].State())]
      requires AllFit(chains0, directory0, slots, -1) && OthersSame(chains0, directory0, fs.chains, fs.directory, f)
      requires f < |directory0| == |fs.directory|
      requires fs.directory[f].size == directory0[f].size ==> fs.chains == chains0 && fs.directory == directory0
      ensures i in PointersOf(slots)
      ensures Valid() <==>
                && HandleFits(fs.chains, fs.directory, pool[i].State())
                && (fs.directory[f].size == directory0[f].size || Alone(Files(contents, PointersOf(slots)), i))
      ensures PointersOf(Slots()) == PointersOf(slots)[i := Pointer(f, pool[i].offset)]
    {
      OthersFitIff(chains0, directory0, fs.chains, fs.directory, f, slots, i);
      Replaced(slots, i);
      AloneMeans(slots, contents, i);
    }

    // ----- seeking

    /**
     Moves a handle, extending the file by zeros if the target lies in a later cluster than its end. Every
     handle is in order afterwards exactly if the target does not lie past the end in the end's own cluster,
     and the file is not extended or no other handle is on it.
     */
    method SeekFile(i: nat, distance: int, origin: Origin, memoryAvailable: bool)
      returns (result: int, ghost written: nat)
      requires Valid() && i < |pool|
      modifies fs, pool[i]
      ensures result == 0
      ensures !old(pool[i].inUse) ==> written == 0 && Valid() && View() == old(View())
      ensures old(pool[i].inUse) ==>
                && i in old(View()).handles
                && var size := old(pool[i].size);
                   var target := SeekTarget(size, old(pool[i].offset), distance, origin);
                && SeekEnds(size, target, memoryAvailable, old(fs.NoneFree()), written, pool[i].offset, fs.NoneFree())
                && (distance < DWORD ==>
                      SeekLands(size, old(pool[i].offset), distance, origin, memoryAvailable, fs.NoneFree(),
                                pool[i].offset, written))
                && (Valid() <==>
                      && SeekStays(size, target)
                      && (SeekGrows(size, target, memoryAvailable, old(fs.NoneFree())) ==> old(Alone(View(), i))))
                && (Valid() ==> Enabled(old(View()), Sought(i, pool[i].offset, written))
                                && View() == Step(old(View()), Sought(i, pool[i].offset, written)))
    {
      if !pool[i].inUse {
        return 0, 0;
      }
      ghost var size, at, none := pool[i].size, pool[i].offset, fs.NoneFree();
      InUse(i);
      result, written := SeekOpen(i, distance, origin, memoryAvailable);
      if distance < DWORD {
        SeekMeans(size, at, distance, origin, memoryAvailable, none, written, pool[i].offset, fs.NoneFree());
      }
    }

    method SeekOpen(i: nat, distance: int, origin: Origin, memoryAvailable: bool)
      returns (result: int, ghost written: nat)
      requires Valid() && i < |pool| && pool[i].inUse
      modifies fs, pool[i]
      ensures result == 0 && i in old(View()).handles
      ensures var size := old(pool[i].size);
              var target := SeekTarget(size, old(pool[i].offset), distance, origin);
              && SeekEnds(size, target, memoryAvailable, old(fs.NoneFree()), written, pool[i].offset, fs.NoneFree())
              && (Valid() <==> SeekStays(size, target) && (written == 0 || old(Alone(View(), i))))
      ensures Valid() ==> Enabled(old(View()), Sought(i, pool[i].offset, written))
                          && View() == Step(old(View()), Sought(i, pool[i].offset, written))
    {
      ghost var slots, a, f := Slots(), View(), pool[i].entry;
      ghost var chains0, directory0 := fs.chains, fs.directory;
      ViewInOrder();
      InUse(i);
      result, written := SeekThrough(i, distance, origin, memoryAvailable);
      SlotsNow(slots, i);
      SeekJudged(a, slots, chains0, directory0, i, f, written);
    }

    /** File `f`, whose contents were `content`, has been extended by `z` zeros through handle `i`, which is on it. */
    ghost predicate Extended(i: nat, f: nat, content: seq<byte>, contents: map<nat, seq<byte>>,
                             chains0: Chains, directory0: seq<DirEntry>, z: nat)
      requires i < |pool|
      reads fs, pool[i]
    {
      && Base() && pool[i].inUse && pool[i].entry == f
      && OthersSame(chains0, directory0, fs.chains, fs.directory, f) && f < |directory0| == |fs.directory|
      && fs.directory[f].size == directory0[f].size + z
      && (z == 0 ==> fs.chains == chains0 && fs.directory == directory0)
      && |content| == directory0[f].size && fs.Content(f) == content + Zeros(z)
      && AllContents(fs.clusters, fs.chains, fs.directory) == contents[f := fs.Content(f)]
    }

    /** After a seek through handle `i`: whether all handles are in order, and what is seen. */
    lemma SeekJudged(a: Files, slots: seq<Slot>, chains0: Chains, directory0: seq<DirEntry>, i: nat, f: nat, z: nat)
      requires i < |pool| == |slots| && slots[i].inUse && slots[i].state.entry == f && f in a.contents
      requires Extended(i, f, a.contents[f], a.contents, chains0, directory0, z)
      requires Slots() == slots[i := Slot(true, pool[i].State())]
      requires AllFit(chains0, directory0, slots, -1) && InOrder(a) && a.handles == PointersOf(slots)
      ensures i in a.handles
      ensures Valid() <==> HandleFits(fs.chains, fs.directory, pool[i].State()) && (z == 0 || Alone(a, i))
      ensures Valid() ==> Enabled(a, Sought(i, pool[i].offset, z)) && View() == Step(a, Sought(i, pool[i].offset, z))
    {
      Judged(slots, a.contents, chains0, directory0, i, f);
      assert a == Files(a.contents, PointersOf(slots));
      if Valid() {
        SoughtStep(a, i, z, Pointer(f, pool[i].offset), fs.Content(f), View());
      }
    }

    method SeekThrough(i: nat, distance: int, origin: Origin, memoryAvailable: bool)
      returns (result: int, ghost written: nat)
      requires Base() && i < |pool| && pool[i].inUse && fs.Open(pool[i])
      modifies fs, pool[i]
      ensures result == 0
      ensures var size := old(pool[i].size);
              var target := SeekTarget(size, old(pool[i].offset), distance, origin);
              && SeekEnds(size, target, memoryAvailable, old(fs.NoneFree()), written, pool[i].offset, fs.NoneFree())
              && (HandleFits(fs.chains, fs.directory, pool[i].State()) <==> SeekStays(size, target))
      ensures Extended(i, old(pool[i].entry), old(fs.Content(pool[i].entry)),
                       old(AllContents(fs.clusters, fs.chains, fs.directory)), old(fs.chains), old(fs.directory),
                       written)
    {
      ghost var f, size0 := pool[i].entry, pool[i].size;
      ghost var clusters0, chains0, directory0 := fs.clusters, fs.chains, fs.directory;
      fs.OpenIff(pool[i]);
      fs.ContentLength(f);
      result, written := fs.SeekFile(pool[i], distance, origin, memoryAvailable);
      ExtendedNow(i, clusters0, chains0, directory0, size0, old(fs.Content(pool[i].entry)), written);
      fs.OpenIff(pool[i]);
    }

    lemma ExtendedNow(i: nat, clusters0: seq<Cluster>, chains0: Chains, directory0: seq<DirEntry>, size0: nat,
                      content: seq<byte>, z: nat)
      requires Pool() && i < |pool| && pool[i].inUse && fs.Positioned(pool[i])
      requires |fs.chains[pool[i].entry]| == ChainLength(pool[i].size)
      requires fs.directory[pool[i].entry].size == pool[i].size < DWORD
      requires OnlyFile(clusters0, chains0, directory0, size0, fs.clusters, fs.chains, fs.directory, pool[i].size,
                        pool[i].entry)
      requires pool[i].entry in chains0 && pool[i].entry < |directory0| == |fs.directory| && SizesFit(directory0)
      requires |content| == size0 == directory0[pool[i].entry].size && pool[i].size == size0 + z
      requires fs.Content(pool[i].entry) == content + Zeros(z)
      ensures Extended(i, pool[i].entry, content, AllContents(clusters0, chains0, directory0), chains0, directory0, z)
    {
      SizesStillFit(chains0, directory0, fs.chains, fs.directory, pool[i].entry);
      OneFileChanged(clusters0, chains0, directory0, size0, fs.clusters, fs.chains, fs.directory, pool[i].size,
                     pool[i].entry);
    }

    // ----- closing

    /** Gives a handle back; -1 if it is not in use. */
    method CloseFile(i: nat) returns (result: int)
      requires Valid() && i < |pool|
      modifies pool[i]
      ensures Valid() && (result == 0 <==> old(pool[i].inUse)) && (result == 0 || result == -1)
      ensures result == -1 ==> View() == old(View())
      ensures result == 0 ==> Enabled(old(View()), Closed(i)) && View() == Step(old(View()), Closed(i))
    {
      if !pool[i].inUse {
        return -1;
      }
      ghost var slots := Slots();
      ViewInOrder();
      InUse(i);
      pool[i].inUse := false;
      SlotsNow(slots, i);
      PointerSet(slots, i, Slot(false, pool[i].State()));
      SlotSetIff(fs.chains, fs.directory, slots, i, Slot(false, pool[i].State()));
      return 0;
    }

    // ----- opening

    ghost predicate Untouched(a: Files, found: int, mode: char) {
      found < 0 || mode != 'w' || !HasHandle(a, found) || (found in a.contents && a.contents[found] == [])
    }

    /**
     Opens the file that the name lookup found, -1 if none: creates it unless reading, empties it when writing,
     and stands at its end when appending. The handle is the first free one; without one nothing is opened,
     though a file may already have been created or emptied. Every handle is in order afterwards exactly if
     no open file that holds something has been emptied.
     */
    method OpenFile(found: int, mode: char) returns (i: int, entry: int)
      requires Valid() && (found == -1 || found in fs.chains)
      modifies fs, pool
      ensures entry == -1 <==> found == -1 && (mode == 'r' || old(fs.NoneFree()) || old(fs.DirectoryFull()))
      ensures entry >= -1 && (found != -1 ==> entry == found)
      ensures found == -1 && entry >= 0 ==> FirstUnused(old(View()), entry)
      ensures i == -1 <==> entry == -1 || AllTaken(old(Slots()))
      ensures i != -1 ==> 0 <= i < |pool| && FirstFree(old(Slots()), i)
      ensures Valid() <==> Untouched(old(View()), found, mode)
      ensures Valid() ==>
                Does(old(View()),
                     EntryOps(found, mode, entry) + OpenedOp(i, entry, if i >= 0 then pool[i].offset else 0),
                     View())
      ensures i >= 0 && Valid() ==>
                && entry in View().contents
                && pool[i].offset == if mode == 'a' then |View().contents[entry]| else 0
      ensures Valid() ==>
                && View().contents == (if entry >= 0 && (found == -1 || mode == 'w')
                                       then old(View()).contents[entry := []] else old(View()).contents)
                && View().handles == (if i >= 0 then old(View()).handles[i := Pointer(entry, pool[i].offset)]
                                      else old(View()).handles)
    {
      ghost var a, ops := View(), [];
      entry := EnterFile(found, mode);
      ops := EntryOps(found, mode, entry);
      ghost var b := View();
      if entry == -1 {
        if Valid() {
          DoesOnly(a, ops, b, entry, 0);
          OpeningMeans(a, found, mode, -1, -1, 0, View());
        }
        return -1, -1;
      }
      i := TakeHandle(entry, mode);
      if Valid() {
        if i == -1 {
          DoesOnly(a, ops, b, entry, 0);
        } else {
          DoesThen(a, ops, b, i, entry, pool[i].offset, View());
        }
        OpeningMeans(a, found, mode, entry, i, if i >= 0 then pool[i].offset else 0, View());
      }
    }

    /** The first part of opening: the file is there, emptied if it is to be written, or it is created. */
    method EnterFile(found: int, mode: char) returns (entry: int)
      requires Valid() && (found == -1 || found in fs.chains)
      modifies fs
      ensures Base() && entry >= -1 && (entry != -1 ==> entry in fs.chains) && (found != -1 ==> entry == found)
      ensures Slots() == old(Slots())
      ensures entry == -1 <==> found == -1 && (mode == 'r' || old(fs.NoneFree()) || old(fs.DirectoryFull()))
      ensures Valid() <==> Untouched(old(View()), found, mode)
      ensures Valid() ==> Does(old(View()), EntryOps(found, mode, entry), View())
      ensures found == -1 && entry >= 0 ==> FirstUnused(old(View()), entry)
    {
      if found != -1 && mode == 'w' {
        EmptyFile(found);
        entry := found;
      } else if found == -1 && mode != 'r' {
        entry := CreateFile();
      } else {
        entry := found;
      }
    }

    method EmptyFile(f: nat)
      requires Valid() && f in fs.chains
      modifies fs
      ensures Base() && f in fs.chains && Slots() == old(Slots())
      ensures Valid() <==> Untouched(old(View()), f, 'w')
      ensures Valid() ==> Does(old(View()), [Emptied(f)], View())
    {
      ghost var a, slots := View(), Slots();
      ghost var clusters0, chains0, directory0 := fs.clusters, fs.chains, fs.directory;
      ViewInOrder();
      fs.ContentLength(f);
      HasHandleMeans(slots, a.contents, f);
      fs.EmptyEntry(f);
      SizesStillFit(chains0, directory0, fs.chains, fs.directory, f);
      OneFileEmptied(fs.clusters, chains0, directory0, fs.chains, fs.directory, f);
      OthersFitIff(chains0, directory0, fs.chains, fs.directory, f, slots, -1);
      if Valid() {
        EmptiedStep(a, f, View());
      }
    }

    method CreateFile() returns (entry: int)
      requires Valid()
      modifies fs
      ensures Base() && entry >= -1 && Slots() == old(Slots()) && Valid()
      ensures entry == -1 <==> old(fs.NoneFree()) || old(fs.DirectoryFull())
      ensures entry == -1 ==> View() == old(View())
      ensures entry != -1 ==> entry in fs.chains && Does(old(View()), [Created(entry)], View())
      ensures entry != -1 ==> FirstUnused(old(View()), entry)
    {
      ghost var a, slots := View(), Slots();
      ghost var chains0, directory0 := fs.chains, fs.directory;
      ViewInOrder();
      entry := fs.EntryToCreate();
      if entry == -1 {
        return;
      }
      CreatedNow(a, slots, chains0, directory0, entry);
    }

    /** A new file of entry `f` is there, empty, and nothing else has changed. */
    lemma CreatedNow(a: Files, slots: seq<Slot>, chains0: Chains, directory0: seq<DirEntry>, f: nat)
      requires Pool() && fs.Valid() && SizesFit(directory0) && Slots() == slots && InOrder(a)
      requires AllFit(chains0, directory0, slots, -1) && f !in chains0 && fs.chains.Keys == chains0.Keys + {f}
      requires a == Files(AllContents(fs.clusters, chains0, directory0), PointersOf(slots))
      requires OthersSame(chains0, directory0, fs.chains, fs.directory, f)
      requires FilesKept(fs.clusters, chains0, directory0, fs.chains, fs.directory, f)
      requires f < |fs.directory| == |directory0| && fs.Content(f) == [] && fs.directory[f].size == 0
      ensures Valid() && Does(a, [Created(f)], View())
    {
      SizesStillFit(chains0, directory0, fs.chains, fs.directory, f);
      OneFileEmptied(fs.clusters, chains0, directory0, fs.chains, fs.directory, f);
      FitAfterCreating(chains0, directory0, fs.chains, fs.directory, f, slots);
      CreatedStep(a, f, View());
    }

    method FindFreeHandle() returns (i: int)
      ensures i == -1 <==> AllTaken(Slots())
      ensures i != -1 ==> 0 <= i < |pool| && FirstFree(Slots(), i)
    {
      assert forall k :: 0 <= k < |pool| ==> Slots()[k].inUse == pool[k].inUse;
      for j := 0 to |pool|
        invariant forall k :: 0 <= k < j ==> pool[k].inUse
      {
        if !pool[j].inUse {
          return j;
        }
      }
      return -1;
    }

    /** The second part of opening: the first free handle is set up, at the file's end when appending. */
    method TakeHandle(entry: nat, mode: char) returns (i: int)
      requires Base() && entry in fs.chains
      modifies fs, pool
      ensures Base() && (i == -1 <==> AllTaken(old(Slots())))
      ensures i == -1 ==> View() == old(View())
      ensures i != -1 ==> 0 <= i < |pool| && FirstFree(old(Slots()), i)
      ensures Valid() <==> old(Valid())
      ensures i != -1 && Valid() ==>
                && entry in View().contents && pool[i].offset == (if mode == 'a' then |View().contents[entry]| else 0)
                && Enabled(old(View()), Opened(i, entry, pool[i].offset))
                && View() == Step(old(View()), Opened(i, entry, pool[i].offset))
    {
      i := FindFreeHandle();
      if i == -1 {
        return;
      }
      ghost var slots, a := Slots(), View();
      if Valid() {
        ViewInOrder();
      }
      SetUpHandle(i, entry, mode);
      SlotsNow(slots, i);
      Replaced(slots, i);
      FreeSlotFits(fs.chains, fs.directory, slots, i);
      if Valid() {
        OpenedStep(a, i, Pointer(entry, pool[i].offset), View());
      }
    }

    method SetUpHandle(i: nat, entry: nat, mode: char)
      requires Base() && entry in fs.chains && i < |pool|
      modifies fs, pool[i]
      ensures Base() && pool[i].inUse && pool[i].entry == entry
      ensures HandleFits(fs.chains, fs.directory, pool[i].State())
      ensures fs.chains == old(fs.chains) && fs.directory == old(fs.directory)
      ensures AllContents(fs.clusters, fs.chains, fs.directory)
              == old(AllContents(fs.clusters, fs.chains, fs.directory))
      ensures pool[i].offset == if mode == 'a' then |fs.Content(entry)| else 0
    {
      fs.ContentLength(entry);
      pool[i].inUse := true;
      fs.InitHandle(pool[i], entry);
      fs.OpenIff(pool[i]);
      if mode == 'a' {
        ghost var clusters0, chains0, directory0, size0 := fs.clusters, fs.chains, fs.directory, pool[i].size;
        fs.SeekToEnd(pool[i]);
        fs.OpenIff(pool[i]);
        OneFileChanged(clusters0, chains0, directory0, size0, fs.clusters, fs.chains, fs.directory, pool[i].size,
                       entry);
      }
    }

    // ----- removing

    /** Whether a handle in use has this start cluster: for a file's start cluster, whether one is on the file. */
    method IsFileOpened(start: nat, ghost entry: nat) returns (r: bool)
      requires Valid() && entry in fs.chains && start == fs.directory[entry].start
      ensures r <==> HasHandle(View(), entry)
    {
      HasHandleMeans(Slots(), View().contents, entry);
      for i := 0 to |pool|
        invariant forall j :: 0 <= j < i && pool[j].inUse ==> pool[j].entry != entry
      {
        if pool[i].inUse {
          SameStart(i, entry);
          if pool[i].start == start {
            assert Slots()[i].state.entry == entry;
            return true;
          }
        }
      }
      assert NoOther(Slots(), -1, entry);
      return false;
    }

    /** Files have different start clusters. */
    lemma SameStart(i: nat, entry: nat)
      requires Valid() && i < |pool| && pool[i].inUse && entry in fs.chains
      ensures entry < |fs.directory| && (pool[i].start == fs.directory[entry].start <==> pool[i].entry == entry)
    {
      assert SlotFits(fs.chains, fs.directory, Slots()[i]);
      ChainsShareNothing(Flat(fs.sectors), fs.totalClusters, fs.chains, fs.places, pool[i].entry, 0, entry, 0);
    }

    /** Removes the file that the name lookup found, unless it is open. */
    method RemoveFile(entry: int) returns (result: int)
      requires Valid() && (entry == -1 || entry in fs.chains)
      modifies fs
      ensures Valid() && (result == 0 || result == -1)
      ensures result == 0 <==> entry != -1 && !HasHandle(old(View()), entry)
      ensures result == -1 ==> View() == old(View())
      ensures result == 0 ==> Enabled(old(View()), Removed(entry)) && View() == Step(old(View()), Removed(entry))
    {
      if entry == -1 {
        return -1;
      }
      var isOpen := IsFileOpened(fs.directory[entry].start, entry);
      if isOpen {
        return -1;
      }
      ghost var chains0, directory0 := fs.chains, fs.directory;
      ViewInOrder();
      HasHandleMeans(Slots(), View().contents, entry);
      var ok := fs.FreeFile(entry);
      SizesStillFit(chains0, directory0, fs.chains, fs.directory, entry);
      FitOthers(chains0, directory0, fs.chains, fs.directory, entry, Slots());
      OneFileRemoved(fs.clusters, chains0, directory0, fs.chains, fs.directory, entry);
      return 0;
    }

    // ----- writing

    /**
     Writes through a handle: the file is spliced with the bytes that found room. Every handle is in order
     afterwards exactly if no other one is on the file or the file has not grown.
     */
    method WriteFile(i: nat, buffer: seq<byte>, itemSize: nat, count: nat) returns (items: nat, ghost written: nat)
      requires Valid() && i < |pool| && itemSize > 0 && |buffer| == itemSize * count
      requires pool[i].inUse ==> pool[i].offset + |buffer| < DWORD
      modifies fs, pool[i]
      ensures written <= |buffer|
      ensures WholeItems(items, written, itemSize, count)
      ensures !old(pool[i].inUse) ==> written == 0 && Valid() && View() == old(View())
      ensures old(pool[i].inUse) ==>
                && (written < |buffer| ==> fs.NoneFree())
                && (old(pool[i].offset) + written <= old(pool[i].size)
                    <==> KeepsSize(old(pool[i].size), old(pool[i].offset), |buffer|, old(fs.NoneFree())))
                && i in old(View()).handles
                && (Valid() <==>
                      || old(Alone(View(), i))
                      || KeepsSize(old(pool[i].size), old(pool[i].offset), |buffer|, old(fs.NoneFree())))
                && (Valid() ==> Enabled(old(View()), Put(i, buffer[..written]))
                                && View() == Step(old(View()), Put(i, buffer[..written])))
    {
      if !pool[i].inUse {
        return 0, 0;
      }
      items, written := WriteOpen(i, buffer, itemSize, count);
    }

    method WriteOpen(i: nat, buffer: seq<byte>, itemSize: nat, count: nat) returns (items: nat, ghost written: nat)
      requires Valid() && i < |pool| && pool[i].inUse && itemSize > 0 && |buffer| == itemSize * count
      requires pool[i].offset + |buffer| < DWORD
      modifies fs, pool[i]
      ensures written <= |buffer| && WholeItems(items, written, itemSize, count)
      ensures written < |buffer| ==> fs.NoneFree()
      ensures i in old(View()).handles
      ensures old(pool[i].offset) + written <= old(pool[i].size)
              <==> KeepsSize(old(pool[i].size), old(pool[i].offset), |buffer|, old(fs.NoneFree()))
      ensures Valid() <==>
                || old(Alone(View(), i))
                || KeepsSize(old(pool[i].size), old(pool[i].offset), |buffer|, old(fs.NoneFree()))
      ensures Valid() ==> Enabled(old(View()), Put(i, buffer[..written]))
                          && View() == Step(old(View()), Put(i, buffer[..written]))
    {
      ghost var slots, a, f := Slots(), View(), pool[i].entry;
      ghost var chains0, directory0 := fs.chains, fs.directory;
      ViewInOrder();
      InUse(i);
      items, written := WriteThrough(i, buffer, itemSize, count);
      SlotsNow(slots, i);
      WriteJudged(a, slots, chains0, directory0, i, f, buffer[..written]);
    }

    /** Handle `i` has written `d` at `at` to file `f`, whose contents were `content`. */
    ghost predicate WroteTo(i: nat, f: nat, content: seq<byte>, contents: map<nat, seq<byte>>,
                            chains0: Chains, directory0: seq<DirEntry>, at: nat, d: seq<byte>)
      requires i < |pool|
      reads fs, pool[i]
    {
      && Base() && pool[i].inUse && pool[i].entry == f && HandleFits(fs.chains, fs.directory, pool[i].State())
      && OthersSame(chains0, directory0, fs.chains, fs.directory, f) && f < |directory0| == |fs.directory|
      && (fs.directory[f].size == directory0[f].size ==> fs.chains == chains0 && fs.directory == directory0)
      && |content| == directory0[f].size && at <= |content| && pool[i].offset == at + |d|
      && fs.directory[f].size == Max(directory0[f].size, pool[i].offset)
      && fs.Content(f) == Splice(content, at, d)
      && AllContents(fs.clusters, fs.chains, fs.directory) == contents[f := fs.Content(f)]
    }

    /** After a write through handle `i`: whether all handles are in order, and what is seen. */
    lemma WriteJudged(a: Files, slots: seq<Slot>, chains0: Chains, directory0: seq<DirEntry>, i: nat, f: nat,
                      d: seq<byte>)
      requires i < |pool| == |slots| && slots[i].inUse && slots[i].state.entry == f && f in a.contents
      requires WroteTo(i, f, a.contents[f], a.contents, chains0, directory0, slots[i].state.offset, d)
      requires Slots() == slots[i := Slot(true, pool[i].State())]
      requires AllFit(chains0, directory0, slots, -1) && InOrder(a) && a.handles == PointersOf(slots)
      ensures i in a.handles
      ensures Valid() <==> Alone(a, i) || fs.directory[f].size == directory0[f].size
      ensures Valid() ==> Enabled(a, Put(i, d)) && View() == Step(a, Put(i, d))
    {
      Judged(slots, a.contents, chains0, directory0, i, f);
      assert a == Files(a.contents, PointersOf(slots));
      if Valid() {
        PutStep(a, i, d, Pointer(f, pool[i].offset), fs.Content(f), View());
      }
    }

    method WriteThrough(i: nat, buffer: seq<byte>, itemSize: nat, count: nat) returns (items: nat, ghost written: nat)
      requires Base() && i < |pool| && pool[i].inUse && fs.Open(pool[i]) && itemSize > 0 && |buffer| == itemSize * count
      requires pool[i].offset + |buffer| < DWORD
      modifies fs, pool[i]
      ensures written <= |buffer| && WholeItems(items, written, itemSize, count)
      ensures written < |buffer| ==> fs.NoneFree()
      ensures WroteTo(i, old(pool[i].entry), old(fs.Content(pool[i].entry)),
                      old(AllContents(fs.clusters, fs.chains, fs.directory)),
                      old(fs.chains), old(fs.directory), old(pool[i].offset), buffer[..written])
      ensures fs.directory[old(pool[i].entry)].size == old(fs.directory)[old(pool[i].entry)].size
              <==> KeepsSize(old(pool[i].size), old(pool[i].offset), |buffer|, old(fs.NoneFree()))
    {
      ghost var f, size0 := pool[i].entry, pool[i].size;
      ghost var clusters0, chains0, directory0 := fs.clusters, fs.chains, fs.directory;
      fs.OpenIff(pool[i]);
      fs.ContentLength(f);
      items, written := fs.WriteFile(pool[i], buffer, itemSize, count);
      fs.OpenIff(pool[i]);
      SizesStillFit(chains0, directory0, fs.chains, fs.directory, f);
      OneFileChanged(clusters0, chains0, directory0, size0, fs.clusters, fs.chains, fs.directory, pool[i].size, f);
    }
  }
}
