/**
 Inputs for which the file system falls short: runs from formatting on in which a handle is left out of order,
 because another one makes its file grow or because it seeks past the end within the last cluster, and a cluster
 number behind the link table.
 */
module FileScenarios {
  import opened ClusterChains
  import opened Bytes
  import opened LinkTable
  import opened FileState
  import opened FileImage
  import opened AbstractFiles
  import opened FileSystem
  import opened OpenFiles

  const SECTORS: nat := 20

  lemma FreshHasRoom(fs: FileSystem)
    requires fs.Valid() && fs.totalClusters == FormatClusters(SECTORS) && Flat(fs.sectors)[1] == FREE
    requires fs.directory[0] == DirEntry(0, FREE)
    ensures !fs.NoneFree() && !fs.DirectoryFull()
  {
    assert FormatClusters(SECTORS) == SearchBound(FormatClusters(SECTORS)) == 2;
  }

  lemma HandleLeft(slots: seq<Slot>, k: nat)
    requires k < |slots| && k !in PointersOf(slots)
    ensures !AllTaken(slots)
  {
    assert k in PointersOf(slots) <==> slots[k].inUse;
  }

  lemma CreatedAndOpened(a: Files, f: nat, i: nat, b: Files)
    requires a == Files(map[], map[]) && Does(a, [Created(f)] + OpenedOp(i, f, 0), b)
    ensures b == Files(map[f := []], map[i := Pointer(f, 0)])
  {
    var ops := [Created(f)] + OpenedOp(i, f, 0);
    var created := Step(a, ops[0]);
    assert ops[0] == Created(f) && ops[1..] == [] + OpenedOp(i, f, 0);
    AlsoOpened(created, f, i, b);
    assert created == Files(map[f := []], map[]);
  }

  lemma AlsoOpened(a: Files, f: nat, i: nat, b: Files)
    requires Does(a, [] + OpenedOp(i, f, 0), b)
    ensures i !in a.handles && b == Files(a.contents, a.handles[i := Pointer(f, 0)])
  {
    var ops := [] + OpenedOp(i, f, 0);
    assert ops[0] == Opened(i, f, 0) && ops[1..] == [];
    assert Run(a, ops) == Run(Step(a, ops[0]), ops[1..]);
  }

  /** A small disk with one handle on one empty file. */
  method OneFile(before: seq<Cluster>) returns (t: FileTable, i: nat, entry: nat)
    requires |before| == FormatClusters(SECTORS)
    ensures fresh(t.fs) && forall k :: 0 <= k < |t.pool| ==> fresh(t.pool[k])
    ensures t.Valid() && i < |t.pool|
    ensures t.View() == Files(map[entry := []], map[i := Pointer(entry, 0)])
  {
    t := new FileTable(SECTORS, before);
    FreshHasRoom(t.fs);
    HandleLeft(t.Slots(), 0);
    var slot, found := t.OpenFile(-1, 'w');
    i, entry := slot, found;
    CreatedAndOpened(Files(map[], map[]), entry, i, t.View());
  }

  /**
   Two handles on one empty file, and a byte written through one of them: before the write all handles are in
   order, and after it they are not, because the other handle still has the old size.
   */
  method SharedFileGrows(before: seq<Cluster>) returns (t: FileTable, i: nat, j: nat, entry: nat, ghost a: Files)
    requires |before| == FormatClusters(SECTORS)
    ensures i != j && a == Files(map[entry := []], map[i := Pointer(entry, 0), j := Pointer(entry, 0)]) && InOrder(a)
    ensures !t.Valid()
  {
    t, i, entry := OneFile(before);
    j := OpenAgain(t, i, entry);
    a := t.View();
    GrowShared(t, i, j, entry);
  }

  method GrowShared(t: FileTable, i: nat, j: nat, entry: nat)
    requires t.Valid() && i < |t.pool| && i != j && t.pool[i].inUse
    requires t.View() == Files(map[entry := []], map[i := Pointer(entry, 0), j := Pointer(entry, 0)])
    modifies t.fs, t.pool[i]
    ensures !t.Valid()
  {
    t.InUse(i);
    assert t.View().handles[j].file == entry;
    var items, written := t.WriteFile(i, [1], 1, 1);
  }

  /** Opens the empty file once more. */
  method OpenAgain(t: FileTable, i: nat, entry: nat) returns (j: nat)
    requires t.Valid() && i < |t.pool| && t.View() == Files(map[entry := []], map[i := Pointer(entry, 0)])
    modifies t.fs, t.pool
    ensures t.Valid() && i != j && t.pool[i].inUse
    ensures t.View() == Files(map[entry := []], map[i := Pointer(entry, 0), j := Pointer(entry, 0)])
  {
    ghost var a := t.View();
    assert entry in t.View().contents;
    HandleLeft(t.Slots(), if i == 0 then 1 else 0);
    var slot, found := t.OpenFile(entry, 'r');
    j := slot;
    AlsoOpened(a, entry, j, t.View());
    HandleInUse(t.Slots(), i);
  }

  lemma HandleInUse(slots: seq<Slot>, i: nat)
    requires i in PointersOf(slots)
    ensures i < |slots| && slots[i].inUse
  {
  }

  /** A byte is written to an empty file and a seek goes to offset 2: the handle stands past the end. */
  method SeekPastEnd(before: seq<Cluster>) returns (t: FileTable, i: nat, entry: nat, ghost a: Files)
    requires |before| == FormatClusters(SECTORS)
    ensures a == Files(map[entry := [1]], map[i := Pointer(entry, 1)])
    ensures i < |t.pool| && t.pool[i].offset == 2 && !t.Valid()
  {
    t, i, entry := OneFile(before);
    HandleInUse(t.Slots(), i);
    WriteOne(t, i, entry);
    a := t.View();
    SeekBehind(t, i, entry);
  }

  method WriteOne(t: FileTable, i: nat, entry: nat)
    requires t.Valid() && i < |t.pool| && t.pool[i].inUse
    requires t.View() == Files(map[entry := []], map[i := Pointer(entry, 0)])
    modifies t.fs, t.pool[i]
    ensures t.Valid() && t.pool[i].inUse && t.View() == Files(map[entry := [1]], map[i := Pointer(entry, 1)])
  {
    ghost var a := t.View();
    t.InUse(i);
    var items, written := t.WriteFile(i, [1], 1, 1);
    assert written == 1;
    OneWritten(a, i, entry, [1][..written], t.View());
    HandleInUse(t.Slots(), i);
  }

  lemma OneWritten(a: Files, i: nat, entry: nat, d: seq<byte>, b: Files)
    requires a == Files(map[entry := []], map[i := Pointer(entry, 0)]) && d == [1]
    requires Enabled(a, Put(i, d)) && b == Step(a, Put(i, d))
    ensures b == Files(map[entry := [1]], map[i := Pointer(entry, 1)])
  {
    assert Splice([], 0, d) == [1];
  }

  method SeekBehind(t: FileTable, i: nat, entry: nat)
    requires t.Valid() && i < |t.pool| && t.pool[i].inUse
    requires t.View() == Files(map[entry := [1]], map[i := Pointer(entry, 1)])
    modifies t.fs, t.pool[i]
    ensures t.pool[i].offset == 2 && !t.Valid()
  {
    t.InUse(i);
    var result, zeros := t.SeekFile(i, 2, SeekSet, true);
  }

  /** The first cluster number that has no link is accepted all the same. */
  method LinkBehindTable(fs: FileSystem) returns (ok: bool, c: nat)
    requires fs.Shape()
    modifies fs`temp
    ensures ok && c == LINKS * fs.linkAreaSize == |Flat(fs.sectors)| && c >= fs.totalClusters
  {
    c := LINKS * fs.linkAreaSize;
    var d;
    ok, d := fs.GetClusterLinkData(c);
  }

  /**
   A disk of 1026 sectors is formatted with 128 clusters: no file can be created on it, though all clusters but the
   first are free.
   */
  method FullFromTheStart(before: seq<Cluster>) returns (fs: FileSystem, entry: int)
    requires |before| == FormatClusters(1026)
    ensures fs.Valid() && fs.totalClusters == 128 && fs.NoneFree() && entry == -1
    ensures forall c :: 0 < c < 128 ==> c < |Flat(fs.sectors)| && Flat(fs.sectors)[c] == FREE
  {
    assert FormatClusters(1026) == 128 && SearchBound(128) == 0;
    fs := new FileSystem.Format(1026, before);
    entry := fs.EntryToCreate();
  }

  // ----- laws of seeking

  /** Seeks by a distance that stays inside the file: the handle moves by it and nothing else changes. */
  method SeekBy(t: FileTable, i: nat, distance: int)
    requires t.Valid() && i < |t.pool| && t.pool[i].inUse && 0 <= t.pool[i].offset + distance <= t.pool[i].size
    modifies t.fs, t.pool[i]
    ensures t.Valid() && t.pool[i].inUse && t.pool[i].size == old(t.pool[i].size)
    ensures t.pool[i].offset == old(t.pool[i].offset) + distance && t.pool[i].entry == old(t.pool[i].entry)
    ensures t.View().contents == old(t.View()).contents
    ensures t.View().handles == old(t.View()).handles[i := Pointer(t.pool[i].entry, t.pool[i].offset)]
  {
    t.InUse(i);
    ghost var a, f, size := t.View(), t.pool[i].entry, t.pool[i].size;
    var result, zeros := t.SeekFile(i, distance, SeekCur, true);
    SoughtInside(a, i, t.pool[i].offset, t.View());
    HandleInUse(t.Slots(), i);
    t.InUse(i);
  }

  lemma SoughtInside(a: Files, i: nat, at: nat, b: Files)
    requires Enabled(a, Sought(i, at, 0)) && b == Step(a, Sought(i, at, 0))
    ensures b.contents == a.contents && b.handles == a.handles[i := Pointer(a.handles[i].file, at)]
  {
    var f := a.handles[i].file;
    assert a.contents[f] + Zeros(0) == a.contents[f];
  }

  /** Two seeks inside a file are the one by the sum; a seek there and back changes nothing. */
  method SeekInTwo(t: FileTable, i: nat, d: int, e: int)
    requires t.Valid() && i < |t.pool| && t.pool[i].inUse
    requires 0 <= t.pool[i].offset + d <= t.pool[i].size && 0 <= t.pool[i].offset + d + e <= t.pool[i].size
    modifies t.fs, t.pool[i]
    ensures t.Valid() && t.pool[i].offset == old(t.pool[i].offset) + d + e
    ensures t.View().contents == old(t.View()).contents
    ensures t.View().handles == old(t.View()).handles[i := Pointer(t.pool[i].entry, t.pool[i].offset)]
    ensures t.pool[i].entry == old(t.pool[i].entry) && (d + e == 0 ==> t.View() == old(t.View()))
  {
    t.InUse(i);
    ghost var a := t.View();
    SeekBy(t, i, d);
    ghost var b := t.View();
    SeekBy(t, i, e);
    MovedTwice(a, i, b, t.View());
  }

  lemma MovedTwice(a: Files, i: nat, b: Files, c: Files)
    requires i in a.handles && i in b.handles && i in c.handles && b.contents == a.contents == c.contents
    requires b.handles == a.handles[i := b.handles[i]] && c.handles == b.handles[i := c.handles[i]]
    ensures c.handles == a.handles[i := c.handles[i]] && (c.handles[i] == a.handles[i] ==> c == a)
  {
  }
}
