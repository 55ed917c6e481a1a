/**
 An area of the disk (the cluster link table or the data clusters) behind its cache table: reads,
 writes and flushes as the file system performs them. A disk call either takes effect in full or
 fails, leaving the disk as it was.
 */
module CachedDisk {
  import opened CacheModel
  import opened CacheManager

  /** Room for one line was made: `b` is the area in which `k`, the latest tag, is about to be replaced. */
  ghost predicate Room(a: Area, writeOk: bool, b: Area, k: nat)
    requires Inv(a)
  {
    && k in b.lines && b.order != [] && b.order[|b.order| - 1] == k
    && MakeRoom(a, writeOk) == (b.(lines := b.lines - {k}, order := b.order[..|b.order| - 1]), true)
  }

  lemma RoomByReserving(a: Area, writeOk: bool, b: Area)
    requires Inv(a) && |a.order| < a.capacity && RESERVED_TAG !in a.lines
    requires b.disk == a.disk && b.capacity == a.capacity && b.order == a.order + [RESERVED_TAG]
    requires RESERVED_TAG in b.lines && b.lines - {RESERVED_TAG} == a.lines
    ensures Room(a, writeOk, b, RESERVED_TAG)
  {
    assert b.order[..|b.order| - 1] == a.order;
  }

  lemma RoomByEvicting(a: Area, writeOk: bool, b: Area)
    requires Inv(a) && |a.order| == a.capacity
    requires var v := a.order[0];
             && b == Area(if a.lines[v].changed then a.disk[v := a.lines[v].data] else a.disk,
                          a.lines, Touch(a.order, v), a.capacity)
             && (a.lines[v].changed ==> writeOk)
    ensures Room(a, writeOk, b, a.order[0])
  {
    var v := a.order[0];
    assert b.order[..|b.order| - 1] == Without(a.order, v);
    assert a.lines[v := Line(false, a.lines[v].data)] - {v} == a.lines - {v};
  }

  lemma ReadDone(a: Area, t: nat, readOk: bool, writeOk: bool, b: Area, r: Outcome)
    requires Inv(a) && t < |a.disk| && (b, r) == ReadSpec(a, t, readOk, writeOk)
    ensures Inv(b) && Logical(b) == Logical(a) && (r != Failed ==> r == Read(Logical(a)[t]))
  {
    ReadRefines(a, t, readOk, writeOk);
  }

  /** A tag that was not cached is not cached after making room either. */
  lemma RoomAdmits(a: Area, writeOk: bool, b: Area, k: nat, t: nat)
    requires Inv(a) && Room(a, writeOk, b, k) && t !in a.lines
    ensures t !in b.lines || t == k
  {
    MakeRoomKeeps(a, writeOk);
    assert t in b.lines && t != k ==> t in (b.lines - {k}).Keys;
  }

  class CachedArea {
    var cacheEnable: bool
    const table: CacheTable
    const disk: array<Data>

    /** How often the disk has refused a call. */
    ghost var refusals: nat

    ghost function Repr(): set<object>
      reads this
    {
      {this, table, table.entries, table.buffers, disk}
    }

    ghost predicate Apart()
    {
      disk != table.buffers && disk as object !in {table.entries} && disk.Length <= RESERVED_TAG
    }

    ghost function Abs(): Area
      reads this, table, disk
    {
      Area(disk[..], table.Lines(), table.order, table.entries.Length)
    }

    ghost predicate Valid()
      reads this, table, table.entries, table.buffers, disk
    {
      Apart() && table.Valid() && Inv(Abs()) && (!cacheEnable ==> Abs().lines == map[])
    }

    /** The sectors as the file system sees them. */
    ghost function Contents(): seq<Data>
      reads this, table, disk
    {
      Logical(Abs())
    }

    constructor (sectors: array<Data>, maxCount: nat, enable: bool)
      requires 0 < maxCount < CLOCK_LIMIT && sectors.Length <= RESERVED_TAG
      ensures Valid() && disk == sectors && Contents() == sectors[..]
      ensures Abs() == Empty(sectors[..], maxCount) && cacheEnable == enable
      ensures fresh(table) && fresh(table.entries) && fresh(table.buffers)
    {
      var t := new CacheTable(maxCount);
      table, disk, cacheEnable := t, sectors, enable;
      new;
    }

    // ----- the disk itself

    method DiskRead(tag: nat) returns (ok: bool, d: Data)
      requires tag < disk.Length
      modifies `refusals
      ensures ok ==> d == disk[tag]
      ensures refusals == if ok then old(refusals) else old(refusals) + 1
    {
      ok := *;
      d := if ok then disk[tag] else [];
      refusals := if ok then refusals else refusals + 1;
    }

    method DiskWrite(tag: nat, d: Data) returns (ok: bool)
      requires tag < disk.Length
      modifies disk, `refusals
      ensures refusals == if ok then old(refusals) else old(refusals) + 1
      ensures disk[..] == if ok then old(disk[..])[tag := d] else old(disk[..])
    {
      ok := *;
      if ok {
        disk[tag] := d;
      } else {
        refusals := refusals + 1;
      }
    }

    // ----- making room

    /** An entry to fill: an unused one, or the victim after its changes have been written back. */
    method AllocateWithFlush() returns (r: int, ghost writeOk: bool)
      requires Valid()
      modifies table, table.entries, disk, `refusals
      ensures Apart() && table.Valid() && -1 <= r < table.entries.Length
      ensures refusals >= old(refusals) && (r >= 0 <==> refusals == old(refusals))
      ensures r == -1 ==> (Abs(), false) == MakeRoom(old(Abs()), writeOk)
      ensures r >= 0 ==> Room(old(Abs()), writeOk, Abs(), table.entries[r].tag)
    {
      writeOk := true;
      r := table.Allocate();
      if r != -1 {
        RoomByReserving(old(Abs()), writeOk, Abs());
        return;
      }
      r, writeOk := EvictWithFlush();
    }

    method EvictWithFlush() returns (r: int, ghost writeOk: bool)
      requires Valid() && table.clock < CLOCK_LIMIT && |table.order| == table.entries.Length
      modifies table, table.entries, disk, `refusals
      ensures Apart() && table.Valid() && -1 <= r < table.entries.Length
      ensures refusals >= old(refusals) && (r >= 0 <==> refusals == old(refusals))
      ensures r == -1 ==> (Abs(), false) == MakeRoom(old(Abs()), writeOk)
      ensures r >= 0 ==> Room(old(Abs()), writeOk, Abs(), table.entries[r].tag)
    {
      writeOk := true;
      r := table.Victim();
      if r == -1 {
        return;
      }
      table.CellOf(r);
      ghost var v := table.entries[r].tag;
      assert v in table.Lines();
      if !table.entries[r].changed {
        RoomByEvicting(old(Abs()), writeOk, Abs());
        return;
      }
      var written := WriteVictim(old(Abs()), r);
      writeOk := written;
      if !written {
        r := -1;
      }
    }

    /** Writes the least recently used line back, so that its entry can be reused. */
    method WriteVictim(ghost a: Area, r: nat) returns (ok: bool)
      requires Apart() && table.Valid() && r < table.entries.Length && table.entries[r].tag in table.cells
      requires Inv(a) && |a.order| == a.capacity && a.order[0] == table.entries[r].tag && a.lines[a.order[0]].changed
      requires Abs() == a.(order := Touch(a.order, a.order[0]))
      modifies disk, `refusals
      ensures Apart() && table.Valid() && refusals >= old(refusals) && (ok <==> refusals == old(refusals))
      ensures ok ==> Room(a, ok, Abs(), table.entries[r].tag)
      ensures !ok ==> (Abs(), false) == MakeRoom(a, ok)
    {
      table.CellOf(r);
      ok := DiskWrite(table.entries[r].tag, table.buffers[table.entries[r].buffer]);
      if ok {
        RoomByEvicting(a, ok, Abs());
      }
    }

    /** Fills the entry just made available: the new line is installed as the most recent. */
    method FillRoom(ghost a: Area, ghost writeOk: bool, r: nat, tag: nat, d: Data, changed: bool)
      requires Apart() && table.Valid() && r < table.entries.Length && tag < disk.Length
      requires Inv(a) && Room(a, writeOk, Abs(), table.entries[r].tag) && tag !in a.lines
      modifies table, table.entries, table.buffers
      ensures Apart() && table.Valid()
      ensures Abs() == Install(MakeRoom(a, writeOk).0, tag, Line(changed, d))
    {
      RoomAdmits(a, writeOk, Abs(), table.entries[r].tag, tag);
      assert table.entries[r].tag in table.cells;
      table.Fill(r, tag, d, changed);
    }

    // ----- reading and writing

    /** The cached read: a hit, or the sector from the disk kept in a clean line. */
    method ReadWithCache(tag: nat) returns (ok: bool, d: Data, ghost readOk: bool, ghost writeOk: bool)
      requires Valid() && cacheEnable && tag < disk.Length
      modifies table, table.entries, table.buffers, disk, `refusals
      ensures Apart() && table.Valid()
      ensures ok <==> refusals == old(refusals)
      ensures (Abs(), if ok then Read(d) else Failed) == ReadSpec(old(Abs()), tag, readOk, writeOk)
    {
      readOk, writeOk := true, true;
      var r := table.Find(tag);
      if r >= 0 {
        table.CellOf(r);
        return true, table.buffers[table.entries[r].buffer], true, true;
      }
      ghost var a := Abs();
      assert a == old(Abs());
      ok, d := DiskRead(tag);
      readOk := ok;
      if !ok {
        return;
      }
      r, writeOk := AllocateWithFlush();
      if r == -1 {
        ok := false;
        return;
      }
      FillRoom(a, writeOk, r, tag, d, false);
    }

    /** The cached write: the line is changed and the disk is left for later. */
    method WriteWithCache(tag: nat, d: Data) returns (ok: bool, ghost writeOk: bool)
      requires Valid() && cacheEnable && tag < disk.Length
      modifies table, table.entries, table.buffers, disk, `refusals
      ensures Apart() && table.Valid()
      ensures ok <==> refusals == old(refusals)
      ensures (Abs(), if ok then Written else Failed) == WriteSpec(old(Abs()), tag, d, writeOk)
    {
      ok, writeOk := true, true;
      var r := table.Find(tag);
      if r >= 0 {
        FillHit(old(Abs()), r, tag, d);
        return;
      }
      ghost var a := Abs();
      assert a == old(Abs());
      r, writeOk := AllocateWithFlush();
      if r == -1 {
        ok := false;
        return;
      }
      FillRoom(a, writeOk, r, tag, d, true);
    }

    method FillHit(ghost a: Area, r: nat, tag: nat, d: Data)
      requires Apart() && table.Valid() && r < table.entries.Length && tag < disk.Length
      requires Inv(a) && tag in a.lines && table.entries[r].tag == tag
      requires Abs() == a.(order := Touch(a.order, tag))
      modifies table, table.entries, table.buffers
      ensures Apart() && table.Valid()
      ensures Abs() == a.(lines := a.lines[tag := Line(true, d)], order := Touch(a.order, tag))
    {
      table.Fill(r, tag, d, true);
      MapPut(a.lines, tag, Line(true, d));
      assert Touch(a.order, tag)[..|Touch(a.order, tag)| - 1] + [tag] == Touch(a.order, tag);
    }

    /** Reads a sector: never a change to the contents, and on success what they hold. */
    method ReadSector(tag: nat) returns (ok: bool, d: Data)
      requires Valid() && tag < disk.Length
      modifies table, table.entries, table.buffers, disk, `refusals
      ensures Valid() && Contents() == old(Contents())
      ensures ok <==> refusals == old(refusals)
      ensures ok ==> d == Contents()[tag]
    {
      if !cacheEnable {
        ok, d := DiskRead(tag);
      } else {
        ghost var r, w;
        ok, d, r, w := ReadWithCache(tag);
        ReadDone(old(Abs()), tag, r, w, Abs(), if ok then Read(d) else Failed);
      }
    }

    /** Writes a sector: on success exactly that sector changes, on failure nothing does. */
    method WriteSector(tag: nat, d: Data) returns (ok: bool)
      requires Valid() && tag < disk.Length
      modifies table, table.entries, table.buffers, disk, `refusals
      ensures Valid()
      ensures ok <==> refusals == old(refusals)
      ensures Contents() == if ok then old(Contents())[tag := d] else old(Contents())
    {
      if !cacheEnable {
        ok := DiskWrite(tag, d);
        assert Abs() == old(Abs()).(disk := disk[..]);
      } else {
        ghost var w;
        ok, w := WriteWithCache(tag, d);
        WriteRefines(old(Abs()), tag, d, w);
      }
    }

    // ----- flushing

    /** Writes every changed line back; afterwards, if all writes succeed, the disk holds the contents. */
    method Flush() returns (ok: bool, ghost cleaned: seq<nat>)
      requires Valid()
      modifies table`cells, table.entries, disk, `refusals
      ensures Valid() && Contents() == old(Contents())
      ensures ok <==> refusals == old(refusals)
      ensures AllCached(old(Abs()), cleaned) && Abs() == CleanedAll(old(Abs()), cleaned)
      ensures ok ==> disk[..] == Contents()
    {
      ghost var a := Abs();
      cleaned := [];
      var i := 0;
      while i < table.entries.Length
        invariant 0 <= i <= table.entries.Length
        invariant Valid() && Contents() == old(Contents()) && refusals == old(refusals)
        invariant AllCached(a, cleaned) && Abs() == CleanedAll(a, cleaned) && Abs().lines.Keys == a.lines.Keys
        invariant table.CleanBelow(i)
      {
        if table.entries[i].changed {
          ok, cleaned := WriteBackNext(i, a, cleaned);
          if !ok {
            return;
          }
        } else {
          table.UnchangedCell(i);
        }
        i := i + 1;
      }
      ok := true;
      AllClean();
    }

    lemma AllClean()
      requires Valid() && table.CleanBelow(table.entries.Length)
      ensures disk[..] == Contents()
    {
      forall t | t in Abs().lines ensures !Abs().lines[t].changed {
        table.AllClean(t);
      }
      CleanMeansFlushed(Abs());
    }

    method WriteBackNext(i: nat, ghost a: Area, ghost ts: seq<nat>) returns (ok: bool, ghost cleaned: seq<nat>)
      requires Valid() && i < table.entries.Length && table.entries[i].changed && table.CleanBelow(i)
      requires AllCached(a, ts) && Abs() == CleanedAll(a, ts) && Abs().lines.Keys == a.lines.Keys
      modifies table`cells, table.entries, disk, `refusals
      ensures Valid() && Contents() == old(Contents())
      ensures refusals >= old(refusals) && (ok <==> refusals == old(refusals))
      ensures AllCached(a, cleaned) && Abs() == CleanedAll(a, cleaned) && Abs().lines.Keys == a.lines.Keys
      ensures ok ==> table.CleanBelow(i + 1)
    {
      ghost var t := table.entries[i].tag;
      ok := WriteBack(i);
      cleaned := ts;
      if ok {
        CleanedNextArea(a, ts, t, old(Abs()), Abs());
        cleaned := ts + [t];
      }
    }

    method WriteBack(i: nat) returns (ok: bool)
      requires Valid() && i < table.entries.Length && table.entries[i].changed && table.CleanBelow(i)
      modifies table`cells, table.entries, disk, `refusals
      ensures Valid() && Contents() == old(Contents()) && table.order == old(table.order)
      ensures refusals >= old(refusals) && (ok <==> refusals == old(refusals))
      ensures ok ==> table.CleanBelow(i + 1)
      ensures var t := old(table.entries[i].tag);
              && t in old(Abs()).lines && t < |old(Abs()).disk|
              && Abs() == if ok then Cleaned(old(Abs()), t) else old(Abs())
    {
      table.ChangedIsValid(i);
      table.CellOf(i);
      assert table.entries[i].tag in table.Lines();
      ghost var a := Abs();
      ok := DiskWrite(table.entries[i].tag, table.buffers[table.entries[i].buffer]);
      if ok {
        MarkClean(a, i);
      } else {
        assert Abs() == a;
      }
    }

    method MarkClean(ghost a: Area, i: nat)
      requires Apart() && table.Valid() && i < table.entries.Length && Inv(a) && table.CleanBelow(i)
      requires table.entries[i].tag != INVALID_TAG
      requires var t := table.entries[i].tag;
               && t in a.lines && Abs() == a.(disk := a.disk[t := a.lines[t].data])
      requires !cacheEnable ==> a.lines == map[]
      modifies table`cells, table.entries
      ensures Valid() && Contents() == Logical(a) && table.order == old(table.order)
      ensures table.CleanBelow(i + 1)
      ensures old(table.entries[i].tag) < |a.disk| && Abs() == Cleaned(a, old(table.entries[i].tag))
    {
      ghost var t := table.entries[i].tag;
      table.Clean(i);
      CleanedKeeps(a, t);
      assert Abs() == Cleaned(a, t);
    }
  }

  /**
   Flushes the link table area and then the data area; false at the first write that fails. `locked` tells
   that the file system's mutex is left locked, which is so exactly on failure.
   */
  method FlushFileSystemCache(link: CachedArea, data: CachedArea)
    returns (ok: bool, locked: bool, ghost linkCleaned: seq<nat>, ghost dataCleaned: seq<nat>)
    requires link.Valid() && data.Valid() && link.cacheEnable == data.cacheEnable
    requires link.Repr() !! data.Repr()
    modifies link.table`cells, link.table.entries, link.disk, link`refusals
    modifies data.table`cells, data.table.entries, data.disk, data`refusals
    ensures link.Valid() && data.Valid()
    ensures link.Contents() == old(link.Contents()) && data.Contents() == old(data.Contents())
    ensures link.Abs() == CleanedAll(old(link.Abs()), linkCleaned)
            && data.Abs() == CleanedAll(old(data.Abs()), dataCleaned)
    ensures ok ==> link.disk[..] == link.Contents() && data.disk[..] == data.Contents()
    ensures ok <==> link.refusals == old(link.refusals) && data.refusals == old(data.refusals)
    ensures locked <==> !ok
  {
    linkCleaned, dataCleaned := [], [];
    if !link.cacheEnable {
      CleanMeansFlushed(link.Abs());
      CleanMeansFlushed(data.Abs());
      return true, false, [], [];
    }
    locked := true;
    ok, linkCleaned := link.Flush();
    if !ok {
      return;
    }
    ok, dataCleaned := data.Flush();
    if !ok {
      return;
    }
    locked := false;
  }
}
