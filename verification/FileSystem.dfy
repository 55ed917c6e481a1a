/**
 The file system over its logical sectors: the cluster link table, the data clusters, the directory
 and file handles. Disk calls succeed here; the cache and its failures are treated beneath, in
 `CachedDisk`.
 */
module FileSystem {
  import opened Words
  import opened ClusterChains
  import opened FileImage
  import opened Bytes
  import opened LinkTable
  import opened FileState

  method CopyBytes(dst: array<byte>, at: nat, src: seq<byte>)
    requires at + |src| <= dst.Length
    modifies dst
    ensures dst[at..at + |src|] == src
    ensures dst[..at] == old(dst[..at]) && dst[at + |src|..] == old(dst[at + |src|..])
  {
    for i := 0 to |src|
      invariant dst[at..at + i] == src[..i]
      invariant dst[..at] == old(dst[..at]) && dst[at + |src|..] == old(dst[at + |src|..])
    {
      dst[at + i] := src[i];
    }
  }

  /** A slot of the handle pool. */
  class FileHandle {
    var inUse: bool
    var entry: nat
    var size: nat
    var start: nat
    var current: nat
    var previous: nat
    var offset: nat

    constructor ()
      ensures !inUse
    {
      inUse := false;
    }

    ghost function State(): HandleState
      reads this
    {
      HandleState(entry, size, start, current, previous, offset)
    }
  }

  class FileSystem {
    var linkAreaSize: nat
    var totalClusters: nat
    var lastSector: nat
    var sectors: seq<Sector>
    var clusters: seq<Cluster>
    var directory: seq<DirEntry>
    var temp: Cluster
    ghost var chains: Chains
    ghost var places: Places

    ghost predicate Shape()
      reads this
    {
      && totalClusters > 0
      && linkAreaSize == (totalClusters + LINKS - 1) / LINKS == |sectors|
      && lastSector < linkAreaSize
      && |clusters| == totalClusters
      && |directory| == MAX_ENTRIES
    }

    ghost predicate Linked()
      reads this
    {
      Shape() && Mapped(Flat(sectors), totalClusters, chains, places)
    }

    ghost predicate Valid()
      reads this
    {
      Linked() && Entries(directory, chains) && Sizes(directory, chains, chains.Keys)
    }

    // ----- formatting

    /** Lays out a file system on a disk of `totalSectors` sectors; `before` is what the data clusters held. */
    constructor Format(totalSectors: nat, before: seq<Cluster>)
      requires 10 <= totalSectors < DWORD && |before| == FormatClusters(totalSectors)
      ensures Valid() && chains == map[] && lastSector == 0
      ensures forall i :: 0 <= i < |directory| ==> directory[i] == DirEntry(0, FREE)
      ensures totalClusters == FormatClusters(totalSectors) && linkAreaSize == SectorCount(totalClusters)
      ensures forall c :: 0 < c < totalClusters ==> c < |Flat(sectors)| && Flat(sectors)[c] == FREE
    {
      FormatFits(totalSectors);
      var maxClusters := totalSectors / SECTORS_PER_CLUSTER;
      var linkSectors := (maxClusters + 127) / 128;
      var remaining := (totalSectors - 1 - linkSectors) % DWORD;
      var count := remaining / SECTORS_PER_CLUSTER;
      linkSectors := (count + 127) / 128;
      var zero: Sector := seq(LINKS, _ => FREE);
      var ss: seq<Sector> := [];
      for i := 0 to linkSectors
        invariant |ss| == i
        invariant forall k :: 0 <= k < i ==> ss[k] == if k == 0 then zero[0 := LAST] else zero
      {
        ss := ss + [if i == 0 then zero[0 := LAST] else zero];
      }
      FormattedLinks(ss, zero);
      totalClusters, linkAreaSize, lastSector := count, linkSectors, 0;
      sectors := ss;
      clusters := before[0 := Zeros(CLUSTER)];
      directory := seq(MAX_ENTRIES, _ => DirEntry(0, FREE));
      temp := Zeros(CLUSTER);
      chains, places := map[], map[];
    }

    // ----- link table access

    /**
     Reading a link sector goes through the temporary buffer, which afterwards holds other bytes. The sector
     just behind the link table is the first one of the root directory, whose bytes are not modelled.
     */
    method ReadClusterLinkTable(s: nat) returns (words: Sector)
      requires s <= |sectors|
      modifies `temp
      ensures s < |sectors| ==> words == sectors[s]
    {
      if s < |sectors| {
        words := sectors[s];
      } else {
        words := *;
      }
      temp := *;
    }

    method WriteClusterLinkTable(s: nat, words: Sector)
      requires s < |sectors|
      modifies `sectors
      ensures sectors == old(sectors)[s := words]
    {
      sectors := sectors[s := words];
    }

    method SetClusterLinkData(c: nat, d: nat)
      requires Shape() && c < totalClusters
      modifies `sectors, `temp
      ensures Shape() && Flat(sectors) == Flat(old(sectors))[c := d]
    {
      var words := ReadClusterLinkTable(c / LINKS);
      words := words[c % LINKS := d];
      FlatUpdate(sectors, c, d);
      WriteClusterLinkTable(c / LINKS, words);
    }

    /**
     The link of a cluster. The check lets one sector too many through: right behind the link area the call
     succeeds although there is no link, and what it returns is part of the root directory.
     */
    method GetClusterLinkData(c: nat) returns (ok: bool, d: nat)
      requires Shape()
      modifies `temp
      ensures ok <==> c / LINKS <= linkAreaSize
      ensures c < |Flat(sectors)| <==> c / LINKS < linkAreaSize
      ensures c / LINKS < linkAreaSize ==> d == Flat(sectors)[c]
    {
      if c / LINKS > linkAreaSize {
        return false, 0;
      }
      var words := ReadClusterLinkTable(c / LINKS);
      return true, words[c % LINKS];
    }

    // ----- the free search

    /** No cluster that the search examines is free. */
    ghost predicate NoneFree()
      reads this
    {
      forall c :: 0 <= c < |Flat(sectors)| && totalClusters > 0 && c < SearchBound(totalClusters) ==>
        Flat(sectors)[c] != FREE
    }

    method FirstFree(words: Sector, count: nat) returns (j: nat)
      requires count <= LINKS
      ensures j <= count && (j < count ==> words[j] == FREE)
      ensures forall k :: 0 <= k < j ==> words[k] != FREE
    {
      j := 0;
      while j < count && words[j] != FREE
        invariant j <= count
        invariant forall k :: 0 <= k < j ==> words[k] != FREE
      {
        j := j + 1;
      }
    }

    /** From the remembered sector on, wrapping around, the first free cluster; or the end marker. */
    method FindFreeCluster() returns (c: nat)
      requires Shape() && Flat(sectors)[0] != FREE && totalClusters <= LAST
      modifies `lastSector, `temp
      ensures Shape()
      ensures c == LAST <==> NoneFree()
      ensures c == LAST ==> lastSector == old(lastSector)
      ensures c != LAST ==> 0 < c < SearchBound(totalClusters) <= totalClusters && Flat(sectors)[c] == FREE
      ensures c != LAST ==> lastSector == c / LINKS
                            && forall k :: 0 <= k < c % LINKS ==> sectors[c / LINKS][k] != FREE
      ensures c != LAST ==> FirstFrom(sectors, totalClusters, old(lastSector), c / LINKS)
    {
      for i := 0 to linkAreaSize
        invariant lastSector == old(lastSector)
        invariant forall s :: 0 <= s < linkAreaSize && Visited(linkAreaSize, lastSector, i, s) ==>
                    SectorUsed(sectors, totalClusters, s)
      {
        c := SearchSector(i);
        if c != LAST {
          FirstOfVisited(sectors, totalClusters, old(lastSector), i, c / LINKS);
          return;
        }
        CyclicSector(linkAreaSize, lastSector, i);
      }
      NoneFreeBySector(sectors, totalClusters);
      return LAST;
    }

    /** Examines the sector `i` places behind the remembered one. */
    method SearchSector(i: nat) returns (c: nat)
      requires Shape() && Flat(sectors)[0] != FREE && totalClusters <= LAST && i < linkAreaSize
      modifies `lastSector, `temp
      ensures Shape()
      ensures c == LAST ==> lastSector == old(lastSector)
      ensures c == LAST ==> SectorUsed(sectors, totalClusters, (lastSector + i) % linkAreaSize)
      ensures c != LAST ==> 0 < c < SearchBound(totalClusters) <= totalClusters && Flat(sectors)[c] == FREE
      ensures c != LAST ==> lastSector == c / LINKS == (old(lastSector) + i) % linkAreaSize
                            && forall k :: 0 <= k < c % LINKS ==> sectors[c / LINKS][k] != FREE
    {
      var count := if lastSector + i == linkAreaSize - 1 then totalClusters % LINKS else LINKS;
      var s := (lastSector + i) % linkAreaSize;
      CyclicSector(linkAreaSize, lastSector, i);
      var words := ReadClusterLinkTable(s);
      var j := FirstFree(words, count);
      if j == count {
        return LAST;
      }
      FreeIndex(sectors, totalClusters, s, j);
      lastSector := s;
      assert Flat(sectors)[s * LINKS + j] == FREE;
      c := s * LINKS + j;
    }

    // ----- contents

    /** The bytes of the file of entry `f`. */
    ghost function Content(f: nat): seq<byte>
      reads this
    {
      ContentOf(clusters, chains, directory, f)
    }

    /** A file has as many bytes as its directory entry says. */
    lemma ContentLength(f: nat)
      requires Valid() && f in chains
      ensures f < |directory| && |Content(f)| == directory[f].size
    {
      ChainInRange(Flat(sectors), totalClusters, chains, places, f, clusters);
      ChainLengthRange(directory[f].size);
    }

    // ----- freeing chains

    /** Frees the first cluster of a chain and returns the next one. */
    method FreeFirst(ghost f: nat, current: nat) returns (ok: bool, next: nat)
      requires Linked() && f in chains && chains[f] != [] && chains[f][0] == current
      modifies `sectors, `temp, `chains, `places
      ensures Linked() && ok
      ensures current < totalClusters && next == NextIn(old(chains)[f], 0)
      ensures chains == PoppedChains(old(chains), f) && Flat(sectors) == Flat(old(sectors))[current := FREE]
    {
      assert OnChain(Flat(sectors), totalClusters, chains, places, f, 0);
      ok, next := GetClusterLinkData(current);
      if !ok {
        return;
      }
      ghost var link := Flat(sectors);
      SetClusterLinkData(current, FREE);
      PopChain(link, totalClusters, chains, places, f, Flat(sectors));
      chains, places := PoppedChains(chains, f), PoppedPlaces(places, f, current);
    }

    /** Frees a chain from its first cluster to the end marker: exactly its clusters, and all of them. */
    method FreeClusterUntilEnd(start: nat, ghost f: nat) returns (ok: bool)
      requires Linked()
      requires start != LAST ==> f in chains && chains[f] != [] && chains[f][0] == start
      modifies `sectors, `temp, `chains, `places
      ensures Linked() && ok
      ensures start == LAST ==> chains == old(chains) && Flat(sectors) == Flat(old(sectors))
      ensures start != LAST ==>
                chains == old(chains) - {f} && Flat(sectors) == Freed(Flat(old(sectors)), old(chains)[f])
    {
      if start != LAST {
        FreeChain(start, f);
      }
      ok := true;
    }

    method FreeChain(start: nat, ghost f: nat)
      requires Linked()
      requires f in chains && chains[f] != [] && chains[f][0] == start
      modifies `sectors, `temp, `chains, `places
      ensures Linked()
      ensures chains == old(chains) - {f}
      ensures Flat(sectors) == Freed(Flat(old(sectors)), old(chains)[f])
    {
      ghost var link0, chains0, chain, d := Flat(sectors), chains, chains[f], 0;
      forall k | 0 <= k < |chain| ensures chain[k] != LAST {
        NotLast(f, k);
      }
      var current := start;
      while current != LAST
        invariant Linked() && d <= |chain|
        invariant current == if d < |chain| then chain[d] else LAST
        invariant chains == Popped(chains0, f, d)
        invariant Flat(sectors) == Freed(link0, chain[..d])
        decreases |chain| - d
      {
        var ok, next := FreeFirst(f, current);
        if !ok {
          return;
        }
        assert chain[..d] + [current] == chain[..d + 1];
        current := next;
        d := d + 1;
      }
      assert chain[..d] == chain;
    }

    // ----- writing

    /** A handle in the middle of an operation: its cursor is in place, its entry may be out of date. */
    ghost predicate Positioned(h: FileHandle)
      reads this, h
    {
      && Linked() && Entries(directory, chains) && Sizes(directory, chains, chains.Keys - {h.entry})
      && h.entry in chains
      && Cursor(chains[h.entry], h.start, h.current, h.previous, h.offset)
    }

    /** A handle between operations: it agrees with its directory entry and does not stand past the end. */
    ghost predicate Open(h: FileHandle)
      reads this, h
    {
      && Positioned(h)
      && h.offset <= h.size == directory[h.entry].size
      && |chains[h.entry]| == ChainLength(h.size)
    }

    lemma CursorInside(h: FileHandle)
      requires Positioned(h)
      ensures h.current == LAST <==> h.offset / CLUSTER == |chains[h.entry]|
      ensures InRange(clusters, chains[h.entry]) && h.previous < totalClusters
      ensures h.current != LAST ==> 0 < h.current < totalClusters
    {
      ChainInRange(Flat(sectors), totalClusters, chains, places, h.entry, clusters);
      var i := h.offset / CLUSTER;
      if i < |chains[h.entry]| {
        NotLast(h.entry, i);
      }
      NotLast(h.entry, 0);
      if 0 < i {
        NotLast(h.entry, i - 1);
      }
    }

    /** Marks a free cluster as the last of its chain and links it behind the former last one. */
    method LinkCluster(ghost f: nat, last: nat, c: nat)
      requires Linked() && f in chains && chains[f] != [] && chains[f][|chains[f]| - 1] == last < totalClusters
      requires 0 < c < totalClusters && Flat(sectors)[c] == FREE
      modifies `sectors, `temp, `chains, `places
      ensures Linked() && c !in old(places)
      ensures chains == old(chains)[f := old(chains)[f] + [c]]
    {
      ghost var link0 := Flat(sectors);
      SetClusterLinkData(c, LAST);
      SetClusterLinkData(last, c);
      ExtendChain(link0, totalClusters, chains, places, f, c, Flat(sectors));
      places := places[c := Place(f, |chains[f]|)];
      chains := chains[f := chains[f] + [c]];
    }

    /** Links a free cluster behind the end of the file and makes it the current one. */
    method TakeCluster(h: FileHandle) returns (ok: bool)
      requires Positioned(h) && h.current == LAST
      modifies `sectors, `temp, `lastSector, `chains, `places, h`current
      ensures Positioned(h) && (ok <==> !old(NoneFree()))
      ensures !ok ==> NoneFree() && h.current == LAST && chains == old(chains) && sectors == old(sectors)
      ensures ok ==> h.current != LAST && temp == Zeros(CLUSTER)
      ensures ok ==> h.current < totalClusters && h.current !in old(places)
      ensures ok ==> chains == old(chains)[h.entry := old(chains)[h.entry] + [h.current]]
    {
      CursorInside(h);
      var c := FindFreeCluster();
      if c == LAST {
        return false;
      }
      AttachCluster(h, c);
      temp := Zeros(CLUSTER);
      return true;
    }

    /** Links free cluster `c` behind the end of the file; the handle stands on it. */
    method AttachCluster(h: FileHandle, c: nat)
      requires Positioned(h) && h.current == LAST && 0 < c < totalClusters && Flat(sectors)[c] == FREE
      modifies `sectors, `temp, `chains, `places, h`current
      ensures Positioned(h) && h.current == c && c !in old(places)
      ensures chains == old(chains)[h.entry := old(chains)[h.entry] + [c]]
    {
      CursorInside(h);
      ghost var chain := chains[h.entry];
      LinkCluster(h.entry, h.previous, c);
      assert chains.Keys == old(chains.Keys);
      h.current := c;
    }

    /** Moves the handle forward inside its cluster, following the link at the cluster's end. */
    method Advance(h: FileHandle, n: nat)
      requires Positioned(h) && h.current != LAST
      requires 0 < n && h.offset % CLUSTER + n <= CLUSTER
      modifies `temp, h`offset, h`current, h`previous
      ensures Positioned(h) && h.offset == old(h.offset) + n
    {
      CursorInside(h);
      ghost var f, i := h.entry, h.offset / CLUSTER;
      CursorAdvance(chains[f], h.start, h.current, h.previous, h.offset, n);
      assert OnChain(Flat(sectors), totalClusters, chains, places, f, i);
      h.offset := h.offset + n;
      if h.offset % CLUSTER == 0 {
        var ok, next := GetClusterLinkData(h.current);
        if !ok {
          return;
        }
        h.previous := h.current;
        h.current := next;
      }
    }

    /** Splices a chunk into the current cluster and moves past it. `base` is what the cluster counts as before. */
    method PutChunk(h: FileHandle, chunk: seq<byte>, ghost base: Cluster)
      requires Positioned(h) && h.current != LAST && h.current < totalClusters
      requires 0 < |chunk| && h.offset % CLUSTER + |chunk| <= CLUSTER
      requires Splice(temp, h.offset % CLUSTER, chunk) == Splice(base, h.offset % CLUSTER, chunk)
      modifies `clusters, `temp, h`offset, h`current, h`previous
      ensures Positioned(h) && h.offset == old(h.offset) + |chunk|
      ensures OthersKept(old(clusters), chains, clusters, chains, h.entry)
      ensures InRange(clusters, chains[h.entry])
      ensures InRange(old(clusters)[old(h.current) := base], chains[h.entry])
      ensures old(h.offset) <= |chains[h.entry]| * CLUSTER
      ensures Image(clusters, chains[h.entry])
              == Splice(Image(old(clusters)[old(h.current) := base], chains[h.entry]), old(h.offset), chunk)
    {
      CursorInside(h);
      ghost var f := h.entry;
      ghost var chain := chains[f];
      DistinctChain(Flat(sectors), totalClusters, chains, places, f);
      assert OnChain(Flat(sectors), totalClusters, chains, places, f, h.offset / CLUSTER);
      temp := Splice(temp, h.offset % CLUSTER, chunk);
      OwnCluster(Flat(sectors), totalClusters, chains, places, f, h.current, temp, chain,
                 clusters, clusters[h.current := temp]);
      ImageWrite(clusters[h.current := base], chain, h.offset, chunk, clusters[h.current := temp]);
      assert chains[f := chain] == chains;
      clusters := clusters[h.current := temp];
      Advance(h, |chunk|);
    }

    ghost predicate LengthFits(h: FileHandle)
      reads this, h
    {
      h.entry in chains && |chains[h.entry]| == ChainLength(Max(h.size, h.offset))
    }

    /** Writes the next chunk, up to the end of a cluster; nothing when a cluster is needed and none is free. */
    method WriteChunk(h: FileHandle, chunk: seq<byte>, remaining: nat) returns (ok: bool)
      requires Positioned(h) && LengthFits(h)
      requires 0 < |chunk| == Min(CLUSTER - h.offset % CLUSTER, remaining)
      modifies `sectors, `temp, `lastSector, `chains, `places, `clusters, h`offset, h`current, h`previous
      ensures Positioned(h) && LengthFits(h)
      ensures !ok ==> NoneFree() && chains == old(chains) && clusters == old(clusters)
      ensures !ok ==> h.current == LAST && h.offset == old(h.offset)
      ensures Claimed(old(sectors), old(chains), sectors, chains, h.entry, old(NoneFree()))
      ensures ok ==> h.offset == old(h.offset) + |chunk|
      ensures ok ==> Wrote(old(clusters), old(chains), clusters, chains, h.entry, old(h.offset), chunk)
    {
      CursorInside(h);
      LengthAdvance(|chains[h.entry]|, h.size, h.offset, |chunk|);
      if h.current == LAST {
        ok := WriteNewCluster(h, chunk);
      } else {
        WriteOldCluster(h, chunk, remaining);
        ok := true;
      }
    }

    method WriteOldCluster(h: FileHandle, chunk: seq<byte>, remaining: nat)
      requires Positioned(h) && h.current != LAST
      requires 0 < |chunk| == Min(CLUSTER - h.offset % CLUSTER, remaining)
      modifies `temp, `clusters, h`offset, h`current, h`previous
      ensures Positioned(h) && h.offset == old(h.offset) + |chunk|
      ensures Wrote(old(clusters), chains, clusters, chains, h.entry, old(h.offset), chunk)
    {
      CursorInside(h);
      if h.offset % CLUSTER != 0 || remaining < CLUSTER {
        temp := clusters[h.current];
      } else {
        FullSplice(temp, clusters[h.current], chunk);
      }
      ghost var base := clusters[h.current];
      assert clusters[h.current := base] == clusters;
      PutChunk(h, chunk, base);
    }

    method WriteNewCluster(h: FileHandle, chunk: seq<byte>) returns (ok: bool)
      requires Positioned(h) && LengthFits(h) && h.current == LAST
      requires 0 < |chunk| && h.offset % CLUSTER + |chunk| <= CLUSTER
      modifies `sectors, `temp, `lastSector, `chains, `places, `clusters, h`offset, h`current, h`previous
      ensures Positioned(h)
      ensures !ok ==> NoneFree() && chains == old(chains) && clusters == old(clusters)
      ensures !ok ==> h.current == LAST && h.offset == old(h.offset)
      ensures Claimed(old(sectors), old(chains), sectors, chains, h.entry, old(NoneFree()))
      ensures ok ==> h.offset == old(h.offset) + |chunk| && h.entry in old(chains)
      ensures ok ==> |chains[h.entry]| == |old(chains)[h.entry]| + 1
      ensures ok ==> Wrote(old(clusters), old(chains), clusters, chains, h.entry, old(h.offset), chunk)
    {
      CursorInside(h);
      ChainLengthRange(Max(h.size, h.offset));
      ghost var f := h.entry;
      ok := TakeCluster(h);
      if !ok {
        return;
      }
      ghost var c := h.current;
      NotOnChain(old(sectors), old(chains), old(places), f, c);
      PutChunk(h, chunk, Zeros(CLUSTER));
      WroteGrown(old(clusters), old(chains), clusters, chains, f, c, old(h.offset), chunk);
    }

    /** The bytes of `part` have been written from offset `at` on. */
    ghost predicate WrittenPart(h: FileHandle, clusters0: seq<Cluster>, chains0: Chains, at: nat, part: seq<byte>,
                                sectors0: seq<Sector>, none0: bool)
      reads this, h
    {
      && Positioned(h) && LengthFits(h) && h.offset == at + |part|
      && Wrote(clusters0, chains0, clusters, chains, h.entry, at, part)
      && Claimed(sectors0, chains0, sectors, chains, h.entry, none0)
      && (sectors == sectors0 && chains == chains0 ==> NoneFree() == none0)
    }

    /** The writing loop: chunk after chunk, until all is written or no cluster is left. */
    method WriteLoop(h: FileHandle, buffer: seq<byte>) returns (done: nat)
      requires Positioned(h) && LengthFits(h)
      modifies `sectors, `temp, `lastSector, `chains, `places, `clusters, h`offset, h`current, h`previous
      ensures done <= |buffer| && WrittenPart(h, old(clusters), old(chains), old(h.offset), buffer[..done],
                                             old(sectors), old(NoneFree()))
      ensures done < |buffer| ==> NoneFree() && h.current == LAST
    {
      done := 0;
      WroteNothing(h);
      assert buffer[..0] == [];
      ghost var clusters0, chains0, at, sectors0, none0 := clusters, chains, h.offset, sectors, NoneFree();
      while done != |buffer|
        invariant done <= |buffer| && WrittenPart(h, clusters0, chains0, at, buffer[..done], sectors0, none0)
        decreases |buffer| - done
      {
        var next := WriteStep(h, buffer, done, clusters0, chains0, at, sectors0, none0);
        if next == done {
          return;
        }
        done := next;
      }
    }

    /** One round of the loop; stays at `done` if no cluster is left. */
    method WriteStep(h: FileHandle, buffer: seq<byte>, done: nat,
                     ghost clusters0: seq<Cluster>, ghost chains0: Chains, ghost at: nat,
                     ghost sectors0: seq<Sector>, ghost none0: bool) returns (next: nat)
      requires done < |buffer| && WrittenPart(h, clusters0, chains0, at, buffer[..done], sectors0, none0)
      modifies `sectors, `temp, `lastSector, `chains, `places, `clusters, h`offset, h`current, h`previous
      ensures done <= next <= |buffer| && WrittenPart(h, clusters0, chains0, at, buffer[..next], sectors0, none0)
      ensures next == done ==> NoneFree() && h.current == LAST
    {
      var size := Min(CLUSTER - h.offset % CLUSTER, |buffer| - done);
      PrefixGrows(buffer, done, size);
      var ok := WriteNext(h, buffer[done..done + size], |buffer| - done, clusters0, chains0, at, buffer[..done],
                          sectors0, none0);
      next := if ok then done + size else done;
    }

    method WriteNext(h: FileHandle, chunk: seq<byte>, remaining: nat, ghost clusters0: seq<Cluster>,
                     ghost chains0: Chains, ghost at: nat, ghost part: seq<byte>, ghost sectors0: seq<Sector>,
                     ghost none0: bool)
      returns (ok: bool)
      requires WrittenPart(h, clusters0, chains0, at, part, sectors0, none0)
      requires 0 < |chunk| == Min(CLUSTER - h.offset % CLUSTER, remaining)
      modifies `sectors, `temp, `lastSector, `chains, `places, `clusters, h`offset, h`current, h`previous
      ensures WrittenPart(h, clusters0, chains0, at, if ok then part + chunk else part, sectors0, none0)
      ensures !ok ==> NoneFree() && h.current == LAST
    {
      ghost var clusters1, chains1, mid := clusters, chains, h.offset;
      ok := WriteChunk(h, chunk, remaining);
      if ok {
        WroteMore(clusters0, chains0, clusters1, chains1, clusters, chains, h.entry, at, part, mid, chunk,
                  part + chunk);
      }
    }

    /** Writes the handle's size and start cluster into its directory entry. */
    method UpdateDirectoryEntry(h: FileHandle)
      requires h.entry < |directory|
      modifies `directory
      ensures directory == old(directory)[h.entry := DirEntry(h.size, h.start)]
    {
      directory := directory[h.entry := DirEntry(h.size, h.start)];
    }

    /**
     Writes `count` items of `itemSize` bytes at the handle's offset: the contents are spliced with the
     `written` bytes that found room, and with all of them unless no cluster is free.
     */
    method WriteFile(h: FileHandle, buffer: seq<byte>, itemSize: nat, count: nat)
      returns (items: nat, ghost written: nat)
      requires Open(h) && itemSize > 0 && |buffer| == itemSize * count
      requires h.offset + |buffer| < DWORD
      modifies `sectors, `temp, `lastSector, `chains, `places, `clusters, `directory
      modifies h`offset, h`current, h`previous, h`size
      ensures Open(h)
      ensures written <= |buffer| && items == Items(written, itemSize)
      ensures WholeItems(items, written, itemSize, count)
      ensures written < |buffer| ==> NoneFree()
      ensures h.offset == old(h.offset) + written
      ensures old(h.offset) <= |old(Content(h.entry))|
      ensures Content(h.entry) == Splice(old(Content(h.entry)), old(h.offset), buffer[..written])
      ensures OnlyFile(old(clusters), old(chains), old(directory), old(h.size), clusters, chains, directory, h.size,
                       h.entry)
      ensures h.size == Max(old(h.size), h.offset)
      ensures h.size == old(h.size) <==> KeepsSize(old(h.size), old(h.offset), |buffer|, old(NoneFree()))
    {
      var done := WriteLoop(h, buffer);
      written := done;
      items := Items(done, itemSize);
      ItemsMeans(done, itemSize, count);
      RecordSize(h);
      WriteRecorded(old(clusters), old(chains), old(directory), clusters, chains, directory,
                    h.entry, old(h.offset), buffer[..done], old(h.size), h.size);
      GrowthDecided(old(h.size), old(h.offset), |buffer|, h.size, h.offset, |old(chains)[h.entry]|, |chains[h.entry]|,
                    old(NoneFree()));
    }

    /** A file that has grown gets its new size, in the handle and in the directory. */
    method RecordSize(h: FileHandle)
      requires Positioned(h) && LengthFits(h) && h.size == directory[h.entry].size
      modifies `directory, h`size
      ensures Open(h) && h.size == Max(old(h.size), h.offset)
      ensures |directory| == |old(directory)|
      ensures forall g :: 0 <= g < |directory| && g != h.entry ==> directory[g] == old(directory)[g]
      ensures h.size == old(h.size) ==> directory == old(directory)
    {
      if h.size < h.offset {
        h.size := h.offset;
        UpdateDirectoryEntry(h);
      }
    }

    // ----- reading

    /** The next chunk of a file: the part of the current cluster from the offset on. */
    method ReadChunk(h: FileHandle, buffer: array<byte>, at: nat, n: nat)
      requires Positioned(h) && h.current != LAST && buffer as object !in {this, h}
      requires 0 < n && h.offset % CLUSTER + n <= CLUSTER && at + n <= buffer.Length
      modifies `temp, h`offset, h`current, h`previous, buffer
      ensures Positioned(h) && h.offset == old(h.offset) + n
      ensures InRange(clusters, chains[h.entry]) && old(h.offset) + n <= |Image(clusters, chains[h.entry])|
      ensures buffer[at..at + n] == Image(clusters, chains[h.entry])[old(h.offset)..old(h.offset) + n]
      ensures buffer[..at] == old(buffer[..at]) && buffer[at + n..] == old(buffer[at + n..])
    {
      CursorInside(h);
      temp := clusters[h.current];
      var r := h.offset % CLUSTER;
      ImageSlice(clusters, chains[h.entry], h.offset, n);
      CopyBytes(buffer, at, temp[r..r + n]);
      Advance(h, n);
    }

    /**
     Reads `count` items of `itemSize` bytes at the handle's offset into the buffer: exactly the bytes of
     the contents there, as many as were asked for or as remain.
     */
    method ReadFile(h: FileHandle, buffer: array<byte>, itemSize: nat, count: nat) returns (items: nat, ghost got: nat)
      requires Open(h) && itemSize > 0 && buffer as object !in {this, h}
      requires itemSize * count <= buffer.Length && itemSize * count < DWORD
      modifies `temp, h`offset, h`current, h`previous, buffer
      ensures Open(h) && items == Items(got, itemSize)
      ensures WholeItems(items, got, itemSize, count)
      ensures got == Min(itemSize * count, h.size - old(h.offset)) <= buffer.Length
      ensures h.offset == old(h.offset) + got <= |Content(h.entry)| == h.size
      ensures buffer[..got] == Content(h.entry)[old(h.offset)..old(h.offset) + got]
      ensures buffer[got..] == old(buffer[got..])
    {
      OpenContent(h);
      got := 0;
      ItemsMeans(Min(itemSize * count, h.size - h.offset), itemSize, count);
      if h.offset == h.size || h.current == LAST {
        return 0, 0;
      }
      var total := Min(itemSize * count, h.size - h.offset);
      ReadLoop(h, buffer, total);
      got := total;
      items := Items(total, itemSize);
      OpenContent(h);
    }

    method ReadLoop(h: FileHandle, buffer: array<byte>, total: nat)
      requires Open(h) && buffer as object !in {this, h}
      requires total <= buffer.Length && h.offset + total <= h.size
      modifies `temp, h`offset, h`current, h`previous, buffer
      ensures Open(h) && h.offset == old(h.offset) + total <= |Content(h.entry)|
      ensures buffer[..total] == Content(h.entry)[old(h.offset)..old(h.offset) + total]
      ensures buffer[total..] == old(buffer[total..])
    {
      OpenContent(h);
      ghost var at, content := h.offset, Content(h.entry);
      var done := 0;
      while done != total
        invariant Open(h) && done <= total && h.offset == at + done
        invariant buffer[..done] == content[at..at + done]
        invariant buffer[total..] == old(buffer[total..])
        decreases total - done
      {
        done := ReadStep(h, buffer, done, total, at);
      }
    }

    method ReadStep(h: FileHandle, buffer: array<byte>, done: nat, total: nat, ghost at: nat) returns (next: nat)
      requires Open(h) && buffer as object !in {this, h}
      requires done < total <= buffer.Length && h.offset == at + done && at + total <= h.size == |Content(h.entry)|
      requires buffer[..done] == Content(h.entry)[at..at + done]
      modifies `temp, h`offset, h`current, h`previous, buffer
      ensures Open(h) && done < next <= total && h.offset == at + next
      ensures buffer[..next] == Content(h.entry)[at..at + next]
      ensures buffer[total..] == old(buffer[total..])
    {
      var size := Min(CLUSTER - h.offset % CLUSTER, total - done);
      ReadSome(h, buffer, done, size, at, total);
      next := done + size;
    }

    method ReadSome(h: FileHandle, buffer: array<byte>, done: nat, size: nat, ghost at: nat, ghost total: nat)
      requires Open(h) && buffer as object !in {this, h} && 0 < size && h.offset % CLUSTER + size <= CLUSTER
      requires done + size <= total <= buffer.Length
      requires h.offset == at + done && at + total <= h.size == |Content(h.entry)|
      requires buffer[..done] == Content(h.entry)[at..at + done]
      modifies `temp, h`offset, h`current, h`previous, buffer
      ensures Open(h) && h.offset == at + done + size
      ensures buffer[..done + size] == Content(h.entry)[at..at + done + size]
      ensures buffer[total..] == old(buffer[total..])
    {
      OpenContent(h);
      ReadChunk(h, buffer, done, size);
      JoinRead(old(buffer[..]), buffer[..], Content(h.entry), Image(clusters, chains[h.entry]), at, done, done + size,
               total);
    }

    lemma OpenContent(h: FileHandle)
      requires Open(h)
      ensures InRange(clusters, chains[h.entry]) && |Image(clusters, chains[h.entry])| >= h.size
      ensures Content(h.entry) == Image(clusters, chains[h.entry])[..h.size]
      ensures h.current == LAST ==> h.offset == h.size
    {
      CursorInside(h);
      ChainLengthRange(h.size);
    }

    // ----- seeking

    /** Follows `count` links from cluster `from`, which is at position `i` of the handle's chain. */
    method FollowLinks(ghost h: FileHandle, from: nat, ghost i: nat, count: nat)
      returns (ok: bool, current: nat, previous: nat)
      requires Positioned(h) && i + count <= |chains[h.entry]|
      requires from == ClusterAt(chains[h.entry], i)
      modifies `temp
      ensures Positioned(h) && ok
      ensures current == ClusterAt(chains[h.entry], i + count)
      ensures count > 0 ==> previous == chains[h.entry][i + count - 1]
    {
      current, previous, ok := from, 0, true;
      for k := 0 to count
        invariant Positioned(h)
        invariant current == ClusterAt(chains[h.entry], i + k)
        invariant k > 0 ==> previous == chains[h.entry][i + k - 1]
      {
        assert OnChain(Flat(sectors), totalClusters, chains, places, h.entry, i + k);
        previous := current;
        var next;
        ok, next := GetClusterLinkData(previous);
        if !ok {
          return;
        }
        current := next;
      }
      ok := true;
    }

    /** Moves the cursor to the cluster of `target`, or of the end of the file if that comes first. */
    method MoveCursor(h: FileHandle, target: nat)
      requires Open(h)
      modifies `temp, h`current, h`previous, h`offset
      ensures Positioned(h)
      ensures h.offset == if SeekExtends(h.size, target) then h.size else target
    {
      ChainLengthRange(h.size);
      var lastCluster, toMove, here := h.size / CLUSTER, target / CLUSTER, h.offset / CLUSTER;
      var moveCount, from;
      if lastCluster < toMove {
        moveCount, from := lastCluster - here, h.current;
      } else if here <= toMove {
        moveCount, from := toMove - here, h.current;
      } else {
        moveCount, from := toMove, h.start;
      }
      MoveBy(h, from, if here <= toMove then here else 0, moveCount,
             if lastCluster < toMove then h.size else target);
    }

    /** Moves `count` links on from a cluster of the chain, which stands at position `i`, to offset `offset`. */
    method MoveBy(h: FileHandle, from: nat, ghost i: nat, count: nat, offset: nat)
      requires Positioned(h) && i + count == offset / CLUSTER <= |chains[h.entry]|
      requires from == ClusterAt(chains[h.entry], i)
      requires i == 0 || (i == h.offset / CLUSTER && from == h.current)
      modifies `temp, h`current, h`previous, h`offset
      ensures Positioned(h) && h.offset == offset
    {
      DistinctChain(Flat(sectors), totalClusters, chains, places, h.entry);
      CursorInside(h);
      var ok, current, previous := FollowLinks(h, from, i, count);
      if !ok {
        return;
      }
      if count > 0 {
        h.previous := previous;
        h.current := current;
      } else if from == h.start {
        h.previous := h.start;
        h.current := h.start;
      }
      h.offset := offset;
    }

    /** Writes `count` zero bytes at the handle's offset, a cluster's worth at a time. */
    method WriteZero(h: FileHandle, count: nat, memoryAvailable: bool) returns (ok: bool, ghost written: nat)
      requires Open(h) && h.offset + count < DWORD
      modifies `sectors, `temp, `lastSector, `chains, `places, `clusters, `directory
      modifies h`offset, h`current, h`previous, h`size
      ensures ZerosWritten(h, written, old(Content(h.entry)), old(h.offset),
                           old(clusters), old(chains), old(directory), old(h.size))
      ensures ZeroFrom(Content(h.entry), old(h.offset), written)
      ensures written <= count && (ok <==> memoryAvailable && written == count)
      ensures memoryAvailable && written < count ==> NoneFree()
      ensures old(h.offset) == old(h.size) ==>
                (written == 0 <==> !memoryAvailable || KeepsSize(old(h.size), old(h.size), count, old(NoneFree())))
    {
      NoZerosYet(h);
      if !memoryAvailable {
        return false, 0;
      }
      ok, written := ZeroLoop(h, count, Content(h.entry), h.offset, clusters, chains, directory, h.size);
      ZerosSpliced(old(Content(h.entry)), old(h.offset), written);
    }

    /** `written` zeros have been written at `at`, and nothing else has changed. */
    ghost predicate ZerosWritten(h: FileHandle, written: nat, content: seq<byte>, at: nat, clusters0: seq<Cluster>,
                                 chains0: Chains, directory0: seq<DirEntry>, size0: nat)
      reads this, h
    {
      && Open(h) && h.offset == at + written && at <= |content|
      && Content(h.entry) == Splice(content, at, Zeros(written))
      && OnlyFile(clusters0, chains0, directory0, size0, clusters, chains, directory, h.size, h.entry)
    }

    lemma NoZerosYet(h: FileHandle)
      requires Open(h)
      ensures ZerosWritten(h, 0, Content(h.entry), h.offset, clusters, chains, directory, h.size)
    {
      OpenContent(h);
      SpliceZeros(Content(h.entry), h.offset, 0, 0);
      NothingChanged(clusters, chains, directory, h.size, h.entry);
    }

    method ZeroLoop(h: FileHandle, count: nat, ghost content: seq<byte>, ghost at: nat, ghost clusters0: seq<Cluster>,
                    ghost chains0: Chains, ghost directory0: seq<DirEntry>, ghost size0: nat)
      returns (ok: bool, ghost written: nat)
      requires ZerosWritten(h, 0, content, at, clusters0, chains0, directory0, size0) && at + count < DWORD
      requires size0 == h.size
      modifies `sectors, `temp, `lastSector, `chains, `places, `clusters, `directory
      modifies h`offset, h`current, h`previous, h`size
      ensures ZerosWritten(h, written, content, at, clusters0, chains0, directory0, size0)
      ensures written <= count && (ok <==> written == count) && (!ok ==> NoneFree())
      ensures at == size0 ==> (written == 0 <==> KeepsSize(size0, size0, count, old(NoneFree())))
    {
      written := 0;
      var remain: nat := count;
      while remain != 0
        invariant ZerosWritten(h, written, content, at, clusters0, chains0, directory0, size0)
        invariant remain <= count && written == count - remain
        invariant written == 0 ==> sectors == old(sectors) && h.size == size0
        invariant at == size0 && written > 0 ==> !KeepsSize(size0, size0, count, old(NoneFree()))
      {
        var size := Min(remain, CLUSTER);
        ok, written := WriteZeros(h, size, written, content, at, clusters0, chains0, directory0, size0);
        if !ok {
          return;
        }
        remain := remain - size;
      }
      ok := true;
    }

    /** One round of the loop, behind the zeros that were written before. */
    method WriteZeros(h: FileHandle, size: nat, ghost before: nat, ghost content: seq<byte>, ghost at: nat,
                      ghost clusters0: seq<Cluster>, ghost chains0: Chains, ghost directory0: seq<DirEntry>,
                      ghost size0: nat)
      returns (ok: bool, ghost after: nat)
      requires ZerosWritten(h, before, content, at, clusters0, chains0, directory0, size0) && at + before + size < DWORD
      modifies `sectors, `temp, `lastSector, `chains, `places, `clusters, `directory
      modifies h`offset, h`current, h`previous, h`size
      ensures ZerosWritten(h, after, content, at, clusters0, chains0, directory0, size0)
      ensures before <= after <= before + size && (ok <==> after == before + size) && (!ok ==> NoneFree())
      ensures old(h.offset) == old(h.size) ==>
                (after == before <==> KeepsSize(old(h.size), old(h.size), size, old(NoneFree())))
    {
      ghost var w;
      ok, w := WriteAll(h, Zeros(size));
      after := before + w;
      OnlyFileTwice(clusters0, chains0, directory0, size0, old(clusters), old(chains), old(directory), old(h.size),
                    clusters, chains, directory, h.size, h.entry);
      ZerosJoined(content, old(Content(h.entry)), Content(h.entry), at, before, old(h.offset), size, w);
    }

    /** Writes single bytes, and tells whether all of them found room. */
    method WriteAll(h: FileHandle, data: seq<byte>) returns (ok: bool, ghost w: nat)
      requires Open(h) && h.offset + |data| < DWORD
      modifies `sectors, `temp, `lastSector, `chains, `places, `clusters, `directory
      modifies h`offset, h`current, h`previous, h`size
      ensures Open(h) && w <= |data| && (ok <==> w == |data|) && (!ok ==> NoneFree())
      ensures h.offset == old(h.offset) + w && old(h.offset) <= |old(Content(h.entry))|
      ensures old(h.offset) == old(h.size) ==>
                (w == 0 <==> KeepsSize(old(h.size), old(h.size), |data|, old(NoneFree())))
      ensures Content(h.entry) == Splice(old(Content(h.entry)), old(h.offset), data[..w])
      ensures OnlyFile(old(clusters), old(chains), old(directory), old(h.size), clusters, chains, directory, h.size,
                       h.entry)
    {
      var items;
      items, w := WriteFile(h, data, 1, |data|);
      ok := items == |data|;
    }

    /**
     Seeks. A target in a later cluster than the end of the file first extends the file with the missing
     zeros, as far as there is room; otherwise the contents stay. The handle is in order afterwards
     exactly if the target does not lie past the end inside the end's own cluster.
     */
    method SeekFile(h: FileHandle, distance: int, origin: Origin, memoryAvailable: bool)
      returns (result: int, ghost written: nat)
      requires Open(h)
      modifies `sectors, `temp, `lastSector, `chains, `places, `clusters, `directory
      modifies h`offset, h`current, h`previous, h`size
      ensures result == 0 && Positioned(h)
      ensures |chains[h.entry]| == ChainLength(h.size) && directory[h.entry].size == h.size
      ensures var target, size := SeekTarget(old(h.size), old(h.offset), distance, origin), old(h.size);
              && (Open(h) <==> SeekStays(size, target))
              && SeekEnds(size, target, memoryAvailable, old(NoneFree()), written, h.offset, NoneFree())
              && h.size == size + written
              && (distance < DWORD && size < DWORD ==>
                    SeekLands(size, old(h.offset), distance, origin, memoryAvailable, NoneFree(), h.offset, written))
      ensures Content(h.entry) == old(Content(h.entry)) + Zeros(written)
      ensures ZeroFrom(Content(h.entry), |old(Content(h.entry))|, written)
      ensures OnlyFile(old(clusters), old(chains), old(directory), old(h.size), clusters, chains, directory, h.size,
                       h.entry)
    {
      result := 0;
      OpenContent(h);
      written := SeekTo(h, SeekTarget(h.size, h.offset, distance, origin), memoryAvailable);
      ZerosSpliced(old(Content(h.entry)), 0, written);
      if distance < DWORD && old(h.size) < DWORD {
        SeekMeans(old(h.size), old(h.offset), distance, origin, memoryAvailable, old(NoneFree()), written,
                  h.offset, NoneFree());
      }
    }

    /** Moves the handle to `target`, extending the file if that lies in a later cluster than its end. */
    method SeekTo(h: FileHandle, target: nat, memoryAvailable: bool) returns (ghost written: nat)
      requires Open(h) && target < DWORD
      modifies `sectors, `temp, `lastSector, `chains, `places, `clusters, `directory
      modifies h`offset, h`current, h`previous, h`size
      ensures Positioned(h) && |chains[h.entry]| == ChainLength(h.size) && directory[h.entry].size == h.size
      ensures var size := old(h.size);
              && (Open(h) <==> SeekStays(size, target))
              && SeekEnds(size, target, memoryAvailable, old(NoneFree()), written, h.offset, NoneFree())
              && h.size == size + written
      ensures Content(h.entry) == old(Content(h.entry)) + Zeros(written)
      ensures OnlyFile(old(clusters), old(chains), old(directory), old(h.size), clusters, chains, directory, h.size,
                       h.entry)
    {
      written := 0;
      var extend := SeekExtends(h.size, target);
      MoveCursor(h, target);
      NothingChanged(clusters, chains, directory, h.size, h.entry);
      if extend {
        var ok;
        ok, written := AppendZeros(h, target - h.size, memoryAvailable);
        if !ok {
          return;
        }
      }
      NoZeros(Content(h.entry));
      assert Positioned(h) && h.offset == target;
      h.offset := target;
    }

    /** Extends a file by zeros, as far as there is room. */
    method AppendZeros(h: FileHandle, count: nat, memoryAvailable: bool) returns (ok: bool, ghost written: nat)
      requires Open(h) && h.offset == h.size && h.size + count < DWORD
      modifies `sectors, `temp, `lastSector, `chains, `places, `clusters, `directory
      modifies h`offset, h`current, h`previous, h`size
      ensures Open(h) && h.offset == h.size == old(h.size) + written
      ensures written <= count && (ok <==> memoryAvailable && written == count)
      ensures memoryAvailable && written < count ==> NoneFree()
      ensures written == 0 <==> !memoryAvailable || KeepsSize(old(h.size), old(h.size), count, old(NoneFree()))
      ensures Content(h.entry) == old(Content(h.entry)) + Zeros(written)
      ensures OnlyFile(old(clusters), old(chains), old(directory), old(h.size), clusters, chains, directory, h.size,
                       h.entry)
    {
      OpenContent(h);
      SpliceZeros(Content(h.entry), |Content(h.entry)|, 0, 0);
      ok, written := WriteZero(h, count, memoryAvailable);
      OpenContent(h);
    }

    lemma NoZeros(content: seq<byte>)
      ensures content == content + Zeros(0)
    {
    }

    lemma WroteNothing(h: FileHandle)
      requires Positioned(h) && LengthFits(h)
      ensures Wrote(clusters, chains, clusters, chains, h.entry, h.offset, [])
    {
      CursorInside(h);
      ChainLengthRange(Max(h.size, h.offset));
    }

    lemma NotOnChain(ss: seq<Sector>, chains0: Chains, places0: Places, f: nat, c: nat)
      requires Mapped(Flat(ss), totalClusters, chains0, places0) && f in chains0 && c !in places0
      ensures c !in chains0[f]
    {
      forall k | 0 <= k < |chains0[f]| ensures chains0[f][k] != c {
        assert OnChain(Flat(ss), totalClusters, chains0, places0, f, k);
      }
    }

    // ----- creating, truncating and removing files

    ghost predicate DirectoryFull()
      reads this
    {
      forall i :: 0 <= i < |directory| ==> directory[i].start != FREE
    }

    method FindFreeDirectoryEntry() returns (r: int)
      requires |directory| == MAX_ENTRIES
      ensures -1 <= r < MAX_ENTRIES
      ensures r == -1 <==> DirectoryFull()
      ensures r >= 0 ==> directory[r].start == FREE && forall i :: 0 <= i < r ==> directory[i].start != FREE
    {
      for i := 0 to MAX_ENTRIES
        invariant forall k :: 0 <= k < i ==> directory[k].start != FREE
      {
        if directory[i].start == FREE {
          return i;
        }
      }
      return -1;
    }

    method SetDirectoryEntryData(i: nat, e: DirEntry)
      requires i < |directory|
      modifies `directory
      ensures directory == old(directory)[i := e]
    {
      directory := directory[i := e];
    }

    /** A new, empty file with a cluster of its own, in the first unused entry; nothing changes on failure. */
    method CreateFile() returns (ok: bool, entry: int, ghost start: nat)
      requires Valid()
      modifies `sectors, `temp, `lastSector, `directory, `chains, `places
      ensures Valid()
      ensures ok <==> !old(NoneFree()) && !old(DirectoryFull())
      ensures !ok ==> directory == old(directory) && chains == old(chains) && Flat(sectors) == Flat(old(sectors))
      ensures ok ==> 0 <= entry < MAX_ENTRIES && entry !in old(chains)
      ensures ok ==> forall g: nat :: g < entry ==> g in old(chains)
      ensures ok ==> directory == old(directory)[entry := DirEntry(0, start)]
      ensures ok ==> chains == Started(old(chains), entry, start)
      ensures ok ==> FilesKept(clusters, old(chains), old(directory), chains, directory, -1)
    {
      var c := FindFreeCluster();
      if c == LAST {
        return false, -1, 0;
      }
      ghost var sectors0 := sectors;
      SetClusterLinkData(c, LAST);
      entry := FindFreeDirectoryEntry();
      if entry == -1 {
        SetClusterLinkData(c, FREE);
        LinkRestored(Flat(sectors0), c, Flat(sectors));
        return false, -1, 0;
      }
      RegisterFile(entry, c, sectors0);
      return true, entry, c;
    }

    /** Enters a file with the given first cluster, already marked as the end of its chain. */
    method RegisterFile(entry: nat, c: nat, ghost sectors0: seq<Sector>)
      requires Shape() && Mapped(Flat(sectors0), totalClusters, chains, places) && |sectors0| == |sectors|
      requires Entries(directory, chains) && Sizes(directory, chains, chains.Keys)
      requires entry < MAX_ENTRIES && directory[entry].start == FREE
      requires 0 < c < totalClusters && Flat(sectors0)[c] == FREE && Flat(sectors) == Flat(sectors0)[c := LAST]
      modifies `directory, `chains, `places
      ensures Valid() && entry !in old(chains)
      ensures directory == old(directory)[entry := DirEntry(0, c)]
      ensures chains == Started(old(chains), entry, c)
      ensures FilesKept(clusters, old(chains), old(directory), chains, directory, -1)
    {
      SameChainsSameFiles(clusters, chains, directory, chains[entry := [c]],
                          directory[entry := DirEntry(0, c)], entry);
      StartChain(Flat(sectors0), totalClusters, chains, places, entry, c, Flat(sectors));
      SetDirectoryEntryData(entry, DirEntry(0, c));
      chains, places := chains[entry := [c]], places[c := Place(entry, 0)];
    }

    /** Cuts a file down to its first cluster and size 0; the other clusters of its chain are freed. */
    method TruncateFile(f: nat) returns (ok: bool)
      requires Valid() && f in chains
      modifies `sectors, `temp, `directory, `chains, `places
      ensures Valid() && ok
      ensures directory == old(directory)[f := DirEntry(0, old(directory)[f].start)]
      ensures chains == old(chains)[f := [old(chains)[f][0]]]
      ensures old(chains)[f][0] < |Flat(old(sectors))|
      ensures Flat(sectors) == Freed(Flat(old(sectors))[old(chains)[f][0] := LAST], old(chains)[f][1..])
      ensures FilesKept(clusters, old(chains), old(directory), chains, directory, f)
    {
      var start := directory[f].start;
      NotLast(f, 0);
      SameChainsSameFiles(clusters, chains, directory, chains[f := [start]], directory[f := DirEntry(0, start)], f);
      ok := CutAndFree(f, start);
      if !ok {
        return;
      }
      SetDirectoryEntryData(f, DirEntry(0, start));
    }

    method CutAndFree(f: nat, start: nat) returns (ok: bool)
      requires Linked() && f in chains && f < ORPHAN && ORPHAN !in chains
      requires chains[f] != [] && chains[f][0] == start < totalClusters
      modifies `sectors, `temp, `chains, `places
      ensures Linked() && ok
      ensures chains == old(chains)[f := [start]]
      ensures Flat(sectors) == Freed(Flat(old(sectors))[start := LAST], old(chains)[f][1..])
    {
      assert OnChain(Flat(sectors), totalClusters, chains, places, f, 0);
      var second;
      ok, second := GetClusterLinkData(start);
      if !ok {
        return;
      }
      if |chains[f]| > 1 {
        NotLast(f, 1);
      }
      ghost var chains0 := chains;
      CutBehindFirst(f, start);
      ok := FreeClusterUntilEnd(second, ORPHAN);
      TruncatedChains(chains0, f, chains);
    }

    method CutBehindFirst(f: nat, start: nat)
      requires Linked() && f in chains && f < ORPHAN && ORPHAN !in chains
      requires chains[f] != [] && chains[f][0] == start
      modifies `sectors, `temp, `chains, `places
      ensures Linked() && start < totalClusters && Flat(sectors) == Flat(old(sectors))[start := LAST]
      ensures chains == if |old(chains)[f]| > 1 then CutChains(old(chains), f) else old(chains)
    {
      assert OnChain(Flat(sectors), totalClusters, chains, places, f, 0);
      ghost var link := Flat(sectors);
      SetClusterLinkData(start, LAST);
      if |chains[f]| > 1 {
        CutChain(link, totalClusters, chains, places, f, Flat(sectors));
        chains, places := CutChains(chains, f), SplitPlaces(places, f);
      } else {
        assert Flat(sectors) == link;
      }
    }

    /** A new file's entry; -1, with nothing changed, if there is no room for one. */
    method EntryToCreate() returns (entry: int)
      requires Valid()
      modifies `sectors, `temp, `lastSector, `directory, `chains, `places
      ensures Valid() && (entry == -1 <==> old(NoneFree()) || old(DirectoryFull()))
      ensures FilesKept(clusters, old(chains), old(directory), chains, directory, entry)
      ensures OthersSame(old(chains), old(directory), chains, directory, entry)
      ensures entry == -1 ==>
                chains == old(chains) && directory == old(directory) && Flat(sectors) == Flat(old(sectors))
      ensures entry != -1 ==> entry >= 0 && entry !in old(chains) && chains.Keys == old(chains).Keys + {entry}
      ensures entry != -1 ==> entry < |directory| && Content(entry) == [] && directory[entry].size == 0
      ensures entry != -1 ==> forall g: nat :: g < entry ==> g in old(chains)
    {
      var ok;
      ghost var start;
      ok, entry, start := CreateFile();
      if !ok {
        return -1;
      }
    }

    /** Empties a file; nothing changes in its chain and entry if it was empty. */
    method EmptyEntry(f: nat)
      requires Valid() && f in chains
      modifies `sectors, `temp, `directory, `chains, `places
      ensures Valid() && chains.Keys == old(chains).Keys
      ensures FilesKept(clusters, old(chains), old(directory), chains, directory, f)
      ensures OthersSame(old(chains), old(directory), chains, directory, f)
      ensures f < |directory| && directory[f].size == 0 && Content(f) == []
      ensures old(directory)[f].size == 0 ==> chains == old(chains) && directory == old(directory)
    {
      ghost var chain, e := chains[f], directory[f];
      var ok := TruncateFile(f);
      if e.size == 0 {
        assert chain == [chain[0]];
      }
    }

    /** Lets a handle stand on the first byte of a file. */
    method InitHandle(h: FileHandle, entry: nat)
      requires Valid() && entry in chains
      modifies h
      ensures h.inUse == old(h.inUse) && Open(h) && h.entry == entry && h.offset == 0
    {
      h.entry := entry;
      h.size := directory[entry].size;
      h.start := directory[entry].start;
      h.current := directory[entry].start;
      h.previous := directory[entry].start;
      h.offset := 0;
    }

    method SeekToEnd(h: FileHandle)
      requires Open(h) && h.size < DWORD
      modifies `sectors, `temp, `lastSector, `chains, `places, `clusters, `directory
      modifies h`offset, h`current, h`previous, h`size
      ensures Open(h) && Valid() && h.offset == h.size
      ensures h.size == old(h.size) && Content(h.entry) == old(Content(h.entry))
      ensures OnlyFile(old(clusters), old(chains), old(directory), old(h.size), clusters, chains, directory, h.size,
                       h.entry)
    {
      SeekToEndTarget(h.size, h.offset);
      var result;
      ghost var w;
      result, w := SeekFile(h, 0, SeekEnd, true);
      NoZeros(old(Content(h.entry)));
    }

    /** Removes a file: its clusters are freed and its entry is cleared. */
    method FreeFile(entry: nat) returns (ok: bool)
      requires Valid() && entry in chains
      modifies `sectors, `temp, `directory, `chains, `places
      ensures Valid() && ok
      ensures directory == old(directory)[entry := DirEntry(0, 0)] && chains == old(chains) - {entry}
      ensures Flat(sectors) == Freed(Flat(old(sectors)), old(chains)[entry])
      ensures FilesKept(clusters, old(chains), old(directory), chains, directory, entry)
      ensures OthersSame(old(chains), old(directory), chains, directory, entry)
    {
      NotLast(entry, 0);
      ghost var chains0 := chains;
      ok := FreeClusterUntilEnd(directory[entry].start, entry);
      if !ok {
        return;
      }
      SetDirectoryEntryData(entry, DirEntry(0, 0));
      SameChainsSameFiles(clusters, chains0, old(directory), chains, directory, entry);
    }

    /** A handle is in order exactly if the file system is and the handle fits its file. */
    lemma OpenIff(h: FileHandle)
      ensures Open(h) <==> Valid() && HandleFits(chains, directory, h.State())
    {
    }

    lemma NotLast(f: nat, k: nat)
      requires Linked() && f in chains && k < |chains[f]|
      ensures chains[f][k] < totalClusters <= LAST && chains[f][k] != LAST && chains[f][k] != 0
    {
      assert OnChain(Flat(sectors), totalClusters, chains, places, f, k);
    }
  }
}
