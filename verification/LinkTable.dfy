/**
 The cluster link table as the disk holds it, in sectors of 128 links, what the search for a free cluster
 looks at, and the layout of a formatted disk.
 */
module LinkTable {
  import opened Words
  import opened ClusterChains

  const LINKS: nat := 128

  type Sector = s: seq<nat> | |s| == LINKS witness seq(LINKS, _ => 0)

  // ----- the link table as one sequence

  ghost function Flat(ss: seq<Sector>): (link: seq<nat>)
    ensures |link| == |ss| * LINKS
  {
    seq(|ss| * LINKS, i requires 0 <= i < |ss| * LINKS => ss[i / LINKS][i % LINKS])
  }

  lemma FlatUpdate(ss: seq<Sector>, c: nat, d: nat)
    requires c / LINKS < |ss|
    ensures c < |ss| * LINKS
    ensures Flat(ss[c / LINKS := ss[c / LINKS][c % LINKS := d]]) == Flat(ss)[c := d]
  {
    var ss' := ss[c / LINKS := ss[c / LINKS][c % LINKS := d]];
    forall i | 0 <= i < |ss| * LINKS ensures Flat(ss')[i] == Flat(ss)[c := d][i] {
      SameIndex(i, c);
    }
  }

  lemma SameIndex(i: nat, c: nat)
    ensures i == c <==> i / LINKS == c / LINKS && i % LINKS == c % LINKS
  {
  }

  // ----- what the free search looks at

  function SectorCount(total: nat): nat {
    (total + LINKS - 1) / LINKS
  }

  /** Links of a sector that the search examines: `total % 128` in the last sector, 128 in the others. */
  function SearchCount(total: nat, s: nat): nat {
    if s + 1 == SectorCount(total) then total % LINKS else LINKS
  }

  /** Clusters below this index are examined, and no others. */
  function SearchBound(total: nat): nat
    requires total > 0
  {
    (SectorCount(total) - 1) * LINKS + total % LINKS
  }

  /** The bound is the total, except that a full last sector is never examined. */
  lemma SearchBoundExact(total: nat)
    requires total > 0
    ensures SearchBound(total) == if total % LINKS == 0 then total - LINKS else total
  {
  }

  /** With a partial last sector, a search that finds nothing free means that nothing is free. */
  lemma SearchIsComplete(link: seq<nat>, total: nat)
    requires 0 < total <= |link| && total % LINKS != 0
    requires forall c :: 0 <= c < SearchBound(total) && c < |link| ==> link[c] != FREE
    ensures forall c :: 0 <= c < total ==> link[c] != FREE
  {
    SearchBoundExact(total);
  }

  ghost predicate SectorUsed(ss: seq<Sector>, total: nat, s: nat)
    requires s < |ss|
  {
    forall j :: 0 <= j < SearchCount(total, s) ==> ss[s][j] != FREE
  }

  /** Sector `s` comes among the first `i` of the cyclic order that starts at `last`. */
  predicate Visited(n: nat, last: nat, i: nat, s: nat) {
    last <= s < last + i || s + n < last + i
  }

  /** From `last` on, wrapping around, the sectors before `s` are all in use. */
  ghost predicate FirstFrom(ss: seq<Sector>, total: nat, last: nat, s: nat) {
    forall r :: 0 <= r < |ss| && (if last <= s then last <= r < s else last <= r || r < s) ==> SectorUsed(ss, total, r)
  }

  lemma FirstOfVisited(ss: seq<Sector>, total: nat, last: nat, i: nat, s: nat)
    requires last < |ss| && i < |ss| && s == (last + i) % |ss|
    requires forall r :: 0 <= r < |ss| && Visited(|ss|, last, i, r) ==> SectorUsed(ss, total, r)
    ensures FirstFrom(ss, total, last, s)
  {
    CyclicSector(|ss|, last, i);
  }

  lemma NoneFreeBySector(ss: seq<Sector>, total: nat)
    requires total > 0 && |ss| == SectorCount(total)
    requires forall s :: 0 <= s < |ss| ==> SectorUsed(ss, total, s)
    ensures forall c :: 0 <= c < SearchBound(total) ==> Flat(ss)[c] != FREE
  {
    forall c | 0 <= c < SearchBound(total) ensures Flat(ss)[c] != FREE {
      SearchBoundExact(total);
      assert SectorUsed(ss, total, c / LINKS);
      assert c % LINKS < SearchCount(total, c / LINKS);
    }
  }

  lemma FreeIndex(ss: seq<Sector>, total: nat, s: nat, j: nat)
    requires total > 0 && |ss| == SectorCount(total)
    requires s < |ss| && j < SearchCount(total, s) && j < LINKS
    ensures s * LINKS + j < SearchBound(total) <= total && s * LINKS + j < |ss| * LINKS
    ensures Flat(ss)[s * LINKS + j] == ss[s][j]
    ensures (s * LINKS + j) / LINKS == s && (s * LINKS + j) % LINKS == j
  {
    SearchBoundExact(total);
  }

  // ----- the layout of a formatted disk

  const SECTORS_PER_CLUSTER: nat := 8

  /**
   Data clusters of a disk of `totalSectors` sectors, after the boot sector and the first link estimate, in
   32-bit unsigned arithmetic.
   */
  function FormatClusters(totalSectors: nat): nat {
    var linkSectors := (totalSectors / SECTORS_PER_CLUSTER + 127) / 128;
    (totalSectors - 1 - linkSectors) % DWORD / SECTORS_PER_CLUSTER
  }

  /**
   There is a data cluster, and the boot sector, the link table and the data clusters fit on the disk, exactly
   if it has ten sectors or more. Then one cluster more would not fit behind the estimated link table.
   */
  lemma FormatFits(totalSectors: nat)
    requires totalSectors < DWORD
    ensures var c := FormatClusters(totalSectors);
            c > 0 && 1 + SectorCount(c) + SECTORS_PER_CLUSTER * c <= totalSectors <==> totalSectors >= 10
    ensures totalSectors >= 10 ==>
              var estimate := (totalSectors / 8 + 127) / 128;
              totalSectors >= 1 + estimate && totalSectors < 1 + estimate + 8 * (FormatClusters(totalSectors) + 1)
  {
    if totalSectors >= 10 {
      EnoughSectors(totalSectors);
    } else if totalSectors == 0 {
      assert FormatClusters(totalSectors) == (DWORD - 1) / SECTORS_PER_CLUSTER;
    } else {
      assert FormatClusters(totalSectors) == 0;
    }
  }

  lemma EnoughSectors(totalSectors: nat)
    requires 10 <= totalSectors < DWORD
    ensures totalSectors >= 1 + (totalSectors / SECTORS_PER_CLUSTER + 127) / 128
    ensures var c := FormatClusters(totalSectors);
            && c > 0 && 1 + SectorCount(c) + SECTORS_PER_CLUSTER * c <= totalSectors
            && totalSectors < 1 + (totalSectors / 8 + 127) / 128 + 8 * (c + 1)
  {
    var estimate := (totalSectors / SECTORS_PER_CLUSTER + 127) / 128;
    var remaining := totalSectors - 1 - estimate;
    assert remaining >= 8;
    var c := remaining / SECTORS_PER_CLUSTER;
    assert c <= totalSectors / SECTORS_PER_CLUSTER;
    assert SectorCount(c) <= estimate;
    assert c == FormatClusters(totalSectors);
  }

  lemma FormattedLinks(ss: seq<Sector>, zero: Sector)
    requires ss != [] && forall i :: 0 <= i < LINKS ==> zero[i] == FREE
    requires forall k :: 0 <= k < |ss| ==> ss[k] == if k == 0 then zero[0 := LAST] else zero
    ensures Flat(ss)[0] == LAST && forall c :: 0 < c < |Flat(ss)| ==> Flat(ss)[c] == FREE
  {
  }

  lemma CyclicSector(n: nat, last: nat, i: nat)
    requires last < n && i < n
    ensures (last + i) % n == if last + i < n then last + i else last + i - n
    ensures (last + i) % n == n - 1 <==> last + i == n - 1
  {
    if last + i < n {
      assert (last + i) % n == last + i;
    } else {
      assert (last + i - n) % n == (last + i) % n;
    }
  }
}
