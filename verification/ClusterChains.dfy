/**
 Cluster chains over a link table: every file owns a chain of clusters linked one to the next and
 ended by a marker, chains share no cluster, and every cluster in use lies on a chain.
 */
module ClusterChains {

  const LAST: nat := 0xffff_ffff
  const FREE: nat := 0

  /** The key of a chain that belongs to no directory entry while it is being freed. */
  const ORPHAN: nat := 128

  datatype Place = Place(file: nat, pos: nat)

  type Chains = map<nat, seq<nat>>
  type Places = map<nat, Place>

  /** The link of the `k`-th cluster of a chain: the next cluster, or the end marker. */
  function NextIn(chain: seq<nat>, k: nat): nat {
    if k + 1 < |chain| then chain[k + 1] else LAST
  }

  ghost predicate OnChain(link: seq<nat>, total: nat, chains: Chains, places: Places, f: nat, k: nat)
    requires f in chains && k < |chains[f]|
  {
    var c := chains[f][k];
    0 < c < total <= |link| && c in places && places[c] == Place(f, k) && link[c] == NextIn(chains[f], k)
  }

  ghost predicate InPlace(chains: Chains, places: Places, c: nat)
    requires c in places
  {
    places[c].file in chains && places[c].pos < |chains[places[c].file]| && chains[places[c].file][places[c].pos] == c
  }

  /**
   The link table holds exactly these chains. `places` inverts them, so a cluster occurs once, on one
   chain; a cluster other than 0 is in use exactly if it has a place, and cluster 0 is never free. The links
   behind the last cluster, which fill up the last sector, are never set.
   */
  ghost predicate Mapped(link: seq<nat>, total: nat, chains: Chains, places: Places) {
    && 0 < total <= |link| && total <= LAST && link[0] == LAST
    && (forall f :: f in chains ==> chains[f] != [])
    && (forall f, k :: f in chains && 0 <= k < |chains[f]| ==> OnChain(link, total, chains, places, f, k))
    && (forall c {:trigger InPlace(chains, places, c)} :: c in places ==> InPlace(chains, places, c))
    && (forall c :: 0 < c < total ==> (link[c] == FREE <==> c !in places))
    && (forall c :: total <= c < |link| ==> link[c] == FREE)
  }

  // ----- what it means, without the inverse

  /** Chains are acyclic and share no cluster. */
  lemma ChainsShareNothing(link: seq<nat>, total: nat, chains: Chains, places: Places, f: nat, i: nat, g: nat, j: nat)
    requires Mapped(link, total, chains, places)
    requires f in chains && i < |chains[f]| && g in chains && j < |chains[g]|
    ensures chains[f][i] == chains[g][j] ==> f == g && i == j
  {
    assert OnChain(link, total, chains, places, f, i);
    assert OnChain(link, total, chains, places, g, j);
  }

  /** Every cluster in use, except 0, lies on a chain. */
  lemma UsedClusterOnChain(link: seq<nat>, total: nat, chains: Chains, places: Places, c: nat) returns (f: nat, k: nat)
    requires Mapped(link, total, chains, places)
    requires 0 < c < total && link[c] != FREE
    ensures f in chains && k < |chains[f]| && chains[f][k] == c
  {
    assert InPlace(chains, places, c);
    f, k := places[c].file, places[c].pos;
  }

  // ----- steps

  /** A free cluster becomes the one-cluster chain of a new file. */
  lemma StartChain(link: seq<nat>, total: nat, chains: Chains, places: Places, f: nat, c: nat, link': seq<nat>)
    requires Mapped(link, total, chains, places)
    requires f !in chains && 0 < c < total && link[c] == FREE
    requires link' == link[c := LAST]
    ensures Mapped(link', total, chains[f := [c]], places[c := Place(f, 0)])
  {
    var chains', places' := chains[f := [c]], places[c := Place(f, 0)];
    forall g, k | g in chains' && 0 <= k < |chains'[g]| ensures OnChain(link', total, chains', places', g, k) {
      if g != f {
        assert OnChain(link, total, chains, places, g, k);
      }
    }
    forall d | d in places' ensures InPlace(chains', places', d) {
      if d != c {
        assert InPlace(chains, places, d);
      }
    }
  }

  /** A free cluster is linked behind the last cluster of a chain. */
  lemma ExtendChain(link: seq<nat>, total: nat, chains: Chains, places: Places, f: nat, c: nat, link': seq<nat>)
    requires Mapped(link, total, chains, places)
    requires f in chains && 0 < c < total && link[c] == FREE
    requires chains[f][|chains[f]| - 1] < |link|
    requires link' == link[c := LAST][chains[f][|chains[f]| - 1] := c]
    ensures Mapped(link', total, chains[f := chains[f] + [c]], places[c := Place(f, |chains[f]|)])
  {
    var chain := chains[f];
    var n := |chain| - 1;
    var chains', places' := chains[f := chain + [c]], places[c := Place(f, |chain|)];
    assert OnChain(link, total, chains, places, f, n);
    forall g, k | g in chains' && 0 <= k < |chains'[g]| ensures OnChain(link', total, chains', places', g, k) {
      if g != f || k <= n {
        assert OnChain(link, total, chains, places, g, k);
      }
    }
    forall d | d in places' ensures InPlace(chains', places', d) {
      if d != c {
        assert InPlace(chains, places, d);
      }
    }
  }

  ghost function PoppedPlaces(places: Places, f: nat, head: nat): Places {
    map c | c in places && c != head ::
      if places[c].file == f && places[c].pos > 0 then Place(f, places[c].pos - 1) else places[c]
  }

  ghost function PoppedChains(chains: Chains, f: nat): Chains
    requires f in chains && chains[f] != []
  {
    if |chains[f]| == 1 then chains - {f} else chains[f := chains[f][1..]]
  }

  /** The first cluster of a chain is freed; the rest of the chain, if any, remains. */
  lemma PopChain(link: seq<nat>, total: nat, chains: Chains, places: Places, f: nat, link': seq<nat>)
    requires Mapped(link, total, chains, places)
    requires f in chains && chains[f][0] < |link|
    requires link' == link[chains[f][0] := FREE]
    ensures Mapped(link', total, PoppedChains(chains, f), PoppedPlaces(places, f, chains[f][0]))
  {
    var head := chains[f][0];
    var chains', places' := PoppedChains(chains, f), PoppedPlaces(places, f, head);
    assert OnChain(link, total, chains, places, f, 0);
    forall g, k | g in chains' && 0 <= k < |chains'[g]| ensures OnChain(link', total, chains', places', g, k) {
      var j := if g == f then k + 1 else k;
      assert OnChain(link, total, chains, places, g, j);
      assert chains'[g][k] == chains[g][j];
    }
    forall c | c in places' ensures InPlace(chains', places', c) {
      assert InPlace(chains, places, c);
      assert places[c].file == f ==> places[c].pos > 0;
    }
  }

  ghost function CutChains(chains: Chains, f: nat): Chains
    requires f in chains && |chains[f]| > 1
  {
    chains[f := chains[f][..1]][ORPHAN := chains[f][1..]]
  }

  ghost function SplitPlaces(places: Places, f: nat): Places {
    map c | c in places ::
      if places[c].file == f && places[c].pos > 0 then Place(ORPHAN, places[c].pos - 1) else places[c]
  }

  /** A chain is cut behind its first cluster; the rest is set aside under the orphan key. */
  lemma CutChain(link: seq<nat>, total: nat, chains: Chains, places: Places, f: nat, link': seq<nat>)
    requires Mapped(link, total, chains, places)
    requires f in chains && f != ORPHAN && ORPHAN !in chains && |chains[f]| > 1 && chains[f][0] < |link|
    requires link' == link[chains[f][0] := LAST]
    ensures Mapped(link', total, CutChains(chains, f), SplitPlaces(places, f))
  {
    var chains', places' := CutChains(chains, f), SplitPlaces(places, f);
    assert OnChain(link, total, chains, places, f, 0);
    forall g, k | g in chains' && 0 <= k < |chains'[g]| ensures OnChain(link', total, chains', places', g, k) {
      var h, j := if g == ORPHAN then f else g, if g == ORPHAN then k + 1 else k;
      assert OnChain(link, total, chains, places, h, j);
      assert chains'[g][k] == chains[h][j];
    }
    forall c | c in places' ensures InPlace(chains', places', c) {
      assert InPlace(chains, places, c);
    }
  }

  /** The link table with the given clusters freed. */
  ghost function Freed(link: seq<nat>, cs: seq<nat>): seq<nat> {
    seq(|link|, i requires 0 <= i < |link| => if i in cs then FREE else link[i])
  }

  /** After `d` clusters of a chain have been popped, the rest is left under its key. */
  ghost function Popped(chains: Chains, f: nat, d: nat): Chains
    requires f in chains && d <= |chains[f]|
  {
    if d == |chains[f]| then chains - {f} else chains[f := chains[f][d..]]
  }

  // ----- sizes

  const CLUSTER: nat := 4096

  /** Clusters of a file of `size` bytes: at least one. */
  function ChainLength(size: nat): nat {
    if size == 0 then 1 else (size + CLUSTER - 1) / CLUSTER
  }
}
