/**
 A file's bytes, as spread over the clusters of its chain, and the splice that a write performs.
 */
module FileImage {
  import opened ClusterChains
  import opened Bytes

  type Cluster = c: seq<byte> | |c| == CLUSTER witness seq(CLUSTER, _ => 0)

  ghost predicate InRange(clusters: seq<Cluster>, chain: seq<nat>) {
    forall k :: 0 <= k < |chain| ==> chain[k] < |clusters|
  }

  /** The clusters of a chain, end to end. */
  ghost function Image(clusters: seq<Cluster>, chain: seq<nat>): (img: seq<byte>)
    requires InRange(clusters, chain)
    ensures |img| == |chain| * CLUSTER
  {
    seq(|chain| * CLUSTER, i requires 0 <= i < |chain| * CLUSTER => clusters[chain[i / CLUSTER]][i % CLUSTER])
  }

  function Zeros(n: nat): seq<byte> {
    seq(n, _ => 0)
  }

  /** `n` bytes of `s` from `at` on are zero. */
  ghost predicate ZeroFrom(s: seq<byte>, at: nat, n: nat) {
    at + n <= |s| && forall i :: at <= i < at + n ==> s[i] == 0
  }

  lemma ZerosSpliced(s: seq<byte>, at: nat, n: nat)
    requires at <= |s|
    ensures ZeroFrom(Splice(s, at, Zeros(n)), at, n) && ZeroFrom(s + Zeros(n), |s|, n)
  {
  }

  /** `s` with the bytes from `o` on replaced by `d`; grows if `d` reaches past the end. */
  function Splice(s: seq<byte>, o: nat, d: seq<byte>): seq<byte>
    requires o <= |s|
  {
    s[..o] + d + if o + |d| <= |s| then s[o + |d|..] else []
  }

  /** A splice replaces exactly the bytes from `o` to `o + |d|`, keeps all others, and grows only to fit. */
  lemma SpliceMeaning(s: seq<byte>, o: nat, d: seq<byte>)
    requires o <= |s|
    ensures |Splice(s, o, d)| == if o + |d| <= |s| then |s| else o + |d|
    ensures Splice(s, o, d)[o..o + |d|] == d
    ensures forall i :: 0 <= i < |s| && !(o <= i < o + |d|) ==> Splice(s, o, d)[i] == s[i]
  {
    if o + |d| <= |s| {
      assert forall i :: o + |d| <= i < |s| ==> s[o + |d|..][i - o - |d|] == s[i];
    }
  }

  /** `s` followed by zeros up to length `n`. */
  function Padded(s: seq<byte>, n: nat): seq<byte> {
    if |s| >= n then s else s + Zeros(n - |s|)
  }

  lemma ImageAt(clusters: seq<Cluster>, chain: seq<nat>, i: nat)
    requires InRange(clusters, chain) && i < |chain| * CLUSTER
    ensures i / CLUSTER < |chain|
    ensures Image(clusters, chain)[i] == clusters[chain[i / CLUSTER]][i % CLUSTER]
  {
  }

  /** A slice of the image inside one cluster is a slice of that cluster. */
  lemma ImageSlice(clusters: seq<Cluster>, chain: seq<nat>, at: nat, n: nat)
    requires InRange(clusters, chain)
    requires at / CLUSTER < |chain| && at % CLUSTER + n <= CLUSTER
    ensures at + n <= |chain| * CLUSTER
    ensures Image(clusters, chain)[at..at + n] == clusters[chain[at / CLUSTER]][at % CLUSTER..at % CLUSTER + n]
  {
    var a := Image(clusters, chain)[at..at + n];
    var b := clusters[chain[at / CLUSTER]][at % CLUSTER..at % CLUSTER + n];
    forall j | 0 <= j < n ensures a[j] == b[j] {
      ImageAt(clusters, chain, at + j);
    }
  }

  /** Splicing into one cluster of a chain splices the image at that place. */
  lemma ImageWrite(clusters: seq<Cluster>, chain: seq<nat>, at: nat, d: seq<byte>, clusters': seq<Cluster>)
    requires InRange(clusters, chain)
    requires forall i, j :: 0 <= i < j < |chain| ==> chain[i] != chain[j]
    requires at / CLUSTER < |chain| && at % CLUSTER + |d| <= CLUSTER
    requires var k := chain[at / CLUSTER];
             clusters' == clusters[k := Splice(clusters[k], at % CLUSTER, d)]
    ensures InRange(clusters', chain) && at + |d| <= |chain| * CLUSTER
    ensures Image(clusters', chain) == Splice(Image(clusters, chain), at, d)
  {
    var q, r := at / CLUSTER, at % CLUSTER;
    var img, img' := Image(clusters, chain), Image(clusters', chain);
    var want := Splice(img, at, d);
    assert |want| == |img|;
    forall i | 0 <= i < |img| ensures img'[i] == want[i] {
      ImageAt(clusters, chain, i);
      ImageAt(clusters', chain, i);
      WriteByte(clusters[chain[i / CLUSTER]], i, at, d);
      if i / CLUSTER != q {
        assert chain[i / CLUSTER] != chain[q];
      }
    }
  }

  /** One byte of a cluster after a splice, by its position in the file. */
  lemma WriteByte(c: Cluster, i: nat, at: nat, d: seq<byte>)
    requires at % CLUSTER + |d| <= CLUSTER
    ensures i / CLUSTER == at / CLUSTER ==>
              Splice(c, at % CLUSTER, d)[i % CLUSTER] == if at <= i < at + |d| then d[i - at] else c[i % CLUSTER]
    ensures i / CLUSTER != at / CLUSTER ==> !(at <= i < at + |d|)
  {
    if i / CLUSTER == at / CLUSTER {
      assert i % CLUSTER - at % CLUSTER == i - at;
    }
  }

  /** Clusters outside a chain do not matter to its image. */
  lemma ImageFrame(clusters: seq<Cluster>, chain: seq<nat>, clusters': seq<Cluster>)
    requires InRange(clusters, chain) && |clusters| == |clusters'|
    requires forall k :: 0 <= k < |chain| ==> clusters'[chain[k]] == clusters[chain[k]]
    ensures InRange(clusters', chain) && Image(clusters', chain) == Image(clusters, chain)
  {
    forall i | 0 <= i < |chain| * CLUSTER ensures Image(clusters', chain)[i] == Image(clusters, chain)[i] {
      ImageAt(clusters, chain, i);
    }
  }

  lemma ImageAppend(clusters: seq<Cluster>, chain: seq<nat>, c: nat)
    requires InRange(clusters, chain) && c < |clusters|
    ensures InRange(clusters, chain + [c])
    ensures Image(clusters, chain + [c]) == Image(clusters, chain) + clusters[c]
  {
    var img, img' := Image(clusters, chain), Image(clusters, chain + [c]);
    forall i | 0 <= i < |img'| ensures img'[i] == (img + clusters[c])[i] {
      ImageAt(clusters, chain + [c], i);
    }
  }

  // ----- splices in sequence

  /** Two adjacent splices are one. */
  lemma SpliceTwice(s: seq<byte>, o: nat, d: seq<byte>, e: seq<byte>)
    requires o + |d| + |e| <= |s|
    ensures Splice(Splice(s, o, d), o + |d|, e) == Splice(s, o, d + e)
  {
  }

  lemma PaddedTwice(s: seq<byte>, m: nat, n: nat)
    requires m <= n
    ensures Padded(Padded(s, m), n) == Padded(s, n)
  {
  }

  /** Splicing into the padded image and cutting at the new size is splicing into the contents. */
  lemma SpliceContents(img: seq<byte>, size: nat, o: nat, d: seq<byte>, n: nat)
    requires o <= size <= |img| && o + |d| <= n && |img| <= n
    ensures var size' := if size < o + |d| then o + |d| else size;
            && size' <= n
            && Splice(Padded(img, n), o, d)[..size'] == Splice(img[..size], o, d)
  {
    var size' := if size < o + |d| then o + |d| else size;
    var a, b := Splice(Padded(img, n), o, d)[..size'], Splice(img[..size], o, d);
    assert |a| == |b|;
    forall i | 0 <= i < |a| ensures a[i] == b[i] {
    }
  }

  /** One more chunk: what has been spliced so far, extended by the next bytes. */
  lemma SpliceChunk(img0: seq<byte>, img1: seq<byte>, n: nat, o: nat, d: seq<byte>, e: seq<byte>)
    requires o <= |img0| <= |img1| && img1 == Splice(Padded(img0, |img1|), o, d)
    requires o + |d| <= |img1| <= n && o + |d| + |e| <= n
    ensures Splice(Padded(img1, n), o + |d|, e) == Splice(Padded(img0, n), o, d + e)
  {
    PaddedTwice(img0, |img1|, n);
    SpliceTwice(Padded(img0, n), o, d, e);
  }
}
