/**
 Directory entries, the position of a file handle in its chain, and what writing, creating, truncating and
 removing do to the files' contents.
 */
module FileState {
  import opened Words
  import opened ClusterChains
  import opened FileImage
  import opened Bytes
  import opened LinkTable

  const MAX_ENTRIES: nat := 128

  /** A directory entry; a start cluster of 0 marks it unused. */
  datatype DirEntry = DirEntry(size: nat, start: nat)

  // ----- the cursor of a handle

  /** The chain position of an offset: its cluster, or the end marker; and the cluster before it. */
  ghost predicate Cursor(chain: seq<nat>, start: nat, current: nat, previous: nat, offset: nat) {
    var i := offset / CLUSTER;
    && chain != [] && i <= |chain| && start == chain[0]
    && current == (if i < |chain| then chain[i] else LAST)
    && previous == (if i == 0 then chain[0] else chain[i - 1])
  }

  function ClusterAt(chain: seq<nat>, i: nat): nat {
    if i < |chain| then chain[i] else LAST
  }

  datatype Origin = SeekSet | SeekCur | SeekEnd | SeekOther

  /** The offset a seek asks for, in the code's 32-bit unsigned arithmetic. */
  function SeekTarget(size: nat, offset: nat, distance: int, origin: Origin): (target: nat)
    ensures target < DWORD
  {
    match origin
    case SeekSet => if distance <= 0 then 0 else distance % DWORD
    case SeekCur => if distance < 0 && offset <= -distance then 0 else (offset + distance) % DWORD
    case SeekEnd => if distance < 0 && size <= -distance then 0 else (size + distance) % DWORD
    case SeekOther => 0
  }

  /** Advancing within a cluster keeps its place; reaching its end moves to the next. */
  lemma CursorAdvance(chain: seq<nat>, start: nat, current: nat, previous: nat, offset: nat, n: nat)
    requires Cursor(chain, start, current, previous, offset)
    requires offset / CLUSTER < |chain| && 0 < n && offset % CLUSTER + n <= CLUSTER
    ensures if (offset + n) % CLUSTER == 0
            then Cursor(chain, start, NextIn(chain, offset / CLUSTER), current, offset + n)
            else Cursor(chain, start, current, previous, offset + n)
  {
    var i := offset / CLUSTER;
    if offset % CLUSTER + n == CLUSTER {
      assert offset + n == (i + 1) * CLUSTER;
    } else {
      assert (offset + n) / CLUSTER == i;
    }
  }

  function Max(a: nat, b: nat): nat {
    if a < b then b else a
  }

  function Min(a: nat, b: nat): nat {
    if a < b then a else b
  }

  // ----- the directory and the chains

  /** Every directory entry in use starts its own chain, and no other chains exist. */
  ghost predicate Entries(directory: seq<DirEntry>, chains: Chains) {
    && |directory| == MAX_ENTRIES
    && (forall f :: f in chains ==> f < MAX_ENTRIES && chains[f] != [] && chains[f][0] == directory[f].start)
    && (forall f :: 0 <= f < MAX_ENTRIES ==> (f in chains <==> directory[f].start != FREE))
  }

  /** The chains of these files are as long as their recorded sizes ask for. */
  ghost predicate Sizes(directory: seq<DirEntry>, chains: Chains, files: set<nat>) {
    forall f :: f in files && f in chains ==>
      f < |directory| && |chains[f]| == ChainLength(directory[f].size)
  }

  /** Outside the chain of `f`, no chain and no data cluster of a chain has changed. */
  ghost predicate OthersKept(clusters: seq<Cluster>, chains: Chains, clusters': seq<Cluster>, chains': Chains, f: nat)
  {
    && chains'.Keys == chains.Keys && |clusters'| == |clusters|
    && (forall g :: g in chains && g != f ==> chains'[g] == chains[g])
    && (forall g, k :: g in chains && g != f && 0 <= k < |chains[g]| && chains[g][k] < |clusters| ==>
          clusters'[chains[g][k]] == clusters[chains[g][k]])
  }

  /** Writing to a cluster of one chain, or to one that was on none, leaves the others alone. */
  lemma OwnCluster(link: seq<nat>, total: nat, chains: Chains, places: Places, f: nat, c: nat, b: Cluster,
                   chain: seq<nat>, clusters: seq<Cluster>, clusters': seq<Cluster>)
    requires Mapped(link, total, chains, places) && f in chains && |clusters| == total && c < total
    requires c in places ==> places[c].file == f
    requires clusters' == clusters[c := b]
    ensures OthersKept(clusters, chains, clusters', chains[f := chain], f)
  {
    forall g, k | g in chains && g != f && 0 <= k < |chains[g]| ensures chains[g][k] != c {
      assert OnChain(link, total, chains, places, g, k);
    }
  }

  lemma DistinctChain(link: seq<nat>, total: nat, chains: Chains, places: Places, f: nat)
    requires Mapped(link, total, chains, places) && f in chains
    ensures forall i, j :: 0 <= i < j < |chains[f]| ==> chains[f][i] != chains[f][j]
  {
    forall i, j | 0 <= i < j < |chains[f]| ensures chains[f][i] != chains[f][j] {
      ChainsShareNothing(link, total, chains, places, f, i, f, j);
    }
  }

  /** The length of a chain after a chunk has been written, with one more cluster if it was needed. */
  lemma LengthAdvance(length: nat, size: nat, offset: nat, n: nat)
    requires length == ChainLength(Max(size, offset)) && 0 < n && offset % CLUSTER + n <= CLUSTER
    requires offset / CLUSTER <= length
    ensures offset / CLUSTER < length ==> length == ChainLength(Max(size, offset + n))
    ensures offset / CLUSTER == length ==> length + 1 == ChainLength(Max(size, offset + n))
  {
    var i := offset / CLUSTER;
    assert offset == i * CLUSTER + offset % CLUSTER;
    ChainLengthRange(Max(size, offset));
    ChainLengthRange(Max(size, offset + n));
  }

  lemma ChainLengthRange(size: nat)
    ensures size <= ChainLength(size) * CLUSTER
    ensures size > 0 ==> (ChainLength(size) - 1) * CLUSTER < size
    ensures ChainLength(size) >= 1
  {
  }

  /** Every cluster of a file of this size is full. */
  predicate FullClusters(size: nat) {
    size > 0 && size % CLUSTER == 0
  }

  /**
   Writing `n` bytes at `offset` does not make a file of this size grow: they lie inside it, or its clusters are
   full and the search for another one would find none.
   */
  predicate KeepsSize(size: nat, offset: nat, n: nat, none: bool) {
    offset + n <= size || (none && FullClusters(size))
  }

  /** A seek that does not leave the handle past the end of the file it has. */
  predicate SeekStays(size: nat, target: nat) {
    target <= size || SeekExtends(size, target)
  }

  /** The target lies in a later cluster than the end of the file, so zeros are appended. */
  predicate SeekExtends(size: nat, target: nat) {
    size / CLUSTER < target / CLUSTER
  }

  /** A seek that makes the file grow: `memory` says whether a buffer of zeros could be had. */
  predicate SeekGrows(size: nat, target: nat, memory: bool, none: bool) {
    SeekExtends(size, target) && memory && !(none && FullClusters(size))
  }

  /**
   A seek that has appended `written` zeros and ends at `offset`: at the target, or at the end of a file that could
   not be extended that far. `none` and `none'` say whether the search for a free cluster finds none, before the
   seek and after it.
   */
  ghost predicate SeekEnds(size: nat, target: nat, memory: bool, none: bool, written: nat, offset: nat, none': bool) {
    && (written > 0 <==> SeekGrows(size, target, memory, none))
    && written <= (if SeekExtends(size, target) then target - size else 0)
    && offset == (if SeekExtends(size, target) then size + written else target)
    && (memory && SeekExtends(size, target) && !none' ==> offset == target)
  }

  /**
   A seek to `sum` ends at `offset`: at the sum, as long as that lies inside the file or in the cluster of its end; at
   the start for a sum that is not positive; and for a sum in a later cluster as far behind the end as zeros were
   appended, which is at the sum unless there was no memory or no room.
   */
  ghost predicate LandsAt(sum: int, size: nat, memory: bool, none': bool, offset: nat, written: nat) {
    && (sum <= 0 ==> offset == 0 && written == 0)
    && (0 <= sum <= size ==> offset == sum && written == 0)
    && (size < sum && sum / CLUSTER == size / CLUSTER ==> offset == sum && written == 0)
    && (size < sum && sum / CLUSTER > size / CLUSTER ==>
          offset == size + written && offset <= sum && (memory && !none' ==> offset == sum))
  }

  /** A sum of 32 bits or more wraps around. */
  function Wrapped(sum: int): int {
    if sum >= DWORD then sum - DWORD else sum
  }

  lemma TargetFrom(size: nat, at: nat, distance: int, origin: Origin)
    requires at <= size < DWORD && distance < DWORD
    ensures var base := match origin
                        case SeekSet => 0
                        case SeekCur => at
                        case SeekEnd => size
                        case SeekOther => -distance;
            SeekTarget(size, at, distance, origin) == if base + distance <= 0 then 0 else Wrapped(base + distance)
  {
  }

  /** Where a seek ends, by its origin: the start of the file, the current place `at`, or the end. */
  ghost predicate SeekLands(size: nat, at: nat, distance: int, origin: Origin, memory: bool, none': bool,
                            offset: nat, written: nat)
  {
    match origin
    case SeekSet => LandsAt(distance, size, memory, none', offset, written)
    case SeekCur => LandsAt(Wrapped(at + distance), size, memory, none', offset, written)
    case SeekEnd => LandsAt(Wrapped(size + distance), size, memory, none', offset, written)
    case SeekOther => offset == 0 && written == 0
  }

  lemma SeekMeans(size: nat, at: nat, distance: int, origin: Origin, memory: bool, none: bool, written: nat,
                  offset: nat, none': bool)
    requires at <= size < DWORD && distance < DWORD
    requires SeekEnds(size, SeekTarget(size, at, distance, origin), memory, none, written, offset, none')
    ensures SeekLands(size, at, distance, origin, memory, none', offset, written)
  {
    TargetFrom(size, at, distance, origin);
    EndsLand(size, SeekTarget(size, at, distance, origin), memory, none, written, offset, none');
  }

  lemma EndsLand(size: nat, target: nat, memory: bool, none: bool, written: nat, offset: nat, none': bool)
    requires SeekEnds(size, target, memory, none, written, offset, none')
    ensures LandsAt(target, size, memory, none', offset, written)
  {
  }

  /** Either nothing was linked, or a cluster was found free and the chain of `f` is longer. */
  ghost predicate Claimed(ss0: seq<Sector>, ch0: Chains, ss1: seq<Sector>, ch1: Chains, f: nat, none: bool) {
    f in ch0 && f in ch1 && ((ss1 == ss0 && ch1 == ch0) || (!none && |ch1[f]| > |ch0[f]|))
  }

  /** Whether a write makes the file grow is decided by what was known before it. */
  lemma GrowthDecided(size0: nat, offset0: nat, n: nat, size1: nat, offset1: nat, length0: nat, length1: nat,
                      none0: bool)
    requires offset0 <= size0 && offset1 <= offset0 + n && size1 == Max(size0, offset1)
    requires length0 == ChainLength(size0) && length1 == ChainLength(size1)
    requires length1 == length0 || (!none0 && length1 > length0)
    requires offset1 < offset0 + n ==> offset1 / CLUSTER == length1 && (length1 == length0 ==> none0)
    ensures size1 == size0 <==> KeepsSize(size0, offset0, n, none0)
  {
    ChainLengthRange(size0);
    ChainLengthRange(size1);
  }

  /** A chunk written behind the last cluster: the image grows by a cluster of zeros and is spliced there. */
  lemma GrowImage(clusters: seq<Cluster>, chain: seq<nat>, c: nat)
    requires InRange(clusters, chain) && c < |clusters| && c !in chain
    ensures InRange(clusters[c := Zeros(CLUSTER)], chain + [c])
    ensures Image(clusters[c := Zeros(CLUSTER)], chain + [c])
            == Padded(Image(clusters, chain), (|chain| + 1) * CLUSTER)
  {
    var clusters' := clusters[c := Zeros(CLUSTER)];
    ImageFrame(clusters, chain, clusters');
    ImageAppend(clusters', chain, c);
  }

  /** Chunk `chunk` has been written at offset `at`: the image is spliced, growing with zeros if need be. */
  ghost predicate Wrote(clusters: seq<Cluster>, chains: Chains, clusters': seq<Cluster>, chains': Chains,
                        f: nat, at: nat, chunk: seq<byte>)
  {
    && f in chains && f in chains' && InRange(clusters, chains[f]) && InRange(clusters', chains'[f])
    && OthersKept(clusters, chains, clusters', chains', f)
    && Extends(chains[f], chains'[f])
    && Spliced(Image(clusters, chains[f]), Image(clusters', chains'[f]), at, chunk)
  }

  ghost predicate Extends(chain: seq<nat>, chain': seq<nat>) {
    |chain| <= |chain'| && chain'[..|chain|] == chain
  }

  ghost predicate Spliced(img: seq<byte>, img': seq<byte>, at: nat, chunk: seq<byte>) {
    && at <= |img| <= |img'| && at + |chunk| <= |img'|
    && img' == Splice(Padded(img, |img'|), at, chunk)
  }

  lemma WroteGrown(clusters: seq<Cluster>, chains: Chains, clusters': seq<Cluster>, chains': Chains,
                   f: nat, c: nat, at: nat, chunk: seq<byte>)
    requires f in chains && InRange(clusters, chains[f]) && c < |clusters| && c !in chains[f]
    requires chains' == chains[f := chains[f] + [c]]
    requires OthersKept(clusters, chains', clusters', chains', f) && InRange(clusters', chains'[f])
    requires at == |chains[f]| * CLUSTER && |chunk| <= CLUSTER
    requires InRange(clusters[c := Zeros(CLUSTER)], chains'[f])
    requires Image(clusters', chains'[f]) == Splice(Image(clusters[c := Zeros(CLUSTER)], chains'[f]), at, chunk)
    ensures Wrote(clusters, chains, clusters', chains', f, at, chunk)
  {
    GrowImage(clusters, chains[f], c);
    assert OthersKept(clusters, chains, clusters, chains', f);
  }

  lemma PrefixGrows(s: seq<byte>, i: nat, n: nat)
    requires i + n <= |s|
    ensures s[..i] + s[i..i + n] == s[..i + n]
  {
  }

  lemma SplicedMore(img0: seq<byte>, img1: seq<byte>, img2: seq<byte>, at: nat, d: seq<byte>, e: seq<byte>)
    requires Spliced(img0, img1, at, d) && Spliced(img1, img2, at + |d|, e)
    ensures Spliced(img0, img2, at, d + e)
  {
    SpliceChunk(img0, img1, |img2|, at, d, e);
  }

  lemma WroteMore(cl0: seq<Cluster>, ch0: Chains, cl1: seq<Cluster>, ch1: Chains, cl2: seq<Cluster>, ch2: Chains,
                  f: nat, at: nat, d: seq<byte>, mid: nat, e: seq<byte>, de: seq<byte>)
    requires Wrote(cl0, ch0, cl1, ch1, f, at, d) && Wrote(cl1, ch1, cl2, ch2, f, mid, e)
    requires mid == at + |d| && de == d + e
    ensures Wrote(cl0, ch0, cl2, ch2, f, at, de)
  {
    assert ch2[f][..|ch0[f]|] == ch2[f][..|ch1[f]|][..|ch0[f]|];
    SplicedMore(Image(cl0, ch0[f]), Image(cl1, ch1[f]), Image(cl2, ch2[f]), at, d, e);
  }

  /** Appending the bytes just read to those read before. */
  lemma JoinRead(b0: seq<byte>, b1: seq<byte>, content: seq<byte>, img: seq<byte>,
                 at: nat, done: nat, next: nat, total: nat)
    requires done <= next <= total <= |b0| == |b1| && at + next <= |content| <= |img| && content == img[..|content|]
    requires b0[..done] == content[at..at + done] && b1[..done] == b0[..done] && b1[next..] == b0[next..]
    requires b1[done..next] == img[at + done..at + next]
    ensures b1[..next] == content[at..at + next]
    ensures b1[total..] == b0[total..]
  {
    assert b1[..next] == b1[..done] + b1[done..next];
    assert b1[total..] == b1[next..][total - next..];
    assert b0[total..] == b0[next..][total - next..];
  }

  /** Zeros spliced behind zeros. */
  lemma SpliceZeros(content: seq<byte>, at: nat, m: nat, n: nat)
    requires at <= |content|
    ensures |Splice(content, at, Zeros(m))| >= at + m
    ensures Splice(Splice(content, at, Zeros(m)), at + m, Zeros(n)) == Splice(content, at, Zeros(m + n))
    ensures Splice(content, |content|, Zeros(m)) == content + Zeros(m)
  {
    assert Zeros(m) + Zeros(n) == Zeros(m + n);
  }

  lemma ZerosJoined(content: seq<byte>, c0: seq<byte>, c1: seq<byte>, at: nat, before: nat, mid: nat, size: nat, w: nat)
    requires at <= |content| && c0 == Splice(content, at, Zeros(before)) && mid == at + before <= |c0|
    requires w <= size && c1 == Splice(c0, mid, Zeros(size)[..w])
    ensures c1 == Splice(content, at, Zeros(before + w))
  {
    SpliceZeros(content, at, before, w);
  }

  /** Every file of before, other than `f`, is still there with the same contents. */
  ghost predicate FilesKept(clusters: seq<Cluster>, ch0: Chains, dir0: seq<DirEntry>,
                            ch1: Chains, dir1: seq<DirEntry>, f: int)
  {
    forall g :: g in ch0 && g != f ==>
      g in ch1 && ContentOf(clusters, ch1, dir1, g) == ContentOf(clusters, ch0, dir0, g)
  }

  lemma SameChainsSameFiles(clusters: seq<Cluster>, ch0: Chains, dir0: seq<DirEntry>,
                            ch1: Chains, dir1: seq<DirEntry>, f: int)
    requires |dir0| == |dir1| && forall g :: 0 <= g < |dir0| && g != f ==> dir1[g] == dir0[g]
    requires forall g :: g in ch0 && g != f ==> g in ch1 && ch1[g] == ch0[g]
    ensures FilesKept(clusters, ch0, dir0, ch1, dir1, f)
  {
  }

  function Started(chains: Chains, f: nat, c: nat): Chains {
    chains[f := [c]]
  }

  lemma LinkRestored(link: seq<nat>, c: nat, link': seq<nat>)
    requires c < |link| && link[c] == FREE
    requires var marked := link[c := LAST]; link' == marked[c := FREE]
    ensures link' == link
  {
  }

  lemma TruncatedChains(chains: Chains, f: nat, chains': Chains)
    requires f in chains && f != ORPHAN && ORPHAN !in chains && chains[f] != []
    requires chains' == if |chains[f]| > 1 then CutChains(chains, f) - {ORPHAN} else chains
    ensures chains' == chains[f := [chains[f][0]]]
  {
    if |chains[f]| > 1 {
      assert chains[f][..1] == [chains[f][0]];
      assert CutChains(chains, f) - {ORPHAN} == chains[f := chains[f][..1]];
    } else {
      assert chains[f] == [chains[f][0]];
      assert chains[f := chains[f]] == chains;
    }
  }

  /** Whole items of `itemSize` bytes among `n` bytes. */
  function Items(n: nat, itemSize: nat): nat
    requires itemSize > 0
  {
    n / itemSize
  }

  /** As many whole items as fit, and all that were asked for exactly if all their bytes are there. */
  ghost predicate WholeItems(items: nat, n: nat, itemSize: nat, count: nat) {
    items * itemSize <= n < (items + 1) * itemSize && (items == count <==> n == itemSize * count)
  }

  lemma ItemsMeans(n: nat, itemSize: nat, count: nat)
    requires itemSize > 0 && n <= itemSize * count
    ensures WholeItems(Items(n, itemSize), n, itemSize, count)
  {
    var k := Items(n, itemSize);
    assert n == k * itemSize + n % itemSize;
    MoreItems(k, count, itemSize);
    MoreItems(count, k, itemSize);
  }

  lemma MoreItems(k: nat, count: nat, itemSize: nat)
    ensures k < count ==> itemSize * count >= k * itemSize + itemSize
    ensures k == count ==> itemSize * count == k * itemSize
  {
    if k < count {
      var more: nat := count - k - 1;
      assert itemSize * (k + 1 + more) == k * itemSize + itemSize + itemSize * more;
    }
  }

  /** The bytes of the file of directory entry `f`: its image up to its size. */
  ghost function ContentOf(clusters: seq<Cluster>, chains: Chains, directory: seq<DirEntry>, f: nat): seq<byte> {
    if f in chains && f < |directory| && InRange(clusters, chains[f])
       && directory[f].size <= |Image(clusters, chains[f])|
    then Image(clusters, chains[f])[..directory[f].size] else []
  }

  /** The same files exist, and all but `f` have the same contents. */
  ghost predicate OthersUnchanged(cl0: seq<Cluster>, ch0: Chains, dir0: seq<DirEntry>,
                                  cl1: seq<Cluster>, ch1: Chains, dir1: seq<DirEntry>, f: nat)
  {
    && ch1.Keys == ch0.Keys
    && forall g {:trigger Unchanged(cl0, ch0, dir0, cl1, ch1, dir1, g)} :: g in ch0 && g != f ==>
         Unchanged(cl0, ch0, dir0, cl1, ch1, dir1, g)
  }

  ghost predicate Unchanged(cl0: seq<Cluster>, ch0: Chains, dir0: seq<DirEntry>,
                            cl1: seq<Cluster>, ch1: Chains, dir1: seq<DirEntry>, g: nat)
  {
    ContentOf(cl1, ch1, dir1, g) == ContentOf(cl0, ch0, dir0, g)
  }

  lemma UnchangedTwice(cl0: seq<Cluster>, ch0: Chains, dir0: seq<DirEntry>,
                       cl1: seq<Cluster>, ch1: Chains, dir1: seq<DirEntry>,
                       cl2: seq<Cluster>, ch2: Chains, dir2: seq<DirEntry>, f: nat)
    requires OthersUnchanged(cl0, ch0, dir0, cl1, ch1, dir1, f)
    requires OthersUnchanged(cl1, ch1, dir1, cl2, ch2, dir2, f)
    ensures OthersUnchanged(cl0, ch0, dir0, cl2, ch2, dir2, f)
  {
    forall g | g in ch0 && g != f ensures Unchanged(cl0, ch0, dir0, cl2, ch2, dir2, g) {
      assert Unchanged(cl0, ch0, dir0, cl1, ch1, dir1, g) && Unchanged(cl1, ch1, dir1, cl2, ch2, dir2, g);
    }
  }

  /** The contents of a file and of the others once a write has been recorded in the directory. */
  lemma FileWritten(cl0: seq<Cluster>, ch0: Chains, dir0: seq<DirEntry>,
                    cl1: seq<Cluster>, ch1: Chains, dir1: seq<DirEntry>, f: nat, at: nat, d: seq<byte>)
    requires Wrote(cl0, ch0, cl1, ch1, f, at, d) && f < |dir0| == |dir1|
    requires at <= dir0[f].size && |ch0[f]| == ChainLength(dir0[f].size)
    requires dir1[f].size == Max(dir0[f].size, at + |d|)
    requires forall g :: 0 <= g < |dir0| && g != f ==> dir1[g] == dir0[g]
    ensures at <= |ContentOf(cl0, ch0, dir0, f)|
    ensures ContentOf(cl1, ch1, dir1, f) == Splice(ContentOf(cl0, ch0, dir0, f), at, d)
    ensures OthersUnchanged(cl0, ch0, dir0, cl1, ch1, dir1, f)
  {
    var img0, img1 := Image(cl0, ch0[f]), Image(cl1, ch1[f]);
    ChainLengthRange(dir0[f].size);
    SpliceContents(img0, dir0[f].size, at, d, |img1|);
    forall g | g in ch0 && g != f ensures Unchanged(cl0, ch0, dir0, cl1, ch1, dir1, g) {
      OtherContent(cl0, ch0, dir0, cl1, ch1, dir1, f, g);
    }
  }

  lemma OtherContent(cl0: seq<Cluster>, ch0: Chains, dir0: seq<DirEntry>,
                     cl1: seq<Cluster>, ch1: Chains, dir1: seq<DirEntry>, f: nat, g: nat)
    requires OthersKept(cl0, ch0, cl1, ch1, f) && g in ch0 && g != f
    requires |dir0| == |dir1| && (g < |dir0| ==> dir1[g] == dir0[g])
    ensures ContentOf(cl1, ch1, dir1, g) == ContentOf(cl0, ch0, dir0, g)
  {
    if InRange(cl0, ch0[g]) {
      ImageFrame(cl0, ch0[g], cl1);
    }
  }

  /** What is spliced over a whole cluster does not depend on what was there. */
  lemma FullSplice(a: Cluster, b: Cluster, d: seq<byte>)
    requires |d| == CLUSTER
    ensures Splice(a, 0, d) == Splice(b, 0, d)
  {
  }

  lemma SeekToEndTarget(size: nat, offset: nat)
    requires size < DWORD
    ensures SeekTarget(size, offset, 0, SeekEnd) == size
  {
  }

  // ----- what other handles depend on

  /** What a file handle holds. */
  datatype HandleState = HandleState(entry: nat, size: nat, start: nat, current: nat, previous: nat, offset: nat)

  /** The handle agrees with its file's entry, does not stand past the end, and its cursor is in place. */
  ghost predicate HandleFits(chains: Chains, directory: seq<DirEntry>, h: HandleState) {
    && h.entry in chains && h.entry < |directory|
    && Cursor(chains[h.entry], h.start, h.current, h.previous, h.offset)
    && h.offset <= h.size == directory[h.entry].size
  }

  /** The chain and the directory entry of file `g` are as before. */
  ghost predicate SameFile(ch0: Chains, dir0: seq<DirEntry>, ch1: Chains, dir1: seq<DirEntry>, g: nat) {
    && (g in ch0 <==> g in ch1) && (g in ch0 ==> ch1[g] == ch0[g])
    && |dir1| == |dir0| && (g < |dir0| ==> dir1[g] == dir0[g])
  }

  /** All files but `f` are as before. */
  ghost predicate OthersSame(ch0: Chains, dir0: seq<DirEntry>, ch1: Chains, dir1: seq<DirEntry>, f: int) {
    forall g: nat {:trigger SameFile(ch0, dir0, ch1, dir1, g)} :: g != f ==> SameFile(ch0, dir0, ch1, dir1, g)
  }

  lemma OthersSameTwice(ch0: Chains, dir0: seq<DirEntry>, ch1: Chains, dir1: seq<DirEntry>,
                        ch2: Chains, dir2: seq<DirEntry>, f: int)
    requires OthersSame(ch0, dir0, ch1, dir1, f) && OthersSame(ch1, dir1, ch2, dir2, f)
    ensures OthersSame(ch0, dir0, ch2, dir2, f)
  {
    forall g: nat | g != f ensures SameFile(ch0, dir0, ch2, dir2, g) {
      assert SameFile(ch0, dir0, ch1, dir1, g) && SameFile(ch1, dir1, ch2, dir2, g);
    }
  }

  /** Only file `f` has changed, and its chain and entry only if its size has. */
  ghost predicate OnlyFile(cl0: seq<Cluster>, ch0: Chains, dir0: seq<DirEntry>, size0: nat,
                           cl1: seq<Cluster>, ch1: Chains, dir1: seq<DirEntry>, size1: nat, f: nat)
  {
    && OthersUnchanged(cl0, ch0, dir0, cl1, ch1, dir1, f)
    && OthersSame(ch0, dir0, ch1, dir1, f)
    && size0 <= size1 && (size1 == size0 ==> ch1 == ch0 && dir1 == dir0)
  }

  lemma OnlyFileTwice(cl0: seq<Cluster>, ch0: Chains, dir0: seq<DirEntry>, size0: nat,
                      cl1: seq<Cluster>, ch1: Chains, dir1: seq<DirEntry>, size1: nat,
                      cl2: seq<Cluster>, ch2: Chains, dir2: seq<DirEntry>, size2: nat, f: nat)
    requires OnlyFile(cl0, ch0, dir0, size0, cl1, ch1, dir1, size1, f)
    requires OnlyFile(cl1, ch1, dir1, size1, cl2, ch2, dir2, size2, f)
    ensures OnlyFile(cl0, ch0, dir0, size0, cl2, ch2, dir2, size2, f)
  {
    UnchangedTwice(cl0, ch0, dir0, cl1, ch1, dir1, cl2, ch2, dir2, f);
    OthersSameTwice(ch0, dir0, ch1, dir1, ch2, dir2, f);
  }

  lemma NothingChanged(cl: seq<Cluster>, ch: Chains, dir: seq<DirEntry>, size: nat, f: nat)
    ensures OnlyFile(cl, ch, dir, size, cl, ch, dir, size, f)
  {
  }

  /** Writing one file leaves the chains and entries of all others, and its own as well if it does not grow. */
  lemma WrittenFrame(cl0: seq<Cluster>, ch0: Chains, dir0: seq<DirEntry>,
                     cl1: seq<Cluster>, ch1: Chains, dir1: seq<DirEntry>, f: nat, at: nat, d: seq<byte>)
    requires Wrote(cl0, ch0, cl1, ch1, f, at, d) && |dir1| == |dir0|
    requires forall g :: 0 <= g < |dir0| && g != f ==> dir1[g] == dir0[g]
    ensures OthersSame(ch0, dir0, ch1, dir1, f)
    ensures |ch1[f]| == |ch0[f]| ==> ch1 == ch0
  {
    forall g: nat | g != f ensures SameFile(ch0, dir0, ch1, dir1, g) {
      assert g in ch0 <==> g in ch0.Keys;
      assert g in ch1 <==> g in ch1.Keys;
    }
    if |ch1[f]| == |ch0[f]| {
      assert ch1[f][..|ch0[f]|] == ch1[f];
      assert ch1.Keys == ch0.Keys;
      assert forall g :: g in ch0 ==> ch1[g] == ch0[g];
    }
  }

  /** A write of `d` at `at` with the new size recorded: the contents are spliced and only this file changes. */
  lemma WriteRecorded(cl0: seq<Cluster>, ch0: Chains, dir0: seq<DirEntry>, cl1: seq<Cluster>, ch1: Chains,
                      dir1: seq<DirEntry>, f: nat, at: nat, d: seq<byte>, size0: nat, size1: nat)
    requires Wrote(cl0, ch0, cl1, ch1, f, at, d) && f < |dir0| == |dir1|
    requires at <= size0 == dir0[f].size && size1 == dir1[f].size == Max(size0, at + |d|)
    requires |ch0[f]| == ChainLength(size0) && |ch1[f]| == ChainLength(size1)
    requires forall g :: 0 <= g < |dir0| && g != f ==> dir1[g] == dir0[g]
    requires size1 == size0 ==> dir1 == dir0
    ensures at <= |ContentOf(cl0, ch0, dir0, f)|
    ensures ContentOf(cl1, ch1, dir1, f) == Splice(ContentOf(cl0, ch0, dir0, f), at, d)
    ensures OnlyFile(cl0, ch0, dir0, size0, cl1, ch1, dir1, size1, f)
  {
    WrittenFrame(cl0, ch0, dir0, cl1, ch1, dir1, f, at, d);
    FileWritten(cl0, ch0, dir0, cl1, ch1, dir1, f, at, d);
  }

  lemma ChainInRange(link: seq<nat>, total: nat, chains: Chains, places: Places, f: nat, clusters: seq<Cluster>)
    requires Mapped(link, total, chains, places) && f in chains && |clusters| == total
    ensures InRange(clusters, chains[f])
  {
    forall k | 0 <= k < |chains[f]| ensures chains[f][k] < |clusters| {
      assert OnChain(link, total, chains, places, f, k);
    }
  }

  // ----- a last sector that is never searched

  /**
   A disk whose cluster count is a multiple of 128, with one file that takes all clusters but those of the last
   sector: they are free, and the search finds none.
   */
  lemma SearchMissesLastSector(total: nat)
    returns (link: seq<nat>, chains: Chains, places: Places, directory: seq<DirEntry>)
    requires total > 0 && total % LINKS == 0 && total <= LAST
    ensures |link| == total && Mapped(link, total, chains, places)
    ensures Entries(directory, chains) && Sizes(directory, chains, chains.Keys)
    ensures total <= 0x10_0000 ==> forall f :: 0 <= f < |directory| ==> directory[f].size < DWORD
    ensures forall c :: total - LINKS <= c < total ==> c == 0 || link[c] == FREE
    ensures forall c :: 0 <= c < SearchBound(total) ==> c < total && link[c] != FREE
  {
    SearchBoundExact(total);
    var n := if total == LINKS then 0 else total - LINKS - 1;
    var chain := seq(n, i => i + 1);
    link := seq(total, c => if c == 0 || c == n then LAST else if c < n then c + 1 else FREE);
    chains := if n == 0 then map[] else map[0 := chain];
    places := map c | 0 < c < |link| && link[c] != FREE :: Place(0, c - 1);
    directory := seq(MAX_ENTRIES, f => if f == 0 && n > 0 then DirEntry(n * CLUSTER, 1) else DirEntry(0, FREE));
    forall f, k | f in chains && 0 <= k < |chains[f]| ensures OnChain(link, total, chains, places, f, k) {
      assert chains[f][k] == k + 1;
    }
    forall c | c in places ensures InPlace(chains, places, c) {
      assert chain[c - 1] == c;
    }
  }
}
