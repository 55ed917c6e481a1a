/**
 The link sectors and data clusters of the file layer, kept in the two cached areas of the disk. As long as no
 disk call is refused, each access is the access of the file layer to its sequences; a refused one changes
 nothing.
 */
module DiskStore {
  import opened Words
  import opened Bytes
  import opened Memory
  import opened ClusterChains
  import opened FileImage
  import opened LinkTable
  import opened CachedDisk

  function ToBytes(s: seq<octet>): seq<byte> {
    seq(|s|, i requires 0 <= i < |s| => ToByte(s[i]))
  }

  lemma ValuesOfBytes(s: seq<octet>)
    ensures Values(ToBytes(s)) == s
  {
    forall i | 0 <= i < |s| ensures Values(ToBytes(s))[i] == s[i] {
      ByteRead(s[i]);
    }
  }

  /** A word that fits `n` bytes is loaded as it was stored. */
  lemma {:induction false} LoadStored(w: nat, n: nat)
    requires w < Pow256(n)
    ensures Word(Unword(w, n)) == w
  {
    if n > 0 {
      LoadStored(w / 256, n - 1);
      assert Unword(w, n)[1..] == Unword(w / 256, n - 1);
    }
  }

  lemma PowFour()
    ensures Pow256(4) == DWORD
  {
    assert Pow256(2) == 0x1_0000;
  }

  ghost predicate Words32(words: seq<nat>) {
    forall i :: 0 <= i < |words| ==> words[i] < DWORD
  }

  /** The bytes of 32-bit words, one after the other. */
  function Encode(words: seq<nat>): (s: seq<byte>)
    ensures |s| == 4 * |words|
  {
    if words == [] then [] else ToBytes(Unword(words[0], 4)) + Encode(words[1..])
  }

  function Decode(s: seq<byte>): (words: seq<nat>)
    ensures |words| == |s| / 4
  {
    if |s| < 4 then [] else [Word(Values(s[..4]))] + Decode(s[4..])
  }

  /** Words read from a buffer are those written to it. */
  lemma {:induction false} DecodeEncode(words: seq<nat>)
    requires Words32(words)
    ensures Decode(Encode(words)) == words
  {
    if words != [] {
      var first := ToBytes(Unword(words[0], 4));
      assert Encode(words)[..4] == first && Encode(words)[4..] == Encode(words[1..]);
      ValuesOfBytes(Unword(words[0], 4));
      PowFour();
      LoadStored(words[0], 4);
      DecodeEncode(words[1..]);
    }
  }

  /** Byte `j` of a stored word: the least significant one comes first. */
  lemma {:induction false} EncodedBytes(words: seq<nat>, i: nat, j: nat)
    requires i < |words| && j < 4
    ensures 4 * i + j < |Encode(words)|
    ensures Encode(words)[4 * i + j] as int == words[i] / (if j == 0 then 1 else if j == 1 then 0x100
                                                           else if j == 2 then 0x1_0000 else 0x100_0000) % 256
  {
    if i == 0 {
      WordBytes(words[0]);
      ByteRead(Unword(words[0], 4)[j]);
    } else {
      EncodedBytes(words[1..], i - 1, j);
    }
  }

  lemma WordBytes(w: nat)
    ensures Unword(w, 4) == [w % 256, w / 0x100 % 256, w / 0x1_0000 % 256, w / 0x100_0000 % 256]
  {
    var w1, w2, w3 := w / 256, w / 256 / 256, w / 256 / 256 / 256;
    assert Unword(w3 / 256, 0) == [] && Unword(w3, 1) == [w3 % 256];
    assert Unword(w2, 2) == [w2 % 256, w3 % 256];
    assert Unword(w1, 3) == [w1 % 256, w2 % 256, w3 % 256];
    assert w2 == w / 0x1_0000 && w3 == w / 0x100_0000;
  }

  /** What the two areas hold when the file layer has these link sectors and clusters. */
  ghost predicate Stored(linkData: seq<seq<byte>>, clusterData: seq<seq<byte>>, sectors: seq<Sector>,
                         clusters: seq<Cluster>)
  {
    && |linkData| == |sectors| && clusterData == clusters
    && forall s :: 0 <= s < |sectors| ==> Words32(sectors[s]) && linkData[s] == Encode(sectors[s])
  }

  /** The links of a file system are 32-bit words, so that areas of the disk can hold its sectors and clusters. */
  lemma LinksFit(sectors: seq<Sector>, total: nat, chains: Chains, places: Places, clusters: seq<Cluster>)
    requires Mapped(Flat(sectors), total, chains, places)
    ensures Stored(seq(|sectors|, s requires 0 <= s < |sectors| => Encode(sectors[s])), clusters, sectors, clusters)
  {
    forall s | 0 <= s < |sectors| ensures Words32(sectors[s]) {
      forall i | 0 <= i < LINKS ensures sectors[s][i] < DWORD {
        LinkFits(sectors, total, chains, places, s * LINKS + i);
      }
    }
  }

  lemma LinkFits(sectors: seq<Sector>, total: nat, chains: Chains, places: Places, c: nat)
    requires Mapped(Flat(sectors), total, chains, places) && c < |sectors| * LINKS
    ensures c / LINKS < |sectors| && sectors[c / LINKS][c % LINKS] < DWORD
  {
    assert Flat(sectors)[c] == sectors[c / LINKS][c % LINKS];
    if 0 < c < total && c in places {
      assert InPlace(chains, places, c);
      var f, k := places[c].file, places[c].pos;
      assert OnChain(Flat(sectors), total, chains, places, f, k);
      if k + 1 < |chains[f]| {
        assert OnChain(Flat(sectors), total, chains, places, f, k + 1);
      }
    }
  }

  // ----- sequences of accesses

  datatype Access =
    | ReadLinks(sector: nat)
    | WriteLinks(sector: nat, words: Sector)
    | ReadData(cluster: nat)
    | WriteData(cluster: nat, bytes: Cluster)

  datatype Answer = Links(words: seq<nat>) | Data(bytes: seq<byte>) | Done

  /** The file layer's sequences. */
  datatype Plain = Plain(sectors: seq<Sector>, clusters: seq<Cluster>)

  ghost predicate Fits(p: Plain, a: Access) {
    match a
    case ReadLinks(s) => s < |p.sectors|
    case WriteLinks(s, words) => s < |p.sectors| && Words32(words)
    case ReadData(c) => c < |p.clusters|
    case WriteData(c, _) => c < |p.clusters|
  }

  ghost function After(p: Plain, a: Access): Plain
    requires Fits(p, a)
  {
    match a
    case WriteLinks(s, words) => p.(sectors := p.sectors[s := words])
    case WriteData(c, bytes) => p.(clusters := p.clusters[c := bytes])
    case _ => p
  }

  ghost function AnswerTo(p: Plain, a: Access): Answer
    requires Fits(p, a)
  {
    match a
    case ReadLinks(s) => Links(p.sectors[s])
    case ReadData(c) => Data(p.clusters[c])
    case _ => Done
  }

  /** Every access lies inside the sequences, which keep their lengths. */
  ghost predicate AllFit(p: Plain, accesses: seq<Access>) {
    forall i :: 0 <= i < |accesses| ==> Fits(p, accesses[i])
  }

  /** The sequences after the accesses. */
  ghost function AfterAll(p: Plain, accesses: seq<Access>): (q: Plain)
    requires AllFit(p, accesses)
    ensures |q.sectors| == |p.sectors| && |q.clusters| == |p.clusters|
  {
    if accesses == [] then p
    else After(AfterAll(p, accesses[..|accesses| - 1]), accesses[|accesses| - 1])
  }

  /** The answer to the `i`-th access is that of the sequences as the accesses before it have left them. */
  ghost predicate Answered(p: Plain, accesses: seq<Access>, answers: seq<Answer>, i: nat)
    requires AllFit(p, accesses) && i < |accesses|
  {
    i < |answers| && answers[i] == AnswerTo(AfterAll(p, accesses[..i]), accesses[i])
  }

  lemma AllFitAfter(p: Plain, accesses: seq<Access>, i: nat)
    requires AllFit(p, accesses) && i < |accesses|
    ensures Fits(AfterAll(p, accesses[..i]), accesses[i])
    ensures AfterAll(p, accesses[..i + 1]) == After(AfterAll(p, accesses[..i]), accesses[i])
  {
    assert accesses[..i + 1][..i] == accesses[..i];
  }

  /** The first accesses have these answers, and have turned the sequences into `q`. */
  ghost predicate AllAnswered(p: Plain, accesses: seq<Access>, answers: seq<Answer>, q: Plain) {
    && AllFit(p, accesses) && |answers| <= |accesses|
    && (forall i :: 0 <= i < |answers| ==> Answered(p, accesses, answers, i))
    && q == AfterAll(p, accesses[..|answers|])
  }

  lemma AnswersGrow(p: Plain, accesses: seq<Access>, answers: seq<Answer>, answer: Answer)
    requires AllFit(p, accesses) && |answers| < |accesses|
    requires AllAnswered(p, accesses, answers, AfterAll(p, accesses[..|answers|]))
    requires answer == AnswerTo(AfterAll(p, accesses[..|answers|]), accesses[|answers|])
    ensures AllAnswered(p, accesses, answers + [answer], AfterAll(p, accesses[..|answers| + 1]))
  {
    forall k | 0 <= k <= |answers| ensures Answered(p, accesses, answers + [answer], k) {
      if k < |answers| {
        assert Answered(p, accesses, answers, k);
      }
    }
  }

  class Store {
    const link: CachedArea
    const data: CachedArea

    constructor (link: CachedArea, data: CachedArea)
      ensures this.link == link && this.data == data
    {
      this.link, this.data := link, data;
    }

    ghost predicate Holds(sectors: seq<Sector>, clusters: seq<Cluster>)
      reads link, link.table, link.table.entries, link.table.buffers, link.disk
      reads data, data.table, data.table.entries, data.table.buffers, data.disk
    {
      && link.Valid() && data.Valid() && link.Repr() !! data.Repr()
      && Stored(link.Contents(), data.Contents(), sectors, clusters)
    }

    method ReadClusterLinkTable(s: nat, ghost sectors: seq<Sector>, ghost clusters: seq<Cluster>)
      returns (ok: bool, words: seq<nat>)
      requires Holds(sectors, clusters) && s < |sectors|
      modifies link.table, link.table.entries, link.table.buffers, link.disk, link`refusals
      ensures Holds(sectors, clusters)
      ensures ok <==> link.refusals == old(link.refusals)
      ensures ok ==> words == sectors[s]
    {
      var bytes;
      ok, bytes := link.ReadSector(s);
      words := Decode(bytes);
      if ok {
        DecodeEncode(sectors[s]);
      }
    }

    method WriteClusterLinkTable(s: nat, words: Sector, ghost sectors: seq<Sector>, ghost clusters: seq<Cluster>)
      returns (ok: bool)
      requires Holds(sectors, clusters) && s < |sectors| && Words32(words)
      modifies link.table, link.table.entries, link.table.buffers, link.disk, link`refusals
      ensures ok <==> link.refusals == old(link.refusals)
      ensures Holds(if ok then sectors[s := words] else sectors, clusters)
    {
      ok := link.WriteSector(s, Encode(words));
    }

    method ReadCluster(c: nat, ghost sectors: seq<Sector>, ghost clusters: seq<Cluster>)
      returns (ok: bool, bytes: seq<byte>)
      requires Holds(sectors, clusters) && c < |clusters|
      modifies data.table, data.table.entries, data.table.buffers, data.disk, data`refusals
      ensures Holds(sectors, clusters)
      ensures ok <==> data.refusals == old(data.refusals)
      ensures ok ==> bytes == clusters[c]
    {
      ok, bytes := data.ReadSector(c);
    }

    method WriteCluster(c: nat, bytes: Cluster, ghost sectors: seq<Sector>, ghost clusters: seq<Cluster>)
      returns (ok: bool)
      requires Holds(sectors, clusters) && c < |clusters|
      modifies data.table, data.table.entries, data.table.buffers, data.disk, data`refusals
      ensures ok <==> data.refusals == old(data.refusals)
      ensures Holds(sectors, if ok then clusters[c := bytes] else clusters)
    {
      ok := data.WriteSector(c, bytes);
    }

    ghost predicate HoldsAll(p: Plain)
      reads link, link.table, link.table.entries, link.table.buffers, link.disk
      reads data, data.table, data.table.entries, data.table.buffers, data.disk
    {
      Holds(p.sectors, p.clusters)
    }

    method Carry(a: Access, ghost p: Plain) returns (ok: bool, answer: Answer)
      requires HoldsAll(p) && Fits(p, a)
      modifies link.table, link.table.entries, link.table.buffers, link.disk, link`refusals
      modifies data.table, data.table.entries, data.table.buffers, data.disk, data`refusals
      ensures ok <==> link.refusals == old(link.refusals) && data.refusals == old(data.refusals)
      ensures HoldsAll(if ok then After(p, a) else p)
      ensures ok ==> answer == AnswerTo(p, a)
    {
      answer := Done;
      match a
      case ReadLinks(s) =>
        var words;
        ok, words := ReadClusterLinkTable(s, p.sectors, p.clusters);
        answer := Links(words);
      case WriteLinks(s, words) =>
        ok := WriteClusterLinkTable(s, words, p.sectors, p.clusters);
      case ReadData(c) =>
        var bytes;
        ok, bytes := ReadCluster(c, p.sectors, p.clusters);
        answer := Data(bytes);
      case WriteData(c, bytes) =>
        ok := WriteCluster(c, bytes, p.sectors, p.clusters);
    }

    method CarryNext(accesses: seq<Access>, ghost p: Plain, answers: seq<Answer>, ghost q: Plain)
      returns (ok: bool, answers': seq<Answer>, ghost q': Plain)
      requires AllAnswered(p, accesses, answers, q) && |answers| < |accesses| && HoldsAll(q)
      modifies link.table, link.table.entries, link.table.buffers, link.disk, link`refusals
      modifies data.table, data.table.entries, data.table.buffers, data.disk, data`refusals
      ensures ok <==> link.refusals == old(link.refusals) && data.refusals == old(data.refusals)
      ensures AllAnswered(p, accesses, answers', q') && HoldsAll(q')
      ensures |answers'| == if ok then |answers| + 1 else |answers|
    {
      AllFitAfter(p, accesses, |answers|);
      var answer;
      ok, answer := Carry(accesses[|answers|], q);
      answers', q' := answers, if ok then After(q, accesses[|answers|]) else q;
      if ok {
        AnswersGrow(p, accesses, answers, answer);
        answers' := answers + [answer];
      }
    }

    /**
     Accesses in any order, up to the first one that is refused: the answers are those of the plain sequences, and
     the two areas end up holding what the sequences have become. All are answered exactly if no call is refused.
     */
    method CarryAll(accesses: seq<Access>, ghost p: Plain) returns (answers: seq<Answer>)
      requires HoldsAll(p) && AllFit(p, accesses)
      modifies link.table, link.table.entries, link.table.buffers, link.disk, link`refusals
      modifies data.table, data.table.entries, data.table.buffers, data.disk, data`refusals
      ensures |answers| <= |accesses| && forall i :: 0 <= i < |answers| ==> Answered(p, accesses, answers, i)
      ensures HoldsAll(AfterAll(p, accesses[..|answers|]))
      ensures |answers| == |accesses| <==> link.refusals == old(link.refusals) && data.refusals == old(data.refusals)
    {
      answers := [];
      ghost var q := p;
      while |answers| < |accesses|
        invariant AllAnswered(p, accesses, answers, q) && HoldsAll(q)
        invariant link.refusals == old(link.refusals) && data.refusals == old(data.refusals)
        decreases |accesses| - |answers|
      {
        var ok;
        ok, answers, q := CarryNext(accesses, p, answers, q);
        if !ok {
          return;
        }
      }
    }
  }
}
