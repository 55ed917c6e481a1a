/**
 One table of the cache manager: entries with a tag, an access time and a buffer, searched linearly,
 and a 32-bit clock that is wound back by sorting and renumbering before it can wrap.
 */
module CacheManager {
  import opened CacheModel
  import opened Sequences

  const INVALID_TAG: nat := 0xffff_ffff
  const RESERVED_TAG: nat := 0xffff_fffe
  const CLOCK_LIMIT: nat := 0xffff_fffe

  datatype Entry = Entry(tag: nat, time: nat, changed: bool, buffer: nat)

  /** Where a cached tag sits, when it was last used, and what its line holds. */
  datatype Cell = Cell(slot: nat, time: nat, line: Line)

  type Cells = map<nat, Cell>

  // ----- how entries and buffers stand for cells

  /** Every entry has a buffer of its own: `owner` inverts the assignment. */
  ghost predicate Wired(es: seq<Entry>, ps: seq<Data>, owner: seq<nat>) {
    && |es| == |ps| == |owner|
    && forall i :: 0 <= i < |es| ==> es[i].buffer < |ps| && owner[es[i].buffer] == i
  }

  /** The valid entries are exactly the cells. */
  ghost predicate Holds(es: seq<Entry>, ps: seq<Data>, cells: Cells, owner: seq<nat>) {
    && Wired(es, ps, owner)
    && (forall i :: 0 <= i < |es| ==> EntryHolds(es[i], i, ps, cells))
    && (forall t :: t in cells ==> cells[t].slot < |es| && es[cells[t].slot].tag == t && t != INVALID_TAG)
  }

  ghost predicate EntryHolds(e: Entry, i: nat, ps: seq<Data>, cells: Cells) {
    if e.tag == INVALID_TAG then !e.changed
    else e.buffer < |ps| && e.tag in cells && cells[e.tag] == Cell(i, e.time, Line(e.changed, ps[e.buffer]))
  }

  /** `order` lists the cached tags by strictly increasing access time, all below the clock. */
  ghost predicate Timed(cells: Cells, order: seq<nat>, clock: nat) {
    && (forall t :: t in cells ==> cells[t].time < clock && t in order)
    && (forall p :: 0 <= p < |order| ==> order[p] in cells)
    && (forall p, q :: 0 <= p < q < |order| ==> cells[order[p]].time < cells[order[q]].time)
  }

  ghost function LinesOf(cells: Cells): map<nat, Line> {
    map t | t in cells :: cells[t].line
  }

  ghost predicate Sorted(es: seq<Entry>) {
    forall i, j :: 0 <= i <= j < |es| ==> es[i].time <= es[j].time
  }

  // ----- sorting and renumbering

  function Swapped<T>(s: seq<T>, i: nat, j: nat): seq<T>
    requires i < |s| && j < |s|
  {
    s[i := s[j]][j := s[i]]
  }

  /** The cell of an entry that moves to slot `i`. */
  ghost function Placed(cells: Cells, t: nat, i: nat): Cells {
    if t in cells then cells[t := cells[t].(slot := i)] else cells
  }

  /** Exchanging whole entries moves their cells and nothing else. */
  lemma SwapKeeps(es: seq<Entry>, ps: seq<Data>, cells: Cells, owner: seq<nat>, i: nat, j: nat,
                  fs: seq<Entry>, cells': Cells, owner': seq<nat>)
    requires Holds(es, ps, cells, owner)
    requires i < j < |es| && fs == Swapped(es, i, j)
    requires cells' == Placed(Placed(cells, es[i].tag, j), es[j].tag, i)
    requires owner' == owner[es[i].buffer := j][es[j].buffer := i]
    ensures Holds(fs, ps, cells', owner')
  {
    assert EntryHolds(es[i], i, ps, cells) && EntryHolds(es[j], j, ps, cells);
    forall k | 0 <= k < |fs| ensures EntryHolds(fs[k], k, ps, cells') {
      assert EntryHolds(es[k], k, ps, cells);
    }
  }

  /** Moving cells between slots touches neither lines nor access times. */
  lemma PlacedTimed(cells: Cells, t: nat, i: nat, order: seq<nat>, clock: nat)
    requires Timed(cells, order, clock)
    ensures Timed(Placed(cells, t, i), order, clock)
  {
  }

  lemma PlacedLines(cells: Cells, t: nat, i: nat)
    ensures LinesOf(Placed(cells, t, i)) == LinesOf(cells)
  {
  }

  ghost function Renumbered(es: seq<Entry>): seq<Entry> {
    seq(|es|, i requires 0 <= i < |es| => es[i].(time := i))
  }

  ghost function SlotTimed(cells: Cells): Cells {
    map t | t in cells :: cells[t].(time := cells[t].slot)
  }

  /** Numbering entries by position dates every cell by its slot. */
  lemma RenumberKeeps(es: seq<Entry>, ps: seq<Data>, cells: Cells, owner: seq<nat>, fs: seq<Entry>)
    requires Holds(es, ps, cells, owner) && fs == Renumbered(es)
    ensures Holds(fs, ps, SlotTimed(cells), owner)
    ensures LinesOf(SlotTimed(cells)) == LinesOf(cells)
  {
    forall i | 0 <= i < |fs| ensures EntryHolds(fs[i], i, ps, SlotTimed(cells)) {
      assert EntryHolds(es[i], i, ps, cells);
    }
  }

  /** Numbering sorted entries by position keeps the order of use. */
  lemma RenumberOrder(es: seq<Entry>, ps: seq<Data>, cells: Cells, owner: seq<nat>, order: seq<nat>, clock: nat)
    requires Holds(es, ps, cells, owner) && Timed(cells, order, clock) && Sorted(es)
    ensures Timed(SlotTimed(cells), order, |es|)
  {
    forall p, q | 0 <= p < q < |order| ensures cells[order[p]].slot < cells[order[q]].slot {
      var c, d := cells[order[p]], cells[order[q]];
      assert EntryHolds(es[c.slot], c.slot, ps, cells) && EntryHolds(es[d.slot], d.slot, ps, cells);
      assert c.time < d.time;
    }
  }

  // ----- bubble sort

  /** From position `k` on, every entry is at least as late as all before it. */
  ghost predicate SortedFrom(es: seq<Entry>, k: nat) {
    forall a, b :: 0 <= a <= b < |es| && k <= b ==> es[a].time <= es[b].time
  }

  ghost predicate LargestAt(es: seq<Entry>, i: nat) {
    i < |es| && forall a :: 0 <= a <= i ==> es[a].time <= es[i].time
  }

  /** A prefix whose next entry is the latest so far stays sorted. */
  lemma SortedPrefix(es: seq<Entry>, i: nat)
    requires i + 1 < |es|
    ensures LargestAt(es, i) && es[i].time <= es[i + 1].time ==> LargestAt(es, i + 1)
    ensures LargestAt(es, i) && Sorted(es[..i]) ==> Sorted(es[..i + 1])
  {
    assert forall a :: 0 <= a < i ==> es[..i + 1][a] == es[..i][a] == es[a];
  }

  lemma SwapSorted(es: seq<Entry>, i: nat, k: nat, fs: seq<Entry>)
    requires i + 1 < k <= |es| && SortedFrom(es, k) && LargestAt(es, i)
    requires es[i].time > es[i + 1].time && fs == Swapped(es, i, i + 1)
    ensures SortedFrom(fs, k) && LargestAt(fs, i + 1)
  {
  }

  lemma SortedParts(es: seq<Entry>, m: nat)
    requires m <= |es| && SortedFrom(es, m) && Sorted(es[..m])
    ensures Sorted(es)
  {
    assert forall a :: 0 <= a < m ==> es[..m][a] == es[a];
  }

  // ----- stamping

  lemma {:induction false} WithoutIndex(s: seq<nat>, t: nat, q: nat) returns (q': nat)
    requires q < |Without(s, t)|
    ensures q' < |s| && s[q'] == Without(s, t)[q] && s[q'] != t
  {
    if s[0] != t && q == 0 {
      q' := 0;
    } else {
      q' := WithoutIndex(s[1..], t, if s[0] == t then q else q - 1);
      q' := q' + 1;
    }
  }

  /** What is left after removing `t` keeps its order. */
  lemma {:induction false} WithoutOrder(s: seq<nat>, t: nat, p: nat, q: nat) returns (p': nat, q': nat)
    requires p < q < |Without(s, t)|
    ensures p' < q' < |s| && s[p'] == Without(s, t)[p] && s[q'] == Without(s, t)[q]
  {
    if s[0] == t {
      p', q' := WithoutOrder(s[1..], t, p, q);
      p', q' := p' + 1, q' + 1;
    } else if p > 0 {
      p', q' := WithoutOrder(s[1..], t, p - 1, q - 1);
      p', q' := p' + 1, q' + 1;
    } else {
      p' := 0;
      q' := WithoutIndex(s[1..], t, q - 1);
      q' := q' + 1;
    }
  }

  lemma {:induction false} WithoutKeepsOthers(s: seq<nat>, t: nat, x: nat)
    requires x in s && x != t
    ensures x in Without(s, t)
  {
    if s[0] != x {
      assert s == [s[0]] + s[1..];
      WithoutKeepsOthers(s[1..], t, x);
    }
  }

  /** A cell dated with the clock makes its tag the most recently used. */
  lemma StampOrder(cells: Cells, order: seq<nat>, clock: nat, t: nat, c: Cell)
    requires Timed(cells, order, clock) && c.time == clock
    ensures Timed(cells[t := c], Touch(order, t), clock + 1)
  {
    var order' := Touch(order, t);
    forall x | x in cells[t := c] ensures x in order' {
      if x == t {
        assert order'[|order'| - 1] == t;
      } else {
        WithoutKeepsOthers(order, t, x);
      }
    }
    forall p | 0 <= p < |order'| - 1 ensures order'[p] in cells && order'[p] != t {
      var p' := WithoutIndex(order, t, p);
    }
    forall p, q | 0 <= p < q < |order'| - 1 ensures cells[order'[p]].time < cells[order'[q]].time {
      var p', q' := WithoutOrder(order, t, p, q);
    }
  }

  /** Changing one entry changes its cell; the entry keeps its buffer and its tag is not another's. */
  lemma EntryChanged(es: seq<Entry>, ps: seq<Data>, cells: Cells, owner: seq<nat>, i: nat, e: Entry,
                     fs: seq<Entry>, cells': Cells)
    requires Holds(es, ps, cells, owner) && i < |es|
    requires e.buffer == es[i].buffer < |ps| && e.tag != INVALID_TAG
    requires e.tag in cells ==> e.tag == es[i].tag
    requires fs == es[i := e]
    requires cells' == (cells - {es[i].tag})[e.tag := Cell(i, e.time, Line(e.changed, ps[e.buffer]))]
    ensures Holds(fs, ps, cells', owner)
  {
    assert EntryHolds(es[i], i, ps, cells);
    forall k | 0 <= k < |fs| ensures EntryHolds(fs[k], k, ps, cells') {
      assert EntryHolds(es[k], k, ps, cells);
    }
  }

  /** An entry takes another tag, state and contents: its cell moves with it, and no other changes. */
  lemma EntryFilled(es: seq<Entry>, ps: seq<Data>, cells: Cells, owner: seq<nat>, i: nat, t: nat, line: Line,
                    fs: seq<Entry>, ps': seq<Data>, cells': Cells)
    requires Holds(es, ps, cells, owner) && i < |es| && es[i].tag in cells && es[i].buffer < |ps|
    requires t != INVALID_TAG && (t in cells ==> t == es[i].tag)
    requires fs == es[i := es[i].(tag := t, changed := line.changed)]
    requires ps' == ps[es[i].buffer := line.data]
    requires cells' == (cells - {es[i].tag})[t := Cell(i, es[i].time, line)]
    ensures Holds(fs, ps', cells', owner)
  {
    assert EntryHolds(es[i], i, ps, cells);
    forall k | 0 <= k < |fs| ensures EntryHolds(fs[k], k, ps', cells') {
      assert EntryHolds(es[k], k, ps, cells);
    }
  }

  lemma CleanOrder(cells: Cells, order: seq<nat>, clock: nat, t: nat, c: Cell)
    requires Timed(cells, order, clock) && t in cells && c.time == cells[t].time
    ensures Timed(cells[t := c], order, clock)
  {
  }

  /** The most recently used cell takes another tag, keeping its access time. */
  lemma FillOrder(cells: Cells, order: seq<nat>, clock: nat, t: nat, c: Cell, cells': Cells)
    requires Timed(cells, order, clock)
    requires order != [] && (t !in cells || t == order[|order| - 1])
    requires order[|order| - 1] in cells && c.time == cells[order[|order| - 1]].time
    requires cells' == (cells - {order[|order| - 1]})[t := c]
    ensures Timed(cells', order[..|order| - 1] + [t], clock)
  {
    var n := |order| - 1;
    var order' := order[..n] + [t];
    assert order'[n] == t;
    forall p | 0 <= p < n ensures order[p] in cells && order[p] != order[n] && order[p] != t {
      assert cells[order[p]].time < cells[order[n]].time;
    }
    forall x | x in cells' ensures x in order' {
      if x != t {
        var p :| 0 <= p < |order| && order[p] == x;
        assert order'[p] == x;
      }
    }
  }

  /** All of a table: its entries and buffers hold the cells, and the order dates them. */
  ghost predicate Table(es: seq<Entry>, ps: seq<Data>, cells: Cells, owner: seq<nat>, order: seq<nat>, clock: nat) {
    Holds(es, ps, cells, owner) && Timed(cells, order, clock)
  }

  lemma MapPut<V>(m: map<nat, V>, k: nat, v: V)
    ensures (m - {k})[k := v] == m[k := v]
    ensures k !in m ==> m[k := v] - {k} == m
  {
  }

  lemma LinesMoved(cells: Cells, k: nat, t: nat, c: Cell)
    ensures LinesOf((cells - {k})[t := c]) == (LinesOf(cells) - {k})[t := c.line]
  {
  }

  lemma LinesPut(cells: Cells, t: nat, c: Cell)
    ensures LinesOf(cells[t := c]) == LinesOf(cells)[t := c.line]
  {
  }

  lemma StampStep(es: seq<Entry>, ps: seq<Data>, cells: Cells, owner: seq<nat>, order: seq<nat>, clock: nat,
                  i: nat, fs: seq<Entry>) returns (cells': Cells)
    requires Table(es, ps, cells, owner, order, clock)
    requires i < |es| && es[i].tag != INVALID_TAG
    requires fs == es[i := es[i].(time := clock)]
    ensures Table(fs, ps, cells', owner, Touch(order, es[i].tag), clock + 1)
    ensures LinesOf(cells') == LinesOf(cells)
  {
    assert EntryHolds(es[i], i, ps, cells);
    var t := es[i].tag;
    var c := cells[t].(time := clock);
    cells' := cells[t := c];
    MapPut(cells, t, c);
    StampOrder(cells, order, clock, t, c);
    EntryChanged(es, ps, cells, owner, i, fs[i], fs, cells');
  }

  lemma ReserveStep(es: seq<Entry>, ps: seq<Data>, cells: Cells, owner: seq<nat>, order: seq<nat>, clock: nat,
                    i: nat, fs: seq<Entry>) returns (cells': Cells)
    requires Table(es, ps, cells, owner, order, clock)
    requires i < |es| && es[i].tag == INVALID_TAG && RESERVED_TAG !in cells
    requires fs == es[i := es[i].(tag := RESERVED_TAG, time := clock)]
    ensures Table(fs, ps, cells', owner, order + [RESERVED_TAG], clock + 1)
    ensures RESERVED_TAG in cells' && LinesOf(cells') - {RESERVED_TAG} == LinesOf(cells)
  {
    var c := Cell(i, clock, Line(es[i].changed, ps[es[i].buffer]));
    cells' := cells[RESERVED_TAG := c];
    assert INVALID_TAG !in cells;
    assert cells - {INVALID_TAG} == cells;
    assert RESERVED_TAG !in order;
    WithoutAbsent(order, RESERVED_TAG);
    StampOrder(cells, order, clock, RESERVED_TAG, c);
    EntryChanged(es, ps, cells, owner, i, fs[i], fs, cells');
  }

  lemma FillStep(es: seq<Entry>, ps: seq<Data>, cells: Cells, owner: seq<nat>, order: seq<nat>, clock: nat,
                 i: nat, t: nat, line: Line, fs: seq<Entry>, ps': seq<Data>)
    returns (cells': Cells, order': seq<nat>)
    requires Table(es, ps, cells, owner, order, clock)
    requires i < |es| && order != [] && es[i].tag == order[|order| - 1]
    requires t != INVALID_TAG && (t !in cells || t == es[i].tag)
    requires fs == es[i := es[i].(tag := t, changed := line.changed)]
    requires es[i].buffer < |ps| && ps' == ps[es[i].buffer := line.data]
    ensures Table(fs, ps', cells', owner, order', clock)
    ensures order' == order[..|order| - 1] + [t]
    ensures LinesOf(cells') == (LinesOf(cells) - {es[i].tag})[t := line]
  {
    assert order[|order| - 1] in cells;
    assert EntryHolds(es[i], i, ps, cells);
    var c := Cell(i, es[i].time, line);
    cells' := (cells - {es[i].tag})[t := c];
    LinesMoved(cells, es[i].tag, t, c);
    EntryFilled(es, ps, cells, owner, i, t, line, fs, ps', cells');
    order' := order[..|order| - 1] + [t];
    FillOrder(cells, order, clock, t, c, cells');
  }

  // ----- a full table

  lemma InvalidChanged(es: seq<Entry>, ps: seq<Data>, cells: Cells, owner: seq<nat>, i: nat, fs: seq<Entry>)
    requires Holds(es, ps, cells, owner) && i < |es| == |fs| && es[i].tag == INVALID_TAG
    requires fs == es[i := fs[i]] && fs[i].tag == INVALID_TAG && !fs[i].changed && fs[i].buffer == es[i].buffer
    ensures Holds(fs, ps, cells, owner)
  {
    forall k | 0 <= k < |fs| ensures EntryHolds(fs[k], k, ps, cells) {
      assert EntryHolds(es[k], k, ps, cells);
    }
  }

  /** The tags of the valid entries, slot by slot. */
  ghost function TagList(es: seq<Entry>): seq<nat> {
    if es == [] then []
    else (if es[0].tag == INVALID_TAG then [] else [es[0].tag]) + TagList(es[1..])
  }

  ghost predicate UniqueTags(es: seq<Entry>) {
    forall i, j :: 0 <= i < j < |es| && es[i].tag == es[j].tag ==> es[i].tag == INVALID_TAG
  }

  lemma {:induction false} TagListMember(es: seq<Entry>, t: nat)
    ensures t in TagList(es) <==> t != INVALID_TAG && exists i :: 0 <= i < |es| && es[i].tag == t
  {
    if es != [] {
      TagListMember(es[1..], t);
      assert forall i :: 0 < i < |es| ==> es[i] == es[1..][i - 1];
    }
  }

  lemma {:induction false} TagListSize(es: seq<Entry>)
    requires UniqueTags(es)
    ensures Distinct(TagList(es)) && |TagList(es)| <= |es|
    ensures |TagList(es)| == |es| <==> forall i :: 0 <= i < |es| ==> es[i].tag != INVALID_TAG
  {
    if es != [] {
      var rest := es[1..];
      assert forall i :: 0 <= i < |rest| ==> rest[i] == es[i + 1];
      TagListSize(rest);
      TagListMember(rest, es[0].tag);
      assert es[0].tag != INVALID_TAG ==> es[0].tag !in TagList(rest);
    }
  }

  ghost function Members(s: seq<nat>): set<nat> {
    set x | x in s
  }

  lemma {:induction false} DistinctSize(s: seq<nat>)
    requires Distinct(s)
    ensures |Members(s)| == |s|
  {
    if s == [] {
      assert Members(s) == {};
    } else {
      var rest := s[1..];
      assert forall i :: 0 <= i < |rest| ==> rest[i] == s[i + 1];
      DistinctSize(rest);
      assert s[0] !in Members(rest);
      assert s == [s[0]] + rest;
      assert Members(s) == Members(rest) + {s[0]};
    }
  }

  lemma OrderDistinct(cells: Cells, order: seq<nat>, clock: nat)
    requires Timed(cells, order, clock)
    ensures Distinct(order)
  {
    forall p, q | 0 <= p < q < |order| ensures order[p] != order[q] {
      assert cells[order[p]].time < cells[order[q]].time;
    }
  }

  /** The table is full exactly if no entry is invalid. */
  lemma FullTable(es: seq<Entry>, ps: seq<Data>, cells: Cells, owner: seq<nat>, order: seq<nat>, clock: nat)
    requires Holds(es, ps, cells, owner) && Timed(cells, order, clock)
    ensures Distinct(order) && |order| <= |es|
    ensures |order| == |es| <==> forall i :: 0 <= i < |es| ==> es[i].tag != INVALID_TAG
  {
    forall i, j | 0 <= i < j < |es| && es[i].tag == es[j].tag ensures es[i].tag == INVALID_TAG {
      assert EntryHolds(es[i], i, ps, cells) && EntryHolds(es[j], j, ps, cells);
    }
    TagListSize(es);
    forall t: nat ensures t in order <==> t in TagList(es) {
      TagListMember(es, t);
      if i :| 0 <= i < |es| && es[i].tag == t {
        assert EntryHolds(es[i], i, ps, cells);
      }
    }
    OrderDistinct(cells, order, clock);
    DistinctSize(order);
    DistinctSize(TagList(es));
    assert Members(order) == Members(TagList(es));
  }

  // ----- the table

  class CacheTable {
    var clock: nat
    const entries: array<Entry>
    const buffers: array<Data>
    ghost var cells: Cells
    ghost var owner: seq<nat>
    ghost var order: seq<nat>

    ghost predicate Shape()
      reads this
    {
      0 < entries.Length < CLOCK_LIMIT && entries as object != buffers as object && clock <= CLOCK_LIMIT
    }

    ghost predicate Valid()
      reads this, entries, buffers
    {
      Shape() && Table(entries[..], buffers[..], cells, owner, order, clock)
    }

    ghost function Lines(): map<nat, Line>
      reads this
    {
      LinesOf(cells)
    }

    constructor (maxCount: nat)
      requires 0 < maxCount < CLOCK_LIMIT
      ensures Valid() && entries.Length == maxCount
      ensures Lines() == map[] && order == []
      ensures fresh(entries) && fresh(buffers)
    {
      clock := 0;
      entries := new Entry[maxCount](i requires i >= 0 => Entry(INVALID_TAG, 0, false, i));
      buffers := new Data[maxCount](_ => []);
      cells, order := map[], [];
      owner := seq(maxCount, i => i);
    }

    /** Bubble sort by access time: whole entries move, so tags keep their buffers. */
    method SortByTime()
      requires Valid()
      modifies `cells, `owner, entries
      ensures Valid() && Lines() == old(Lines())
      ensures Sorted(entries[..])
    {
      var j := 0;
      while j < entries.Length - 1
        invariant 0 <= j <= entries.Length - 1
        invariant Valid() && Lines() == old(Lines())
        invariant SortedFrom(entries[..], entries.Length - j)
      {
        var sorted := BubblePass(entries.Length - 1 - j);
        if sorted {
          SortedParts(entries[..], entries.Length - 1 - j);
          return;
        }
        j := j + 1;
      }
      SortedParts(entries[..], 1);
    }

    /** One pass of the bubble sort over the entries up to position `m`. */
    method BubblePass(m: nat) returns (sorted: bool)
      requires Valid() && m < entries.Length && SortedFrom(entries[..], m + 1)
      modifies `cells, `owner, entries
      ensures Valid() && Lines() == old(Lines())
      ensures SortedFrom(entries[..], m)
      ensures sorted ==> Sorted(entries[..][..m])
    {
      sorted := true;
      var i := 0;
      while i < m
        invariant 0 <= i <= m
        invariant Valid() && Lines() == old(Lines())
        invariant SortedFrom(entries[..], m + 1) && LargestAt(entries[..], i)
        invariant sorted ==> Sorted(entries[..][..i])
      {
        if entries[i].time > entries[i + 1].time {
          sorted := false;
          SwapNext(i, m + 1);
        }
        SortedPrefix(entries[..], i);
        i := i + 1;
      }
    }

    method SwapNext(i: nat, k: nat)
      requires Valid() && i + 1 < k <= entries.Length
      requires SortedFrom(entries[..], k) && LargestAt(entries[..], i)
      requires entries[i].time > entries[i + 1].time
      modifies `cells, `owner, entries
      ensures Valid() && Lines() == old(Lines())
      ensures SortedFrom(entries[..], k) && LargestAt(entries[..], i + 1)
    {
      ghost var es, e, f := entries[..], entries[i], entries[i + 1];
      var temp := entries[i];
      entries[i] := entries[i + 1];
      entries[i + 1] := temp;
      assert entries[..] == Swapped(es, i, i + 1);
      SwapSorted(es, i, k, entries[..]);
      ghost var cells' := Placed(Placed(cells, e.tag, i + 1), f.tag, i);
      ghost var owner' := owner[e.buffer := i + 1][f.buffer := i];
      SwapKeeps(es, buffers[..], cells, owner, i, i + 1, entries[..], cells', owner');
      PlacedTimed(cells, e.tag, i + 1, order, clock);
      PlacedTimed(Placed(cells, e.tag, i + 1), f.tag, i, order, clock);
      PlacedLines(cells, e.tag, i + 1);
      PlacedLines(Placed(cells, e.tag, i + 1), f.tag, i);
      cells, owner := cells', owner';
    }

    /** Before the clock can wrap, wind it back: the entries are sorted and numbered from 0. */
    method CutDownAccessTime()
      requires Valid()
      modifies `clock, `cells, `owner, entries
      ensures Valid() && Lines() == old(Lines()) && clock < CLOCK_LIMIT
      ensures if old(clock) < CLOCK_LIMIT then clock == old(clock) && entries[..] == old(entries[..])
              else clock == entries.Length
    {
      if clock < CLOCK_LIMIT {
        return;
      }
      SortByTime();
      ghost var es := entries[..];
      RenumberOrder(es, buffers[..], cells, owner, order, clock);
      Renumber();
      RenumberKeeps(es, buffers[..], cells, owner, entries[..]);
      cells := SlotTimed(cells);
      clock := entries.Length;
    }

    method Renumber()
      modifies entries
      ensures entries[..] == Renumbered(old(entries[..]))
    {
      for i := 0 to entries.Length
        invariant forall k :: 0 <= k < i ==> entries[k] == old(entries[k]).(time := k)
        invariant forall k :: i <= k < entries.Length ==> entries[k] == old(entries[k])
      {
        entries[i] := entries[i].(time := i);
      }
    }

    /** What a valid entry says about its cell. */
    lemma CellOf(i: nat)
      requires Valid() && i < entries.Length && entries[i].tag != INVALID_TAG
      ensures var e := entries[i];
              && e.tag in cells && e.buffer < buffers.Length && e.time < clock
              && cells[e.tag] == Cell(i, e.time, Line(e.changed, buffers[e.buffer]))
    {
      assert EntryHolds(entries[..][i], i, buffers[..], cells);
    }

    /** Stamps an entry with the clock. */
    method Stamp(i: nat)
      requires Valid() && clock < CLOCK_LIMIT
      requires i < entries.Length && entries[i].tag != INVALID_TAG
      modifies `clock, `cells, `order, entries
      ensures Valid() && Lines() == old(Lines())
      ensures entries[i] == old(entries[i]).(time := old(clock)) && clock == old(clock) + 1
      ensures order == Touch(old(order), entries[i].tag)
    {
      ghost var es := entries[..];
      entries[i] := entries[i].(time := clock);
      cells := StampStep(es, buffers[..], cells, owner, order, clock, i, entries[..]);
      order := Touch(order, entries[i].tag);
      clock := clock + 1;
    }

    /** Looks a tag up; a hit becomes the most recently used entry. */
    method Find(tag: nat) returns (r: int)
      requires Valid() && tag != INVALID_TAG
      modifies `clock, `cells, `owner, `order, entries
      ensures Valid() && Lines() == old(Lines())
      ensures -1 <= r < entries.Length
      ensures r >= 0 <==> tag in old(Lines())
      ensures r >= 0 ==> entries[r].tag == tag && order == Touch(old(order), tag) && clock == entries[r].time + 1
      ensures r == -1 ==> order == old(order)
    {
      CutDownAccessTime();
      r := FindSlot(tag);
      if r != -1 {
        CellOf(r);
        Stamp(r);
      }
    }

    method FindSlot(tag: nat) returns (r: int)
      requires Valid() && tag != INVALID_TAG
      ensures -1 <= r < entries.Length
      ensures r >= 0 ==> entries[r].tag == tag
      ensures r == -1 ==> tag !in cells
    {
      for i := 0 to entries.Length
        invariant tag in cells ==> i <= cells[tag].slot
      {
        if entries[i].tag == tag {
          return i;
        }
      }
      return -1;
    }

    /** Takes an invalid entry into use, if there is one. */
    method Allocate() returns (r: int)
      requires Valid() && RESERVED_TAG !in Lines()
      modifies `clock, `cells, `owner, `order, entries
      ensures Valid() && -1 <= r < entries.Length
      ensures r >= 0 <==> |old(order)| < entries.Length
      ensures r >= 0 ==>
                && entries[r].tag == RESERVED_TAG && order == old(order) + [RESERVED_TAG]
                && RESERVED_TAG in Lines() && Lines() - {RESERVED_TAG} == old(Lines())
                && clock == entries[r].time + 1
      ensures r == -1 ==> Lines() == old(Lines()) && order == old(order) && clock < CLOCK_LIMIT
    {
      CutDownAccessTime();
      FullTable(entries[..], buffers[..], cells, owner, order, clock);
      r := FindInvalid();
      if r != -1 {
        Reserve(r);
      }
    }

    method FindInvalid() returns (r: int)
      ensures -1 <= r < entries.Length
      ensures r >= 0 ==> entries[r].tag == INVALID_TAG
      ensures r == -1 ==> forall k :: 0 <= k < entries.Length ==> entries[..][k].tag != INVALID_TAG
    {
      for i := 0 to entries.Length
        invariant forall k :: 0 <= k < i ==> entries[k].tag != INVALID_TAG
      {
        if entries[i].tag == INVALID_TAG {
          return i;
        }
      }
      return -1;
    }

    method Reserve(i: nat)
      requires Valid() && RESERVED_TAG !in Lines() && clock < CLOCK_LIMIT
      requires i < entries.Length && entries[i].tag == INVALID_TAG
      modifies `clock, `cells, `order, entries
      ensures Valid() && entries[i].tag == RESERVED_TAG && clock == entries[i].time + 1 == old(clock) + 1
      ensures order == old(order) + [RESERVED_TAG]
      ensures RESERVED_TAG in Lines() && Lines() - {RESERVED_TAG} == old(Lines())
    {
      ghost var es := entries[..];
      entries[i] := entries[i].(tag := RESERVED_TAG);
      entries[i] := entries[i].(time := clock);
      assert entries[..] == es[i := es[i].(tag := RESERVED_TAG, time := clock)];
      cells := ReserveStep(es, buffers[..], cells, owner, order, clock, i, entries[..]);
      order := order + [RESERVED_TAG];
      clock := clock + 1;
    }

    /** Stamps an entry that holds nothing, which changes no line. */
    method StampInvalid(i: nat)
      requires Valid() && clock < CLOCK_LIMIT && i < entries.Length && entries[i].tag == INVALID_TAG
      modifies `clock, entries
      ensures Valid() && clock == old(clock) + 1
      ensures entries[..] == old(entries[..])[i := old(entries[i]).(time := old(clock))]
    {
      ghost var es := entries[..];
      entries[i] := entries[i].(time := clock);
      InvalidChanged(es, buffers[..], cells, owner, i, entries[..]);
      clock := clock + 1;
    }

    /**
     The entry to reuse: with the table full, that of the least recently used tag, which becomes the most
     recent; otherwise the first invalid one, and no line changes.
     */
    method Victim() returns (r: int)
      requires Valid() && clock < CLOCK_LIMIT
      modifies `clock, `cells, `order, entries
      ensures Valid() && Lines() == old(Lines()) && 0 <= r < entries.Length
      ensures entries[r].time == old(clock) && clock == old(clock) + 1
      ensures entries[r].tag == INVALID_TAG <==> |old(order)| < entries.Length
      ensures entries[r].tag == INVALID_TAG ==>
                order == old(order) && forall k :: 0 <= k < r ==> entries[k].tag != INVALID_TAG
      ensures entries[r].tag != INVALID_TAG ==>
                old(order) != [] && entries[r].tag == old(order)[0] && order == Touch(old(order), old(order)[0])
    {
      FullTable(entries[..], buffers[..], cells, owner, order, clock);
      var oldIndex := Oldest();
      if entries[0].tag != INVALID_TAG {
        CellOf(0);
      }
      if oldIndex == -1 {
        return -1;
      }
      if entries[oldIndex].tag == INVALID_TAG {
        StampInvalid(oldIndex);
      } else {
        OldestIsFirst(oldIndex);
        Stamp(oldIndex);
      }
      return oldIndex;
    }

    /** The first invalid entry, or else the entry with the least access time. */
    method Oldest() returns (oldIndex: int)
      requires 0 < entries.Length
      ensures -1 <= oldIndex < entries.Length
      ensures oldIndex >= 0 && entries[oldIndex].tag != INVALID_TAG ==>
                forall k :: 0 <= k < entries.Length ==> entries[oldIndex].time <= entries[k].time
      ensures oldIndex >= 0 && entries[oldIndex].tag == INVALID_TAG ==>
                forall k :: 0 <= k < oldIndex ==> entries[k].tag != INVALID_TAG
      ensures oldIndex >= 0 && entries[oldIndex].tag != INVALID_TAG ==>
                forall k :: 0 <= k < entries.Length ==> entries[k].tag != INVALID_TAG
      ensures oldIndex == -1 ==>
                forall k :: 0 <= k < entries.Length ==> entries[k].tag != INVALID_TAG && entries[k].time >= 0xffff_ffff
    {
      oldIndex := -1;
      var oldTime := 0xffff_ffff;
      for i := 0 to entries.Length
        invariant -1 <= oldIndex < i
        invariant forall k :: 0 <= k < i ==> entries[k].tag != INVALID_TAG && oldTime <= entries[k].time
        invariant oldTime == if oldIndex >= 0 then entries[oldIndex].time else 0xffff_ffff
      {
        if entries[i].tag == INVALID_TAG {
          oldIndex := i;
          break;
        }
        if entries[i].time < oldTime {
          oldTime := entries[i].time;
          oldIndex := i;
        }
      }
    }

    /** The entry with the least access time holds the least recently used tag. */
    lemma OldestIsFirst(i: nat)
      requires Valid() && i < entries.Length && entries[i].tag != INVALID_TAG
      requires forall k :: 0 <= k < entries.Length ==> entries[i].time <= entries[k].time
      ensures order != [] && order[0] == entries[i].tag
    {
      CellOf(i);
      var p :| 0 <= p < |order| && order[p] == entries[i].tag;
      assert order[0] in cells;
      CellOf(cells[order[0]].slot);
    }

    /** Gives the most recently used entry a tag, a state and contents. */
    method Fill(r: nat, tag: nat, data: Data, changed: bool)
      requires Valid() && r < entries.Length && tag < RESERVED_TAG
      requires order != [] && entries[r].tag == order[|order| - 1] && entries[r].tag != INVALID_TAG
      requires tag !in Lines() || tag == entries[r].tag
      modifies `cells, `order, entries, buffers
      ensures Valid()
      ensures Lines() == (old(Lines()) - {old(entries[r].tag)})[tag := Line(changed, data)]
      ensures order == old(order)[..|old(order)| - 1] + [tag]
    {
      CellOf(r);
      ghost var es, ps := entries[..], buffers[..];
      buffers[entries[r].buffer] := data;
      entries[r] := entries[r].(tag := tag);
      entries[r] := entries[r].(changed := changed);
      assert entries[..] == es[r := es[r].(tag := tag, changed := changed)];
      assert buffers[..] == ps[es[r].buffer := data];
      cells, order := FillStep(es, ps, cells, owner, order, clock, r, tag, Line(changed, data),
                               entries[..], buffers[..]);
    }

    lemma ChangedIsValid(i: nat)
      requires Valid() && i < entries.Length && entries[i].changed
      ensures entries[i].tag != INVALID_TAG
    {
      assert EntryHolds(entries[..][i], i, buffers[..], cells);
    }

    /** The lines of the entries before slot `k` are unchanged since they were read or written back. */
    ghost predicate CleanBelow(k: nat)
      reads this
    {
      forall t :: t in cells && cells[t].slot < k ==> !cells[t].line.changed
    }

    /** Notes that an entry has been written back. */
    method Clean(i: nat)
      requires Valid() && i < entries.Length && entries[i].tag != INVALID_TAG && entries[i].tag in Lines()
      requires CleanBelow(i)
      modifies `cells, entries
      ensures Valid() && CleanBelow(i + 1)
      ensures var t := old(entries[i].tag);
              Lines() == old(Lines())[t := Line(false, old(Lines())[t].data)]
    {
      CellOf(i);
      ghost var es, t := entries[..], entries[i].tag;
      ghost var c := cells[t].(line := Line(false, cells[t].line.data));
      entries[i] := entries[i].(changed := false);
      MapPut(cells, t, c);
      LinesPut(cells, t, c);
      EntryChanged(es, buffers[..], cells, owner, i, entries[i], entries[..], cells[t := c]);
      CleanOrder(cells, order, clock, t, c);
      cells := cells[t := c];
    }

    lemma UnchangedCell(i: nat)
      requires Valid() && CleanBelow(i) && i < entries.Length && !entries[i].changed
      ensures CleanBelow(i + 1)
    {
      forall t | t in cells && cells[t].slot == i ensures !cells[t].line.changed {
        CellOf(i);
      }
    }

    lemma AllClean(t: nat)
      requires Valid() && CleanBelow(entries.Length) && t in Lines()
      ensures !Lines()[t].changed
    {
      assert cells[t].slot < entries.Length;
    }
  }
}
