/**
 Intrusive lists over one shared set of nodes. A node is a number; `next[n]` is its link and `ids[n]` its
 identity. Only the segment from a list's header to its tail says anything about the list: the link of the
 tail itself may be left over from an earlier removal, and may even lead into another list.
 */
module LinkedLists {
  import opened Sequences

  const NULL: int := -1

  ghost predicate Linked(next: seq<int>, items: seq<nat>, k: int) {
    0 <= k < |items| - 1 && items[k] < |next| && next[items[k]] == items[k + 1]
  }

  /** The links lead from `header` over exactly `items` to `tail`. */
  ghost predicate Segment(next: seq<int>, header: int, tail: int, items: seq<nat>) {
    && (items == [] ==> header == NULL && tail == NULL)
    && (items != [] ==> header == items[0] && tail == items[|items| - 1])
    && (forall k :: 0 <= k < |items| ==> items[k] < |next|)
    && (forall k :: 0 <= k < |items| - 1 ==> Linked(next, items, k))
    && Distinct(items)
  }

  function WithoutAt(items: seq<nat>, k: nat): seq<nat>
    requires k < |items|
  {
    items[..k] + items[k + 1..]
  }

  /** Links of other nodes do not matter to a list. */
  lemma SegmentFrame(next: seq<int>, next': seq<int>, header: int, tail: int, items: seq<nat>)
    requires Segment(next, header, tail, items) && |next'| == |next|
    requires forall n :: 0 <= n < |next| && n in items ==> next'[n] == next[n]
    ensures Segment(next', header, tail, items)
  {
    forall k | 0 <= k < |items| - 1 ensures Linked(next', items, k) {
      assert Linked(next, items, k);
      assert items[k] in items;
    }
  }

  lemma SegmentGrows(next: seq<int>, header: int, tail: int, items: seq<nat>, item: nat, next': seq<int>)
    requires Segment(next, header, tail, items)
    requires item < |next| && item !in items && |next'| == |next|
    requires items != [] ==> next'[tail] == item
    requires forall n :: 0 <= n < |next| && n != tail && n != item ==> next'[n] == next[n]
    ensures Segment(next', if items == [] then item else header, item, items + [item])
  {
    var grown := items + [item];
    forall k | 0 <= k < |grown| - 1 ensures Linked(next', grown, k) {
      if k < |items| - 1 {
        assert Linked(next, items, k);
      }
    }
  }

  lemma SegmentPrepended(next: seq<int>, header: int, tail: int, items: seq<nat>, item: nat, next': seq<int>)
    requires Segment(next, header, tail, items)
    requires item < |next| && item !in items && next' == next[item := header]
    ensures Segment(next', item, if items == [] then item else tail, [item] + items)
  {
    var grown := [item] + items;
    forall k | 0 <= k < |grown| - 1 ensures Linked(next', grown, k) {
      if k > 0 {
        assert Linked(next, items, k - 1);
      }
    }
  }

  /** Unlinking item `k` the four ways that its place in the list calls for. */
  lemma SegmentShrinks(next: seq<int>, header: int, tail: int, items: seq<nat>, k: nat,
                       next': seq<int>, header': int, tail': int)
    requires Segment(next, header, tail, items) && k < |items| && |next'| == |next|
    requires header' == if k > 0 then header else if |items| == 1 then NULL else next[items[0]]
    requires tail' == if k < |items| - 1 then tail else if |items| == 1 then NULL else items[k - 1]
    requires next' == if 0 < k < |items| - 1 then next[items[k - 1] := next[items[k]]] else next
    ensures Segment(next', header', tail', WithoutAt(items, k))
  {
    var rest := WithoutAt(items, k);
    if k < |items| - 1 {
      assert Linked(next, items, k);
    }
    forall i | 0 <= i < |rest| - 1 ensures Linked(next', rest, i) {
      assert Linked(next, items, if i < k then i else i + 1);
    }
  }

  // ----- removing, on values

  /** What a list head holds. */
  datatype Anchor = Anchor(header: int, tail: int, count: int)

  /** The head and the links describe a list: its count of nodes leads from its header to its tail. */
  ghost predicate IsList(next: seq<int>, a: Anchor) {
    exists items :: a.count == |items| && Segment(next, a.header, a.tail, items)
  }

  function LinkOf(next: seq<int>, n: int): int {
    if 0 <= n < |next| then next[n] else NULL
  }

  function Relinked(next: seq<int>, n: int, to: int): seq<int> {
    if 0 <= n < |next| then next[n := to] else next
  }

  /** Where a walk along the links stands when it has passed the nodes of `path`. */
  function Reached(next: seq<int>, header: int, path: seq<nat>): int {
    if path == [] then header else LinkOf(next, path[|path| - 1])
  }

  ghost predicate Passed<Id>(next: seq<int>, ids: seq<Id>, id: Id, header: int, path: seq<nat>, i: int) {
    && 0 <= i < |path| && path[i] < |next| && path[i] < |ids| && ids[path[i]] != id
    && path[i] == Reached(next, header, path[..i])
  }

  /**
   The search for an identity walks over the nodes of `path`, on whatever list they are, and stops: at a node
   with that identity, or at the end of the links. A search that goes round in circles never stops.
   */
  ghost predicate Search<Id>(next: seq<int>, ids: seq<Id>, id: Id, header: int, path: seq<nat>) {
    && |ids| == |next| && (forall i :: 0 <= i < |path| ==> Passed(next, ids, id, header, path, i))
    && var stop := Reached(next, header, path);
       stop == NULL || (0 <= stop < |next| && ids[stop] == id)
  }

  /** A search has one course. */
  lemma {:induction false} SearchOnce<Id>(next: seq<int>, ids: seq<Id>, id: Id, header: int, p: seq<nat>, q: seq<nat>,
                                          k: nat)
    requires Search(next, ids, id, header, p) && Search(next, ids, id, header, q) && k <= |p|
    ensures k <= |q| && p[..k] == q[..k]
  {
    if k > 0 {
      SearchOnce(next, ids, id, header, p, q, k - 1);
      assert Passed(next, ids, id, header, p, k - 1);
      assert q[..|q|] == q;
      assert Passed(next, ids, id, header, q, k - 1);
    }
  }

  /** What the search does to the links and the head when it stops at `stop` after `path`. */
  function Unlinked(next: seq<int>, a: Anchor, path: seq<nat>, stop: int): (seq<int>, Anchor) {
    var previous := if path == [] then a.header else path[|path| - 1];
    if stop == NULL then (next, a)
    else if stop == a.header && stop == a.tail then (next, Anchor(NULL, NULL, a.count - 1))
    else if stop == a.header then (next, Anchor(LinkOf(next, stop), a.tail, a.count - 1))
    else if stop == a.tail then (next, Anchor(a.header, previous, a.count - 1))
    else (Relinked(next, previous, LinkOf(next, stop)), Anchor(a.header, a.tail, a.count - 1))
  }

  /** As long as it is on the list, the search passes its items in order. */
  lemma {:induction false} PathIsItems<Id>(next: seq<int>, ids: seq<Id>, id: Id, a: Anchor, items: seq<nat>,
                                           path: seq<nat>, k: nat)
    requires a.count == |items| && Segment(next, a.header, a.tail, items)
    requires Search(next, ids, id, a.header, path) && k <= |path| && k <= |items|
    ensures path[..k] == items[..k]
    ensures k < |items| ==> Reached(next, a.header, path[..k]) == items[k]
  {
    if k > 0 {
      PathIsItems(next, ids, id, a, items, path, k - 1);
      assert Passed(next, ids, id, a.header, path, k - 1);
      assert k < |items| ==> Linked(next, items, k - 1);
    }
  }

  /** A search that stops at a node behind the tail has met no item with the identity. */
  lemma StopBehindTail<Id>(next: seq<int>, ids: seq<Id>, id: Id, a: Anchor, items: seq<nat>, path: seq<nat>)
    requires a.count == |items| && Segment(next, a.header, a.tail, items) && Search(next, ids, id, a.header, path)
    requires |items| <= |path| && Reached(next, a.header, path) != NULL
    ensures items != [] && path != [] && Reached(next, a.header, path) !in items
  {
    var stop := Reached(next, a.header, path);
    PathIsItems(next, ids, id, a, items, path, |items|);
    if path != [] {
      assert Passed(next, ids, id, a.header, path, 0);
    }
    forall i | 0 <= i < |items| ensures items[i] != stop {
      assert Passed(next, ids, id, a.header, path, i);
      assert path[..|items|][i] == items[i];
    }
  }

  lemma {:induction false} SamePrefix(next: seq<int>, header: int, tail: int, a: seq<nat>, tail': int, b: seq<nat>,
                                      k: nat)
    requires Segment(next, header, tail, a) && Segment(next, header, tail', b) && k <= |a| && k <= |b|
    ensures a[..k] == b[..k]
  {
    if k > 1 {
      SamePrefix(next, header, tail, a, tail', b, k - 1);
      assert Linked(next, a, k - 2) && Linked(next, b, k - 2);
      assert a[k - 2] == a[..k - 1][k - 2] && b[k - 2] == b[..k - 1][k - 2];
    }
  }

  /** Header, tail and links determine the items. */
  lemma SegmentOnce(next: seq<int>, header: int, tail: int, a: seq<nat>, b: seq<nat>)
    requires Segment(next, header, tail, a) && Segment(next, header, tail, b)
    ensures a == b
  {
    var k := if |a| <= |b| then |a| else |b|;
    SamePrefix(next, header, tail, a, tail, b, k);
    if k > 0 {
      assert a[k - 1] == a[..k][k - 1] && b[k - 1] == b[..k][k - 1];
    }
  }

  /** A count that is not that of the items fits no list. */
  lemma CountMustFit(next: seq<int>, a: Anchor, items: seq<nat>)
    requires Segment(next, a.header, a.tail, items)
    ensures IsList(next, a) <==> a.count == |items|
  {
    if IsList(next, a) {
      var other :| a.count == |other| && Segment(next, a.header, a.tail, other);
      SegmentOnce(next, a.header, a.tail, items, other);
    }
  }

  /** Taking out a node that is not an item leaves the items, and a count that does not fit them. */
  lemma ForeignNodeKeepsItems<Id>(next: seq<int>, ids: seq<Id>, id: Id, a: Anchor, items: seq<nat>, path: seq<nat>)
    requires a.count == |items| && Segment(next, a.header, a.tail, items) && Search(next, ids, id, a.header, path)
    requires |items| <= |path| && Reached(next, a.header, path) != NULL
    ensures var (next', a') := Unlinked(next, a, path, Reached(next, a.header, path));
            && Segment(next', a'.header, a'.tail, items) && a' == a.(count := a.count - 1) && items != []
            && |next'| == |next| && Reached(next, a.header, path) !in items
  {
    StopBehindTail(next, ids, id, a, items, path);
    var (next', a') := Unlinked(next, a, path, Reached(next, a.header, path));
    forall i | 0 <= i < |items| - 1 ensures Linked(next', items, i) {
      assert Linked(next, items, i);
    }
  }

  /** Removing leaves a list exactly if the search stops at an item or reaches the end of the links. */
  lemma RemoveKeepsListIff<Id>(next: seq<int>, ids: seq<Id>, id: Id, a: Anchor, items: seq<nat>, path: seq<nat>)
    requires a.count == |items| && Segment(next, a.header, a.tail, items) && Search(next, ids, id, a.header, path)
    ensures |path| < |items| ==> path == items[..|path|] && Reached(next, a.header, path) == items[|path|]
    ensures var stop := Reached(next, a.header, path); var (next', a') := Unlinked(next, a, path, stop);
            IsList(next', a') <==> stop == NULL || |path| < |items|
  {
    var stop := Reached(next, a.header, path);
    PathIsItems(next, ids, id, a, items, path, if |path| < |items| then |path| else |items|);
    if |path| < |items| {
      assert path[..|path|] == path;
      var (next', a') := Unlinked(next, a, path, stop);
      UnlinkedItem(next, a, items, |path|, path, next', a');
    } else if stop != NULL {
      ForeignNodeKeepsItems(next, ids, id, a, items, path);
      var (next', a') := Unlinked(next, a, path, stop);
      CountMustFit(next', a', items);
    }
  }

  lemma UnlinkedItem(next: seq<int>, a: Anchor, items: seq<nat>, k: nat, path: seq<nat>, next': seq<int>, a': Anchor)
    requires a.count == |items| && Segment(next, a.header, a.tail, items) && k < |items| && path == items[..k]
    requires (next', a') == Unlinked(next, a, path, items[k])
    ensures a'.count == |items| - 1 && Segment(next', a'.header, a'.tail, WithoutAt(items, k)) && |next'| == |next|
    ensures forall n :: 0 <= n < |next| && n !in items ==> next'[n] == next[n]
    ensures |items| > 1 && k == |items| - 1 ==> next'[a'.tail] == items[k]
  {
    if k < |items| - 1 {
      assert Linked(next, items, k);
    }
    if k > 0 {
      assert Linked(next, items, k - 1);
    }
    SegmentShrinks(next, a.header, a.tail, items, k, next', a'.header, a'.tail);
  }

  /** What appending does to the links and the head. */
  function TailAdded(next: seq<int>, a: Anchor, item: nat): (seq<int>, Anchor) {
    if a.header == NULL then (Relinked(next, item, NULL), Anchor(item, item, 1))
    else (Relinked(Relinked(next, item, NULL), a.tail, item), Anchor(a.header, item, a.count + 1))
  }

  /** Appending keeps a list exactly if the item is not on it. */
  lemma AddToTailIff(next: seq<int>, a: Anchor, items: seq<nat>, item: nat)
    requires a.count == |items| && Segment(next, a.header, a.tail, items) && item < |next|
    ensures var (next', a') := TailAdded(next, a, item);
            && |next'| == |next| && a'.count == |items| + 1
            && (item !in items ==> Segment(next', a'.header, a'.tail, items + [item]))
            && (IsList(next', a') <==> item !in items)
  {
    var (next', a') := TailAdded(next, a, item);
    if item !in items {
      SegmentGrows(next, a.header, a.tail, items, item, next');
      CountMustFit(next', a', items + [item]);
    } else {
      TwiceBreaksList(next, a, items, item, next', a');
    }
  }

  lemma TwiceBreaksList(next: seq<int>, a: Anchor, items: seq<nat>, item: nat, next': seq<int>, a': Anchor)
    requires a.count == |items| && Segment(next, a.header, a.tail, items) && item in items
    requires (next', a') == TailAdded(next, a, item)
    ensures !IsList(next', a')
  {
    var k :| 0 <= k < |items| && items[k] == item;
    if IsList(next', a') {
      var other :| a'.count == |other| && Segment(next', a'.header, a'.tail, other);
      var front := items[..k + 1];
      forall i | 0 <= i < k ensures Linked(next', front, i) {
        assert Linked(next, items, i);
      }
      assert Linked(next', other, k);
      SamePrefix(next', a'.header, item, front, a'.tail, other, k + 1);
    }
  }

  /** What putting in front does to the links and the head. */
  function HeaderAdded(next: seq<int>, a: Anchor, item: nat): (seq<int>, Anchor) {
    (Relinked(next, item, a.header),
     if a.header == NULL then Anchor(item, item, 1) else Anchor(item, a.tail, a.count + 1))
  }

  /** Putting in front keeps a list exactly if the item is not on it. */
  lemma AddToHeaderIff(next: seq<int>, a: Anchor, items: seq<nat>, item: nat)
    requires a.count == |items| && Segment(next, a.header, a.tail, items) && item < |next|
    ensures var (next', a') := HeaderAdded(next, a, item);
            && |next'| == |next| && a'.count == |items| + 1
            && (item !in items ==> Segment(next', a'.header, a'.tail, [item] + items))
            && (IsList(next', a') <==> item !in items)
  {
    var (next', a') := HeaderAdded(next, a, item);
    if item !in items {
      SegmentPrepended(next, a.header, a.tail, items, item, next');
      CountMustFit(next', a', [item] + items);
    } else {
      RoundBreaksList(next, a, items, item, next', a');
    }
  }

  lemma RoundBreaksList(next: seq<int>, a: Anchor, items: seq<nat>, item: nat, next': seq<int>, a': Anchor)
    requires a.count == |items| && Segment(next, a.header, a.tail, items) && item in items && item < |next|
    requires (next', a') == HeaderAdded(next, a, item)
    ensures !IsList(next', a')
  {
    var k :| 0 <= k < |items| && items[k] == item;
    if IsList(next', a') {
      var other :| a'.count == |other| && Segment(next', a'.header, a'.tail, other);
      Circle(next, items, item, k, next', other, k);
    }
  }

  /** The links behind an item put in front once more lead over the items to itself. */
  lemma {:induction false} Circle(next: seq<int>, items: seq<nat>, item: nat, k: nat, next': seq<int>,
                                  other: seq<nat>, i: nat)
    requires k < |items| && items[k] == item < |next| && Distinct(items) && i <= k && i + 1 < |other|
    requires forall j :: 0 <= j < |items| - 1 ==> Linked(next, items, j)
    requires next' == next[item := items[0]] && other[0] == item
    requires forall j :: 0 <= j < |other| - 1 ==> Linked(next', other, j)
    ensures other[i + 1] == items[i]
  {
    assert Linked(next', other, i);
    if i > 0 {
      Circle(next, items, item, k, next', other, i - 1);
      assert Linked(next, items, i - 1);
    }
  }

  /**
   Two lists, nodes 0 and 1. Both nodes go on list A, node 1 is removed from A and goes on list B. Removing
   node 1 from A once more finds it behind A's tail: A counts no node but has a header, and the node that is
   returned is still on B.
   */
  lemma StaleLinkReachesOtherList(ids: seq<nat>)
    requires |ids| == 2 && ids[0] != ids[1]
    ensures var empty := Anchor(NULL, NULL, 0);
            var (n1, a1) := TailAdded([NULL, NULL], empty, 0);
            var (n2, a2) := TailAdded(n1, a1, 1);
            var (n3, a3) := Unlinked(n2, a2, [0], 1);
            var (n4, b4) := TailAdded(n3, empty, 1);
            var (n5, a5) := Unlinked(n4, a3, [0], 1);
            && Search(n2, ids, ids[1], a2.header, [0]) && Segment(n3, a3.header, a3.tail, [0])
            && Search(n4, ids, ids[1], a3.header, [0]) && Segment(n4, b4.header, b4.tail, [1])
            && a5 == Anchor(0, 0, 0) && !IsList(n5, a5) && Segment(n5, b4.header, b4.tail, [1])
  {
    var next := [1, NULL];
    assert Passed(next, ids, ids[1], 0, [0], 0);
    assert Segment(next, 0, 0, [0]);
  }

  class LinkedList {
    var header: int
    var tail: int
    var count: int
    ghost var items: seq<nat>

    ghost predicate Valid(next: array<int>)
      reads this, next
    {
      count == |items| && Segment(next[..], header, tail, items)
    }

    ghost function Head(): Anchor
      reads this
    {
      Anchor(header, tail, count)
    }

    constructor ()
      ensures header == NULL && tail == NULL && count == 0 && items == []
    {
      header, tail, count := NULL, NULL, 0;
      items := [];
    }

    /** Appends an item. What was a list stays one exactly if the item was not on it. */
    method AddToTail(next: array<int>, item: nat)
      requires item < next.Length && (header != NULL ==> 0 <= tail < next.Length)
      modifies this, next
      ensures (next[..], Head()) == TailAdded(old(next[..]), old(Head()), item)
      ensures items == old(items) + [item]
      ensures old(Valid(next)) ==>
                && (Valid(next) <==> item !in old(items)) && (Valid(next) <==> IsList(next[..], Head()))
                && forall n :: 0 <= n < next.Length && n !in items ==> next[n] == old(next[n])
    {
      ghost var before, a := next[..], Head();
      if Valid(next) {
        AddToTailIff(before, a, items, item);
      }
      items := items + [item];
      next[item] := NULL;
      if header == NULL {
        header, tail := item, item;
        count := 1;
        return;
      }
      next[tail] := item;
      tail := item;
      count := count + 1;
    }

    /** Puts an item in front. What was a list stays one exactly if the item was not on it. */
    method AddToHeader(next: array<int>, item: nat)
      requires item < next.Length
      modifies this, next
      ensures (next[..], Head()) == HeaderAdded(old(next[..]), old(Head()), item)
      ensures items == [item] + old(items)
      ensures old(Valid(next)) ==>
                && (Valid(next) <==> item !in old(items)) && (Valid(next) <==> IsList(next[..], Head()))
                && forall n :: 0 <= n < next.Length && n !in items ==> next[n] == old(next[n])
    {
      if Valid(next) {
        AddToHeaderIff(next[..], Head(), items, item);
      }
      items := [item] + items;
      next[item] := header;
      if header == NULL {
        header, tail := item, item;
        count := 1;
        return;
      }
      header := item;
      count := count + 1;
    }

    /** The least position of an item with the identity, the length of the list if there is none. */
    ghost predicate FirstAt<Id>(ids: seq<Id>, id: Id, k: nat)
      reads this
    {
      && k <= |items|
      && (forall i :: 0 <= i < k ==> items[i] < |ids| && ids[items[i]] != id)
      && (k < |items| ==> items[k] < |ids| && ids[items[k]] == id)
    }

    /** With the identity first at position `k`, the search passes the items before it. */
    lemma SearchFinds<Id>(next: seq<int>, ids: seq<Id>, id: Id, k: nat)
      requires count == |items| && Segment(next, header, tail, items) && |ids| == |next|
      requires FirstAt(ids, id, k) && k < |items|
      ensures Search(next, ids, id, header, items[..k]) && Reached(next, header, items[..k]) == items[k]
    {
      forall i | 0 <= i < k ensures Passed(next, ids, id, header, items[..k], i) {
        assert i > 0 ==> Linked(next, items, i - 1);
      }
      assert k > 0 ==> Linked(next, items, k - 1);
    }

    /**
     Unlinks the first node with the given identity that a walk from the header meets, and returns it. The walk
     passes the nodes of `path`. The list stays one if and only if the walk stops at an item or reaches the end
     of the links; otherwise it has run over the tail into another node, and the head fits no list.
     */
    method Remove<Id(==)>(next: array<int>, ids: array<Id>, id: Id, ghost path: seq<nat>) returns (r: int)
      requires Valid(next) && ids.Length == next.Length && ids as object != next
      requires Search(next[..], ids[..], id, header, path)
      modifies this, next
      ensures ids[..] == old(ids[..]) && r == Reached(old(next[..]), old(header), path)
      ensures Valid(next) <==> r == NULL || |path| < |old(items)|
      ensures Valid(next) <==> IsList(next[..], Head())
      ensures |path| < |old(items)| ==> r == old(items)[|path|] && items == WithoutAt(old(items), |path|)
      ensures r == NULL ==> items == old(items) && Head() == old(Head()) && next[..] == old(next[..])
      ensures |old(items)| > 1 && |path| == |old(items)| - 1 ==> 0 <= tail < next.Length && next[tail] == r
      ensures Valid(next) ==> forall n :: 0 <= n < next.Length && n !in old(items) ==> next[n] == old(next[n])
      ensures (next[..], Head()) == Unlinked(old(next[..]), old(Head()), path, r)
      ensures !Valid(next) ==> Segment(next[..], header, tail, items) && items == old(items) && r !in items
    {
      RemoveKeepsListIff(next[..], ids[..], id, Head(), items, path);
      var previous;
      previous, r := Find(next, ids, id, path);
      if r != NULL {
        if |path| >= |items| {
          ForeignNodeKeepsItems(next[..], ids[..], id, Head(), items, path);
        }
        Unlink(next, previous, r, path);
      }
    }

    /** The walk of `Remove`: where it stops, and the node before. */
    method Find<Id(==)>(next: array<int>, ids: array<Id>, id: Id, ghost path: seq<nat>)
      returns (previous: int, link: int)
      requires ids.Length == next.Length && Search(next[..], ids[..], id, header, path)
      ensures link == Reached(next[..], header, path) && previous == (if path == [] then header else path[|path| - 1])
      ensures link != NULL ==> 0 <= link < next.Length
      ensures path != [] ==> path[|path| - 1] < next.Length
    {
      previous, link := header, header;
      ghost var i := 0;
      while link != NULL
        invariant i <= |path| && link == Reached(next[..], header, path[..i])
        invariant previous == if i == 0 then header else path[i - 1]
        decreases |path| - i
      {
        SearchStep(next[..], ids[..], id, path, i);
        if ids[link] == id {
          return;
        }
        previous := link;
        link := next[link];
        i := i + 1;
      }
      SearchStep(next[..], ids[..], id, path, i);
    }

    lemma SearchStep<Id>(next: seq<int>, ids: seq<Id>, id: Id, path: seq<nat>, i: nat)
      requires Search(next, ids, id, header, path) && i <= |path|
      ensures var link := Reached(next, header, path[..i]);
              if i == |path| then path[..i] == path && (link == NULL || (0 <= link < |next| && ids[link] == id))
              else 0 <= link < |next| && link == path[i] && ids[link] != id
                   && next[link] == Reached(next, header, path[..i + 1])
      ensures i > 0 ==> path[i - 1] < |next|
    {
      if i < |path| {
        assert Passed(next, ids, id, header, path, i);
      }
      if i > 0 {
        assert Passed(next, ids, id, header, path, i - 1);
      }
    }

    method Unlink(next: array<int>, previous: int, link: int, ghost path: seq<nat>)
      requires Valid(next) && 0 <= link < next.Length
      requires if path == [] then link == header else path[|path| - 1] < next.Length
      requires previous == if path == [] then header else path[|path| - 1]
      requires IsList(Unlinked(next[..], Head(), path, link).0, Unlinked(next[..], Head(), path, link).1)
               <==> |path| < |items|
      requires |path| < |items| ==> path == items[..|path|] && link == items[|path|]
      modifies this, next
      ensures (next[..], Head()) == Unlinked(old(next[..]), old(Head()), path, link)
      ensures Valid(next) <==> |path| < |old(items)|
      ensures items == if |path| < |old(items)| then WithoutAt(old(items), |path|) else old(items)
      ensures |old(items)| > 1 && |path| == |old(items)| - 1 ==> 0 <= tail < next.Length && next[tail] == link
      ensures Valid(next) ==> forall n :: 0 <= n < next.Length && n !in old(items) ==> next[n] == old(next[n])
    {
      if link == header && link == tail {
        header, tail := NULL, NULL;
      } else if link == header {
        header := next[link];
      } else if link == tail {
        tail := previous;
      } else {
        next[previous] := next[link];
      }
      count := count - 1;
      if |path| < |items| {
        UnlinkedItem(old(next[..]), old(Head()), items, |path|, path, next[..], Head());
        items := WithoutAt(items, |path|);
      }
    }

    method RemoveFromHeader<Id(==)>(next: array<int>, ids: array<Id>) returns (r: int)
      requires Valid(next) && ids.Length == next.Length && ids as object != next
      modifies this, next
      ensures Valid(next) && ids[..] == old(ids[..])
      ensures old(items) == [] ==> r == NULL && items == []
      ensures old(items) != [] ==> r == old(items)[0] && items == old(items)[1..]
      ensures (next[..], Head()) == if old(items) == [] then (old(next[..]), old(Head()))
                                    else Unlinked(old(next[..]), old(Head()), [], old(header))
      ensures forall n :: 0 <= n < next.Length && n !in old(items) ==> next[n] == old(next[n])
    {
      if count == 0 {
        return NULL;
      }
      SearchFinds(next[..], ids[..], ids[header], 0);
      r := Remove(next, ids, ids[header], []);
    }

    /** Removes the first item that has the last one's identity: the last one itself if no other shares it. */
    method RemoveFromTail<Id(==)>(next: array<int>, ids: array<Id>) returns (r: int, ghost k: nat)
      requires Valid(next) && ids.Length == next.Length && ids as object != next
      modifies this, next
      ensures Valid(next) && ids[..] == old(ids[..])
      ensures old(items) == [] ==> r == NULL && items == []
      ensures old(items) != [] ==>
                && k < |old(items)| && old(FirstAt(ids[..], ids[items[|items| - 1]], k))
                && r == old(items)[k] && items == WithoutAt(old(items), k)
      ensures forall n :: 0 <= n < next.Length && n !in old(items) ==> next[n] == old(next[n])
    {
      k := 0;
      if count == 0 {
        return NULL, 0;
      }
      k := FirstIndex(ids[..], ids[tail]);
      SearchFinds(next[..], ids[..], ids[tail], k);
      r := Remove(next, ids, ids[tail], items[..k]);
    }

    ghost method FirstIndex<Id>(ids: seq<Id>, id: Id) returns (k: nat)
      requires forall i :: 0 <= i < |items| ==> items[i] < |ids|
      ensures FirstAt(ids, id, k)
    {
      k := 0;
      while k < |items| && ids[items[k]] != id
        invariant k <= |items| && forall i :: 0 <= i < k ==> ids[items[i]] != id
      {
        k := k + 1;
      }
    }
  }
}
