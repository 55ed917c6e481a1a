/**
 The scheduler's lists as links and heads. A search for a task that is not on the list of its priority does not
 stop at the list's tail: it follows the link that an earlier removal has left there, and may find the task
 behind it. Then a head fits no list any more. Whatever else an operation does, it does what the lists ask for.
 */
module TaskLinks {
  import opened LinkedLists
  import opened Scheduling
  import opened Placement
  import opened TaskSteps

  /** The links of the control blocks, and the heads of the six lists. */
  datatype Links = Links(next: seq<int>, heads: seq<Anchor>)

  /** The lists in `s` are what the links show, as long as they show any. */
  datatype Machine = Machine(s: Sched, links: Links)

  ghost predicate ShowsList(links: Links, l: nat, items: seq<nat>) {
    && l < |links.heads| && links.heads[l].count == |items|
    && Segment(links.next, links.heads[l].header, links.heads[l].tail, items)
  }

  ghost predicate Shows(links: Links, lists: seq<seq<nat>>) {
    && |links.next| == MAXCOUNT && |lists| == |links.heads|
    && forall l :: 0 <= l < |lists| ==> ShowsList(links, l, lists[l])
  }

  /** Links show at most one sequence of lists. */
  lemma ShowsOnce(links: Links, a: seq<seq<nat>>, b: seq<seq<nat>>)
    requires Shows(links, a) && Shows(links, b)
    ensures a == b
  {
    forall l | 0 <= l < |a| ensures a[l] == b[l] {
      assert ShowsList(links, l, a[l]) && ShowsList(links, l, b[l]);
      SegmentOnce(links.next, links.heads[l].header, links.heads[l].tail, a[l], b[l]);
    }
  }

  // ----- adding and removing

  function WithList(links: Links, l: nat, list: (seq<int>, Anchor)): Links
    requires l < |links.heads|
  {
    Links(list.0, links.heads[l := list.1])
  }

  function Added(links: Links, l: nat, t: nat): Links
    requires l < |links.heads|
  {
    WithList(links, l, TailAdded(links.next, links.heads[l], t))
  }

  function Removed(links: Links, l: nat, path: seq<nat>, stop: int): Links
    requires l < |links.heads|
  {
    WithList(links, l, Unlinked(links.next, links.heads[l], path, stop))
  }

  lemma InOneList(lists: seq<seq<nat>>, spots: Spots, i: nat, t: nat)
    requires Listing(lists, spots) && i < |lists| && t in lists[i]
    ensures t in spots && spots[t].list == i
  {
    var a :| 0 <= a < |lists[i]| && lists[i][a] == t;
    assert spots[lists[i][a]] == Spot(i, a);
  }

  /** A list after a change to the links of another one, and of a task that is on none. */
  lemma OtherList(next: seq<int>, next': seq<int>, lists: seq<seq<nat>>, spots: Spots, l: nat, t: int,
                  i: nat, header: int, tail: int)
    requires Listing(lists, spots) && l < |lists| && i < |lists| && i != l && t !in spots
    requires Segment(next, header, tail, lists[i]) && |next'| == |next|
    requires forall n :: 0 <= n < |next| && n !in lists[l] && n != t ==> next'[n] == next[n]
    ensures Segment(next', header, tail, lists[i])
  {
    forall n | 0 <= n < |next| && n in lists[i] ensures next'[n] == next[n] {
      InOneList(lists, spots, i, n);
      if n in lists[l] {
        InOneList(lists, spots, l, n);
      }
    }
    SegmentFrame(next, next', header, tail, lists[i]);
  }

  lemma AddedShows(links: Links, lists: seq<seq<nat>>, spots: Spots, l: nat, t: nat)
    requires Shows(links, lists) && Listing(lists, spots) && l < |lists| && t < MAXCOUNT && t !in spots
    ensures Shows(Added(links, l, t), Append(lists, l, t))
  {
    var links' := Added(links, l, t);
    assert ShowsList(links, l, lists[l]);
    if t in lists[l] {
      InOneList(lists, spots, l, t);
    }
    AddToTailIff(links.next, links.heads[l], lists[l], t);
    forall i | 0 <= i < |lists| ensures ShowsList(links', i, Append(lists, l, t)[i]) {
      assert ShowsList(links, i, lists[i]);
      if i != l {
        OtherList(links.next, links'.next, lists, spots, l, t, i, links.heads[i].header, links.heads[i].tail);
      }
    }
  }

  lemma RemovedShows(links: Links, lists: seq<seq<nat>>, spots: Spots, l: nat, k: nat)
    requires Shows(links, lists) && Listing(lists, spots) && l < |lists| && k < |lists[l]|
    ensures Shows(Removed(links, l, lists[l][..k], lists[l][k]), Drop(lists, l, k))
  {
    var links' := Removed(links, l, lists[l][..k], lists[l][k]);
    assert ShowsList(links, l, lists[l]);
    UnlinkedItem(links.next, links.heads[l], lists[l], k, lists[l][..k], links'.next, links'.heads[l]);
    forall i | 0 <= i < |lists| ensures ShowsList(links', i, Drop(lists, l, k)[i]) {
      assert ShowsList(links, i, lists[i]);
      if i != l {
        OtherList(links.next, links'.next, lists, spots, l, NULL, i, links.heads[i].header, links.heads[i].tail);
      }
    }
  }

  // ----- searching

  /** The search for this identity from the head of list `l` comes to an end. */
  ghost predicate Stops(links: Links, ids: seq<TaskId>, l: nat, id: TaskId)
    requires l < |links.heads|
  {
    exists path :: Search(links.next, ids, id, links.heads[l].header, path)
  }

  ghost function Course(links: Links, ids: seq<TaskId>, l: nat, id: TaskId): seq<nat>
    requires l < |links.heads| && Stops(links, ids, l, id)
  {
    var path :| Search(links.next, ids, id, links.heads[l].header, path);
    path
  }

  /** Where it stops: at the task, or at the end of the links. */
  ghost function Found(links: Links, ids: seq<TaskId>, l: nat, id: TaskId): int
    requires l < |links.heads| && Stops(links, ids, l, id)
  {
    Reached(links.next, links.heads[l].header, Course(links, ids, l, id))
  }

  lemma CourseIs(links: Links, ids: seq<TaskId>, l: nat, id: TaskId, path: seq<nat>)
    requires l < |links.heads| && Search(links.next, ids, id, links.heads[l].header, path)
    ensures Stops(links, ids, l, id) && Course(links, ids, l, id) == path
  {
    var other := Course(links, ids, l, id);
    SearchOnce(links.next, ids, id, links.heads[l].header, path, other, |path|);
    SearchOnce(links.next, ids, id, links.heads[l].header, other, path, |other|);
    assert path[..|path|] == path && other[..|other|] == other;
  }

  // ----- the links after an operation

  /** The list that an operation searches: that of the named task's priority. */
  function ListOf(s: Sched, id: TaskId): nat
    requires Shape(s) && Searchable(s, id)
  {
    if Names(s, id) && id != s.ids[s.running] then s.flags[id.slot].priority else WAIT
  }

  /** There is a task to be searched for. */
  predicate Searches(s: Sched, id: TaskId)
    requires Shape(s)
  {
    Names(s, id) && id != s.ids[s.running]
  }

  ghost predicate Ready(m: Machine) {
    Shape(m.s) && |m.links.heads| == LEVELS + 1
  }

  /** The operation can be carried out: there is a list to search, and the search comes to an end. */
  ghost predicate SearchEnds(m: Machine, id: TaskId)
    requires Ready(m)
  {
    Searchable(m.s, id) && (Searches(m.s, id) ==> Stops(m.links, m.s.ids, ListOf(m.s, id), id))
  }

  ghost predicate LinkEnabled(m: Machine, op: Op)
    requires Ready(m)
  {
    && Enabled(m.s, op)
    && (op.OpChangePriority? ==> SearchEnds(m, op.id))
    && (op.OpEnd? ==> SearchEnds(m, op.endId))
  }

  /** The task is not on the list of its priority, and the search finds it all the same, behind the tail. */
  ghost predicate Strays(m: Machine, id: TaskId)
    requires Ready(m) && SearchEnds(m, id)
  {
    Searches(m.s, id) && !Listed(m.s, id) && Found(m.links, m.s.ids, ListOf(m.s, id), id) != NULL
  }

  ghost predicate FindsBehind(m: Machine, op: Op)
    requires Ready(m) && LinkEnabled(m, op)
  {
    match op
    case OpChangePriority(id, p) => p <= LEVELS && Strays(m, id)
    case OpEnd(id) => Strays(m, id)
    case _ => false
  }

  function AddedReady(links: Links, p: nat, t: nat): Links
    requires |links.heads| == LEVELS + 1
  {
    if p >= LEVELS then links else Added(links, p, t)
  }

  /** The links after the search, without the node at which it has stopped. */
  ghost function Searched(m: Machine, id: TaskId): Links
    requires Ready(m) && SearchEnds(m, id) && Searches(m.s, id)
  {
    var l := ListOf(m.s, id);
    Removed(m.links, l, Course(m.links, m.s.ids, l, id), Found(m.links, m.s.ids, l, id))
  }

  ghost predicate Finds(m: Machine, id: TaskId)
    requires Ready(m) && SearchEnds(m, id)
  {
    Searches(m.s, id) && Found(m.links, m.s.ids, ListOf(m.s, id), id) != NULL
  }

  ghost function ChangeLinks(m: Machine, id: TaskId, p: nat): Links
    requires Ready(m) && SearchEnds(m, id)
  {
    if p <= LEVELS && Finds(m, id) then AddedReady(Searched(m, id), p, id.slot) else m.links
  }

  ghost function EndLinks(m: Machine, id: TaskId): Links
    requires Ready(m) && SearchEnds(m, id)
  {
    if id == m.s.ids[m.s.running] then ScheduleLinks(Machine(Ended(m.s, m.s.running), m.links))
    else if Finds(m, id) then Added(Searched(m, id), WAIT, id.slot)
    else m.links
  }

  function HeadRemoved(links: Links, l: nat): Links
    requires l < |links.heads|
  {
    Removed(links, l, [], links.heads[l].header)
  }

  function SwitchLinks(m: Machine): Links
    requires Sized(m.s) && |m.links.heads| == LEVELS + 1
  {
    var p := NextLevel(m.s.lists, m.s.executed);
    if p == LEVELS then m.links else PutBackLinks(HeadRemoved(m.links, p), m.s.flags[m.s.running], m.s.running)
  }

  function PutBackLinks(links: Links, f: Flags, t: nat): Links
    requires |links.heads| == LEVELS + 1
  {
    if f.ended then Added(links, WAIT, t) else AddedReady(links, f.priority, t)
  }

  function ScheduleLinks(m: Machine): Links
    requires Sized(m.s) && |m.links.heads| == LEVELS + 1
  {
    if NoneReady(m.s.lists) then m.links else SwitchLinks(m)
  }

  function CreateLinks(m: Machine, flags: Flags): Links
    requires Ready(m)
  {
    if CreateFails(m.s) then m.links else AddedReady(m.links, flags.priority, FreeSlot(m.s.ids, 0))
  }

  function ReapLinks(m: Machine): Links
    requires Ready(m)
  {
    if m.s.lists[WAIT] == [] then m.links else HeadRemoved(m.links, WAIT)
  }

  ghost function LinksAfter(m: Machine, op: Op): Links
    requires Ready(m) && LinkEnabled(m, op)
  {
    match op
    case OpCreate(flags) => CreateLinks(m, flags)
    case OpSchedule => ScheduleLinks(m)
    case OpInterrupt => SwitchLinks(m)
    case OpChangePriority(id, p) => ChangeLinks(m, id, p)
    case OpEnd(id) => EndLinks(m, id)
    case OpReap => ReapLinks(m)
  }

  /** What else the operation changes when it finds its task behind a tail: the flags, as always. */
  function StrayStep(s: Sched, op: Op): Sched
    requires Shape(s)
  {
    match op
    case OpChangePriority(id, p) => if id.slot < MAXCOUNT then WithPriority(s, id.slot, p) else s
    case OpEnd(id) => if id.slot < MAXCOUNT then Ended(s, id.slot) else s
    case _ => s
  }

  ghost function LinkStep(m: Machine, op: Op): Machine
    requires Ready(m) && LinkEnabled(m, op)
  {
    Machine(if FindsBehind(m, op) then StrayStep(m.s, op) else Step(m.s, op), LinksAfter(m, op))
  }

  // ----- what the search finds

  /** The links show the lists, and no task is in two places. */
  ghost predicate Sound(m: Machine, spots: Spots) {
    Held(m.s, spots) && Shows(m.links, m.s.lists)
  }

  /** A task that is on the list is found there, after the items before it. */
  lemma ListedFound(m: Machine, spots: Spots, id: TaskId)
    requires Sound(m, spots) && Listed(m.s, id)
    ensures var l := ListOf(m.s, id); var k := IndexOf(m.s.lists[l], id.slot);
            && k < |m.s.lists[l]| && Stops(m.links, m.s.ids, l, id)
            && Course(m.links, m.s.ids, l, id) == m.s.lists[l][..k] && Found(m.links, m.s.ids, l, id) == id.slot
  {
    var l := ListOf(m.s, id);
    var items := m.s.lists[l];
    var k := IndexOf(items, id.slot);
    assert ShowsList(m.links, l, items);
    var header := m.links.heads[l].header;
    forall i | 0 <= i < k ensures Passed(m.links.next, m.s.ids, id, header, items[..k], i) {
      assert items[..k][..i] == items[..i];
      assert i > 0 ==> LinkedLists.Linked(m.links.next, items, i - 1);
    }
    assert k > 0 ==> LinkedLists.Linked(m.links.next, items, k - 1);
    CourseIs(m.links, m.s.ids, l, id, items[..k]);
  }

  /** A task that is not on the list is found behind its tail, or not at all. */
  lemma UnlistedFound(m: Machine, spots: Spots, id: TaskId)
    requires Sound(m, spots) && SearchEnds(m, id) && Searches(m.s, id) && !Listed(m.s, id)
    ensures var l := ListOf(m.s, id);
            && l <= WAIT && id.slot !in m.s.lists[l]
            && Found(m.links, m.s.ids, l, id) in {NULL, id.slot}
            && (Found(m.links, m.s.ids, l, id) != NULL ==> |m.s.lists[l]| <= |Course(m.links, m.s.ids, l, id)|)
  {
    var l := ListOf(m.s, id);
    var path := Course(m.links, m.s.ids, l, id);
    assert ShowsList(m.links, l, m.s.lists[l]);
    RemoveKeepsListIff(m.links.next, m.s.ids, id, m.links.heads[l], m.s.lists[l], path);
    var stop := Found(m.links, m.s.ids, l, id);
    assert stop != NULL ==> m.s.ids[stop].slot == stop;
  }

  /** `Finds` says of the links what `Listed` says of the lists, unless the task is found behind the tail. */
  lemma FindsIff(m: Machine, spots: Spots, id: TaskId)
    requires Sound(m, spots) && SearchEnds(m, id)
    ensures Finds(m, id) <==> Listed(m.s, id) || Strays(m, id)
    ensures Listed(m.s, id) ==> !Strays(m, id)
  {
    if Listed(m.s, id) {
      ListedFound(m, spots, id);
    }
  }

  /** The course of the search: up to the task on the list, or over all of the list. */
  lemma CourseMeets(m: Machine, spots: Spots, id: TaskId)
    requires Sound(m, spots) && SearchEnds(m, id) && Searches(m.s, id)
    ensures var l := ListOf(m.s, id); var path := Course(m.links, m.s.ids, l, id);
            && l <= WAIT && Search(m.links.next, m.s.ids, id, m.links.heads[l].header, path)
            && Found(m.links, m.s.ids, l, id) in {NULL, id.slot} && (Finds(m, id) <==> Listed(m.s, id) || Strays(m, id))
            && (if Listed(m.s, id) then !Strays(m, id) && |path| < |m.s.lists[l]| && m.s.lists[l][|path|] == id.slot
                                        && |path| == IndexOf(m.s.lists[l], id.slot)
                else |path| >= |m.s.lists[l]|)
  {
    FindsIff(m, spots, id);
    var l := ListOf(m.s, id);
    assert ShowsList(m.links, l, m.s.lists[l]);
    if Listed(m.s, id) {
      ListedFound(m, spots, id);
    } else {
      UnlistedFound(m, spots, id);
      RemoveKeepsListIff(m.links.next, m.s.ids, id, m.links.heads[l], m.s.lists[l], Course(m.links, m.s.ids, l, id));
    }
  }

  // ----- operations that find nothing behind a tail

  lemma HeadRemovedShows(links: Links, lists: seq<seq<nat>>, spots: Spots, l: nat)
    requires Shows(links, lists) && Listing(lists, spots) && l < |lists| && lists[l] != []
    ensures Shows(HeadRemoved(links, l), Drop(lists, l, 0))
  {
    assert ShowsList(links, l, lists[l]);
    assert lists[l][..0] == [];
    RemovedShows(links, lists, spots, l, 0);
  }

  lemma SearchedShows(m: Machine, spots: Spots, id: TaskId)
    requires Sound(m, spots) && SearchEnds(m, id) && Listed(m.s, id)
    ensures Shows(Searched(m, id), TakeFromList(m.s, id.slot).lists)
  {
    ListedFound(m, spots, id);
    var l := ListOf(m.s, id);
    RemovedShows(m.links, m.s.lists, spots, l, IndexOf(m.s.lists[l], id.slot));
  }

  lemma AddedReadyShows(links: Links, s: Sched, spots: Spots, t: nat)
    requires Shows(links, s.lists) && Held(s, spots) && t < MAXCOUNT && t !in spots
    ensures Shows(AddedReady(links, s.flags[t].priority, t), AddToReadyList(s, t).lists)
  {
    if s.flags[t].priority < LEVELS {
      AddedShows(links, s.lists, spots, s.flags[t].priority, t);
    }
  }

  lemma CreateShows(m: Machine, spots: Spots, flags: Flags)
    requires Sound(m, spots)
    ensures Shows(CreateLinks(m, flags), Create(m.s, flags).lists)
  {
    CreateHeld(m.s, spots, flags);
    if !CreateFails(m.s) {
      var t := FreeSlot(m.s.ids, 0);
      TakeSlotHeld(m.s, spots, t);
      var s1 := TakeSlot(m.s, t);
      AddedReadyShows(m.links, NewTask(s1, t, ProcessOf(s1, m.s.running).value, flags), spots, t);
    }
  }

  lemma SwitchShows(m: Machine, spots: Spots)
    requires Sound(m, spots)
    ensures Shows(SwitchLinks(m), Switch(m.s).lists)
  {
    var p := NextLevel(m.s.lists, m.s.executed);
    NoneFoundIffNoneReady(m.s.lists, m.s.executed);
    if p < LEVELS {
      ResumeHeld(m.s, spots, p);
      HeadRemovedShows(m.links, m.s.lists, spots, p);
      var s1, spots1, t := Resume(m.s, p), DropSpot(spots, p, 0), m.s.running;
      if m.s.flags[t].ended {
        AddedShows(HeadRemoved(m.links, p), s1.lists, spots1, WAIT, t);
      } else {
        AddedReadyShows(HeadRemoved(m.links, p), s1, spots1, t);
      }
    }
  }

  lemma ChangeShows(m: Machine, spots: Spots, id: TaskId, p: nat)
    requires Sound(m, spots) && SearchEnds(m, id) && (p <= LEVELS ==> !Strays(m, id))
    ensures Shows(ChangeLinks(m, id, p), ChangePriority(m.s, id, p).lists)
  {
    FindsIff(m, spots, id);
    if p <= LEVELS && Listed(m.s, id) {
      var t, l := id.slot, m.s.flags[id.slot].priority;
      SearchedShows(m, spots, id);
      TakenHeld(m.s, spots, t, l, IndexOf(m.s.lists[l], t));
      AddedReadyShows(Searched(m, id), WithPriority(TakeFromList(m.s, t), t, p), TakenSpots(m.s, spots, t), t);
    }
  }

  lemma EndShows(m: Machine, spots: Spots, id: TaskId)
    requires Sound(m, spots) && SearchEnds(m, id) && !Strays(m, id)
    ensures Shows(EndLinks(m, id), End(m.s, id).lists)
  {
    FindsIff(m, spots, id);
    if id == m.s.ids[m.s.running] {
      SetFlagsHeld(m.s, spots, m.s.running, Ended(m.s, m.s.running).flags[m.s.running]);
      SwitchShows(Machine(Ended(m.s, m.s.running), m.links), spots);
    } else if Listed(m.s, id) {
      var t, l := id.slot, m.s.flags[id.slot].priority;
      SearchedShows(m, spots, id);
      TakenHeld(m.s, spots, t, l, IndexOf(m.s.lists[l], t));
      AddedShows(Searched(m, id), TakeFromList(m.s, t).lists, TakenSpots(m.s, spots, t), WAIT, t);
    }
  }

  lemma StepSound(m: Machine, spots: Spots, op: Op)
    requires Sound(m, spots) && LinkEnabled(m, op) && !FindsBehind(m, op)
    ensures Sound(LinkStep(m, op), StepSpots(m.s, spots, op)) && LinkStep(m, op).s == Step(m.s, op)
  {
    ListsHeld(m.s, spots, op);
    match op
    case OpCreate(flags) => CreateShows(m, spots, flags);
    case OpSchedule => SwitchShows(m, spots);
    case OpInterrupt => SwitchShows(m, spots);
    case OpChangePriority(id, p) => ChangeShows(m, spots, id, p);
    case OpEnd(id) => EndShows(m, spots, id);
    case OpReap =>
      if m.s.lists[WAIT] != [] {
        HeadRemovedShows(m.links, m.s.lists, spots, WAIT);
      }
  }

  // ----- operations that find a task behind a tail

  lemma StrayCourse(m: Machine, spots: Spots, id: TaskId)
    requires Sound(m, spots) && SearchEnds(m, id) && Strays(m, id)
    ensures var l := ListOf(m.s, id); var links' := Searched(m, id);
            && l <= WAIT && id.slot < MAXCOUNT && id.slot !in m.s.lists[l] && m.s.lists[l] != []
            && |links'.next| == MAXCOUNT
            && Found(m.links, m.s.ids, l, id) == id.slot
            && Segment(links'.next, links'.heads[l].header, links'.heads[l].tail, m.s.lists[l])
            && links'.heads == m.links.heads[l := m.links.heads[l].(count := |m.s.lists[l]| - 1)]
  {
    UnlistedFound(m, spots, id);
    var l := ListOf(m.s, id);
    assert ShowsList(m.links, l, m.s.lists[l]);
    ForeignNodeKeepsItems(m.links.next, m.s.ids, id, m.links.heads[l], m.s.lists[l], Course(m.links, m.s.ids, l, id));
  }

  /** One node too many for the count, also when the node that was found is appended, to this list or another one. */
  lemma StrayBreaks(links: Links, lists: seq<seq<nat>>, spots: Spots, l: nat, p: nat, t: nat)
    requires |lists| == |links.heads| == LEVELS + 1 && Listing(lists, spots) && l < |lists| && p < |lists|
    requires Segment(links.next, links.heads[l].header, links.heads[l].tail, lists[l])
    requires links.heads[l].count == |lists[l]| - 1 >= 0 && t < |links.next| && t !in lists[l]
    requires links.heads[p].header != NULL ==> links.heads[p].tail in lists[p]
    ensures !IsList(links.next, links.heads[l])
    ensures !IsList(Added(links, p, t).next, Added(links, p, t).heads[l])
  {
    var links' := Added(links, p, t);
    var a, a' := links.heads[l], links'.heads[l];
    CountMustFit(links.next, a, lists[l]);
    if p == l {
      AddToTailIff(links.next, a.(count := |lists[l]|), lists[l], t);
      CountMustFit(links'.next, a', lists[l] + [t]);
    } else {
      var tail := links.heads[p].tail;
      if links.heads[p].header != NULL {
        InOneList(lists, spots, p, tail);
        if tail in lists[l] {
          InOneList(lists, spots, l, tail);
        }
      }
      SegmentFrame(links.next, links'.next, a.header, a.tail, lists[l]);
      CountMustFit(links'.next, a', lists[l]);
    }
  }

  lemma TailIsItem(links: Links, lists: seq<seq<nat>>, p: nat)
    requires Shows(links, lists) && p < |lists|
    ensures links.heads[p].header != NULL ==> links.heads[p].tail in lists[p]
  {
    assert ShowsList(links, p, lists[p]);
  }

  /** An operation that finds a task behind the tail of a list leaves a head that fits no list at all. */
  lemma BehindBreaks(m: Machine, spots: Spots, op: Op, id: TaskId)
    requires Sound(m, spots) && LinkEnabled(m, op) && FindsBehind(m, op)
    requires id == if op.OpEnd? then op.endId else op.id
    ensures var l := ListOf(m.s, id); l <= WAIT && !IsList(LinksAfter(m, op).next, LinksAfter(m, op).heads[l])
  {
    StrayCourse(m, spots, id);
    FindsIff(m, spots, id);
    var l, p := ListOf(m.s, id), if op.OpEnd? || op.priority >= LEVELS then WAIT else op.priority;
    TailIsItem(m.links, m.s.lists, p);
    StrayBreaks(Searched(m, id), m.s.lists, spots, l, p, id.slot);
  }

  // ----- each operation

  ghost predicate IsSound(m: Machine) {
    exists spots :: Sound(m, spots)
  }

  /** The links show lists in which no task is in two places, and only live tasks are anywhere. */
  ghost predicate IsHeld(m: Machine) {
    exists lists, spots :: Shows(m.links, lists) && Held(m.s.(lists := lists), spots)
  }

  /** The links show lists in which every task is in its place. */
  ghost predicate AllPlaced(m: Machine) {
    exists lists, spots :: Shows(m.links, lists) && Placed(m.s.(lists := lists), spots)
  }

  lemma BehindIsNotHeld(m: Machine, spots: Spots, op: Op)
    requires Sound(m, spots) && LinkEnabled(m, op) && FindsBehind(m, op)
    ensures !IsHeld(LinkStep(m, op)) && !AllPlaced(LinkStep(m, op)) && !IsSound(LinkStep(m, op))
  {
    var id := if op.OpEnd? then op.endId else op.id;
    BehindBreaks(m, spots, op, id);
    forall lists ensures !Shows(LinksAfter(m, op), lists) {
      ShowsAreLists(LinksAfter(m, op), lists, ListOf(m.s, id));
    }
  }

  lemma ShowsAreLists(links: Links, lists: seq<seq<nat>>, l: nat)
    requires l < |links.heads|
    ensures Shows(links, lists) ==> IsList(links.next, links.heads[l])
  {
    assert Shows(links, lists) ==> ShowsList(links, l, lists[l]);
  }

  /** An operation keeps the tasks apart exactly if it does not find its task behind the tail of a list. */
  lemma StepHeldIff(m: Machine, op: Op)
    requires IsSound(m) && LinkEnabled(m, op)
    ensures IsHeld(LinkStep(m, op)) <==> !FindsBehind(m, op)
    ensures IsSound(LinkStep(m, op)) <==> !FindsBehind(m, op)
  {
    var spots :| Sound(m, spots);
    if FindsBehind(m, op) {
      BehindIsNotHeld(m, spots, op);
    } else {
      StepSound(m, spots, op);
      var s' := LinkStep(m, op).s;
      assert s'.(lists := s'.lists) == s';
    }
  }

  /**
   With every task in its place, an operation keeps it so exactly if `Keeps` holds and its task is not found behind
   the tail of a list.
   */
  lemma StepPlacedIff(m: Machine, op: Op)
    requires IsSound(m) && IsPlaced(m.s) && LinkEnabled(m, op)
    ensures AllPlaced(LinkStep(m, op)) <==> Keeps(m.s, op) && !FindsBehind(m, op)
    ensures AllPlaced(LinkStep(m, op)) ==> IsPlaced(LinkStep(m, op).s)
  {
    var spots :| Sound(m, spots);
    if FindsBehind(m, op) {
      BehindIsNotHeld(m, spots, op);
    } else {
      StepSound(m, spots, op);
      ListsPlacedIff(m.s, op);
      PlacedAsShown(LinkStep(m, op));
    }
  }

  lemma PlacedAsShown(m: Machine)
    requires Shows(m.links, m.s.lists)
    ensures AllPlaced(m) <==> IsPlaced(m.s)
  {
    assert m.s.(lists := m.s.lists) == m.s;
    if AllPlaced(m) {
      var lists, spots :| Shows(m.links, lists) && Placed(m.s.(lists := lists), spots);
      ShowsOnce(m.links, lists, m.s.lists);
    }
  }

  // ----- the flags

  /**
   Whatever the search finds, the priority of the task in the named slot is the one asked for, and no other flag
   changes.
   */
  lemma ChangeSetsPriority(m: Machine, spots: Spots, id: TaskId, p: nat)
    requires Sound(m, spots) && SearchEnds(m, id)
    ensures LinkEnabled(m, OpChangePriority(id, p))
    ensures var s' := LinkStep(m, OpChangePriority(id, p)).s;
            && SamePool(m.s, s') && s'.running == m.s.running && s'.executed == m.s.executed
            && if p <= LEVELS && id.slot < MAXCOUNT then OnlyPriority(m.s, s', id.slot, p) else s'.flags == m.s.flags
  {
    ChangeMeans(m.s, spots, id, p);
  }

  /** Whatever the search finds, the task in the named slot is marked, and no other flag changes. */
  lemma EndSetsMark(m: Machine, spots: Spots, id: TaskId)
    requires Sound(m, spots) && SearchEnds(m, id)
    ensures LinkEnabled(m, OpEnd(id))
    ensures var s' := LinkStep(m, OpEnd(id)).s;
            && SamePool(m.s, s')
            && if id.slot < MAXCOUNT then OnlyMarked(m.s, s', id.slot) else s'.flags == m.s.flags
  {
    EndMeans(m.s, spots, id);
  }

  // ----- lost tasks

  /** The task is between the header of the list and its tail. */
  ghost predicate OnList(links: Links, l: nat, t: nat)
    requires l < |links.heads|
  {
    exists items :: Segment(links.next, links.heads[l].header, links.heads[l].tail, items) && t in items
  }

  /** A live task that neither runs nor is on any list. */
  ghost predicate LostAt(m: Machine, t: nat) {
    Live(m.s.ids, t) && t != m.s.running && forall l :: 0 <= l < |m.links.heads| ==> !OnList(m.links, l, t)
  }

  lemma OnListIff(links: Links, l: nat, items: seq<nat>, t: nat)
    requires l < |links.heads| && Segment(links.next, links.heads[l].header, links.heads[l].tail, items)
    ensures OnList(links, l, t) <==> t in items
  {
    if OnList(links, l, t) {
      var other :| Segment(links.next, links.heads[l].header, links.heads[l].tail, other) && t in other;
      SegmentOnce(links.next, links.heads[l].header, links.heads[l].tail, items, other);
    }
  }

  lemma LostIff(m: Machine, t: nat)
    requires Shows(m.links, m.s.lists)
    ensures LostAt(m, t) <==> Lost(m.s, t)
  {
    forall l: nat | l < |m.s.lists| ensures OnList(m.links, l, t) <==> t in m.s.lists[l] {
      assert ShowsList(m.links, l, m.s.lists[l]);
      OnListIff(m.links, l, m.s.lists[l], t);
    }
  }

  /** Unlinking a lost task that is found behind a tail changes the items of no list. */
  lemma StrayKeepsItems(m: Machine, spots: Spots, id: TaskId, i: nat)
    requires Sound(m, spots) && SearchEnds(m, id) && Strays(m, id) && Lost(m.s, id.slot) && i < |m.s.lists|
    ensures var links' := Searched(m, id);
            i < |links'.heads|
            && Segment(links'.next, links'.heads[i].header, links'.heads[i].tail, m.s.lists[i])
  {
    StrayCourse(m, spots, id);
    var l, items := ListOf(m.s, id), m.s.lists[i];
    var path, links' := Course(m.links, m.s.ids, l, id), Searched(m, id);
    if i != l {
      assert ShowsList(m.links, i, items);
      forall j | 0 <= j < |items| - 1 ensures LinkedLists.Linked(links'.next, items, j) {
        assert LinkedLists.Linked(m.links.next, items, j);
        assert items[j + 1] in items;
      }
    }
  }

  /** The operation finds this task behind the tail of a list, and puts it on one. */
  ghost predicate Revives(m: Machine, op: Op, t: nat)
    requires Ready(m) && LinkEnabled(m, op)
  {
    && FindsBehind(m, op)
    && (op.OpChangePriority? ==> op.id.slot == t && op.priority < LEVELS)
    && (op.OpEnd? ==> op.endId.slot == t)
  }

  ghost predicate FindsOther(m: Machine, op: Op, t: nat)
    requires Ready(m) && LinkEnabled(m, op)
  {
    FindsBehind(m, op) && (if op.OpEnd? then op.endId else op.id).slot != t
  }

  /** A lost task comes back exactly if it is found behind the tail of a list and put on one. */
  lemma LostUnlessRevived(m: Machine, spots: Spots, op: Op, t: nat)
    requires Sound(m, spots) && LinkEnabled(m, op) && Lost(m.s, t) && !FindsOther(m, op, t)
    ensures LostAt(LinkStep(m, op), t) <==> !Revives(m, op, t)
    ensures t < |m.s.ids| && t < |LinkStep(m, op).s.ids| && LinkStep(m, op).s.ids[t] == m.s.ids[t]
  {
    if !FindsBehind(m, op) {
      StepSound(m, spots, op);
      ListsLeaveLost(m.s, op, t);
      LostIff(LinkStep(m, op), t);
    } else {
      var id := if op.OpEnd? then op.endId else op.id;
      FindsIff(m, spots, id);
      StrayCourse(m, spots, id);
      forall i: nat | i < |m.s.lists| ensures !OnList(Searched(m, id), i, t) {
        StrayKeepsItems(m, spots, id, i);
        OnListIff(Searched(m, id), i, m.s.lists[i], t);
      }
      if Revives(m, op, t) {
        StrayAdded(m, spots, id, if op.OpEnd? then WAIT else op.priority);
      }
    }
  }

  lemma StrayAdded(m: Machine, spots: Spots, id: TaskId, p: nat)
    requires Sound(m, spots) && SearchEnds(m, id) && Strays(m, id) && Lost(m.s, id.slot) && p <= WAIT
    ensures OnList(Added(Searched(m, id), p, id.slot), p, id.slot)
  {
    StrayCourse(m, spots, id);
    StrayKeepsItems(m, spots, id, p);
    var links1, items := Searched(m, id), m.s.lists[p];
    AddToTailIff(links1.next, links1.heads[p].(count := |items|), items, id.slot);
    assert id.slot in items + [id.slot];
  }
}
