/**
 The scheduler's state as a value, with the lists as sequences of tasks, and each of its operations as a function.
 Lists 0 to 4 are the ready lists and list 5, right behind them, is the wait list. A search for a task that is not
 on the list of its priority finds nothing here; what it finds among the links is said in `TaskLinks`.
 */
module Scheduling {
  import opened Words
  import opened LinkedLists

  const MAXCOUNT: nat := 1024
  const LEVELS: nat := 5
  const WAIT: nat := 5
  const WAIT_PRIORITY: nat := 0xff
  const SERIALS: nat := DWORD

  /** The upper and the lower half of a 64-bit identity. */
  datatype TaskId = TaskId(serial: nat, slot: nat)

  /** The identity as the one number that the source stores. */
  function Packed(id: TaskId): nat {
    id.serial * SERIALS + id.slot
  }

  lemma PackedHalves(id: TaskId)
    requires id.slot < SERIALS
    ensures Packed(id) % SERIALS == id.slot && Packed(id) / SERIALS == id.serial
    ensures id.serial < SERIALS ==> Packed(id) < SERIALS * SERIALS
  {
    if id.serial < SERIALS {
      assert id.serial * SERIALS <= (SERIALS - 1) * SERIALS;
    }
  }

  lemma PackedOnce(a: TaskId, b: TaskId)
    requires a.slot < SERIALS && b.slot < SERIALS
    ensures Packed(a) == Packed(b) <==> a == b
  {
    PackedHalves(a);
    PackedHalves(b);
  }

  datatype Flags = Flags(priority: nat, ended: bool, process: bool)

  datatype Sched = Sched(ids: seq<TaskId>, flags: seq<Flags>, parents: seq<TaskId>, lists: seq<seq<nat>>,
                         executed: seq<nat>, running: nat, used: nat, serial: nat)

  /** The position of a listed task. */
  datatype Spot = Spot(list: nat, position: nat)

  type Spots = map<nat, Spot>

  datatype Option<T> = None | Some(value: T)

  // ----- the pool of task control blocks

  /** A free control block has the serial number 0. */
  function FreeId(slot: nat): TaskId { TaskId(0, slot) }

  /** The serial number after this one: 32 bits wide, and never 0. */
  function NextSerial(serial: nat): nat {
    if serial == SERIALS - 1 then 1 else serial + 1
  }

  predicate Live(ids: seq<TaskId>, t: nat) {
    t < |ids| && ids[t].serial != 0
  }

  function LiveTasks(ids: seq<TaskId>): set<nat> {
    set t | 0 <= t < |ids| && Live(ids, t)
  }

  /** The first slot from `i` on that is not in use. */
  function FreeSlot(ids: seq<TaskId>, i: nat): (r: nat)
    requires i <= |ids|
    ensures i <= r <= |ids|
    ensures forall k :: i <= k < r ==> Live(ids, k)
    ensures r < |ids| ==> !Live(ids, r)
    decreases |ids| - i
  {
    if i == |ids| || !Live(ids, i) then i else FreeSlot(ids, i + 1)
  }

  ghost predicate PoolValid(s: Sched) {
    && |s.ids| == |s.flags| == |s.parents| == MAXCOUNT
    && (forall t :: 0 <= t < MAXCOUNT ==> s.ids[t].slot == t)
    && (forall t :: 0 <= t < MAXCOUNT ==> s.parents[t].slot < MAXCOUNT)
    && 0 < s.serial < SERIALS
    && s.used == |LiveTasks(s.ids)|
  }

  ghost predicate Sized(s: Sched) {
    |s.lists| == LEVELS + 1 && |s.executed| == LEVELS && s.running < |s.flags|
  }

  ghost predicate Shape(s: Sched) {
    && PoolValid(s)
    && Sized(s)
    && Live(s.ids, s.running)
  }

  lemma LiveBound(ids: seq<TaskId>)
    ensures |LiveTasks(ids)| <= |ids|
    ensures |LiveTasks(ids)| == |ids| <==> forall t :: 0 <= t < |ids| ==> Live(ids, t)
  {
    var all := Below(|ids|);
    CardinalityAtMost(LiveTasks(ids), all);
    if |LiveTasks(ids)| == |ids| {
      assert LiveTasks(ids) == all;
      forall t | 0 <= t < |ids| ensures Live(ids, t) {
        assert t in all;
      }
    }
    if forall t :: 0 <= t < |ids| ==> Live(ids, t) {
      AllLive(ids);
    }
  }

  lemma AllLive(ids: seq<TaskId>)
    requires forall t :: 0 <= t < |ids| ==> Live(ids, t)
    ensures |LiveTasks(ids)| == |ids|
  {
    assert LiveTasks(ids) == Below(|ids|);
  }

  function Below(n: nat): (s: set<nat>)
    ensures |s| == n && forall t :: t in s <==> 0 <= t < n
  {
    if n == 0 then {} else Below(n - 1) + {n - 1}
  }

  lemma CardinalityAtMost<T>(a: set<T>, b: set<T>)
    requires a <= b
    ensures |a| <= |b| && (|a| == |b| ==> a == b)
  {
    assert |b - a| == |b| - |a|;
    if |a| == |b| {
      assert b - a == {};
    }
  }

  lemma SlotTaken(ids: seq<TaskId>, t: nat, id: TaskId)
    requires t < |ids| && !Live(ids, t) && id.serial != 0
    ensures LiveTasks(ids[t := id]) == LiveTasks(ids) + {t}
    ensures |LiveTasks(ids[t := id])| == |LiveTasks(ids)| + 1
  {
    var ids' := ids[t := id];
    forall u ensures u in LiveTasks(ids') <==> u in LiveTasks(ids) || u == t {
      assert Live(ids', u) <==> Live(ids, u) || u == t;
    }
    assert LiveTasks(ids') == LiveTasks(ids) + {t};
  }

  lemma SlotFreed(ids: seq<TaskId>, t: nat, id: TaskId)
    requires Live(ids, t) && id.serial == 0
    ensures LiveTasks(ids[t := id]) == LiveTasks(ids) - {t}
    ensures |LiveTasks(ids[t := id])| == |LiveTasks(ids)| - 1
  {
    var ids' := ids[t := id];
    forall u ensures u in LiveTasks(ids') <==> u in LiveTasks(ids) && u != t {
      assert Live(ids', u) <==> Live(ids, u) && u != t;
    }
    assert LiveTasks(ids') == LiveTasks(ids) - {t};
  }

  // ----- positions in the lists

  ghost predicate At(lists: seq<seq<nat>>, spot: Spot, t: nat) {
    spot.list < |lists| && spot.position < |lists[spot.list]| && lists[spot.list][spot.position] == t
  }

  /** `spots` tells for each listed task its one position. */
  ghost predicate Listing(lists: seq<seq<nat>>, spots: Spots) {
    && (forall t {:trigger At(lists, spots[t], t)} :: t in spots ==> At(lists, spots[t], t))
    && (forall l, k {:trigger Spot(l, k)} {:trigger lists[l][k] in spots} :: 0 <= l < |lists| && 0 <= k < |lists[l]| ==>
          lists[l][k] in spots && spots[lists[l][k]] == Spot(l, k))
  }

  function Append(lists: seq<seq<nat>>, l: nat, t: nat): seq<seq<nat>>
    requires l < |lists|
  {
    lists[l := lists[l] + [t]]
  }

  function Drop(lists: seq<seq<nat>>, l: nat, k: nat): seq<seq<nat>>
    requires l < |lists| && k < |lists[l]|
  {
    lists[l := WithoutAt(lists[l], k)]
  }

  lemma Appended(lists: seq<seq<nat>>, spots: Spots, l: nat, t: nat)
    requires Listing(lists, spots) && l < |lists| && t !in spots
    ensures Listing(Append(lists, l, t), spots[t := Spot(l, |lists[l]|)])
  {
    var lists', spots' := Append(lists, l, t), spots[t := Spot(l, |lists[l]|)];
    forall u | u in spots' ensures At(lists', spots'[u], u) {
      if u != t {
        assert At(lists, spots[u], u);
      }
    }
  }

  function DropSpot(spots: Spots, l: nat, k: nat): Spots {
    map t | t in spots && spots[t] != Spot(l, k) ::
      if spots[t].list == l && spots[t].position > k then Spot(l, spots[t].position - 1) else spots[t]
  }

  lemma DropSpotKeys(lists: seq<seq<nat>>, spots: Spots, l: nat, k: nat)
    requires Listing(lists, spots) && l < |lists| && k < |lists[l]|
    ensures DropSpot(spots, l, k).Keys == spots.Keys - {lists[l][k]}
  {
    forall t ensures t in DropSpot(spots, l, k) <==> t in spots && t != lists[l][k] {
      if t in spots {
        assert At(lists, spots[t], t);
      }
    }
  }

  lemma Dropped(lists: seq<seq<nat>>, spots: Spots, l: nat, k: nat)
    requires Listing(lists, spots) && l < |lists| && k < |lists[l]|
    ensures Listing(Drop(lists, l, k), DropSpot(spots, l, k))
    ensures DropSpot(spots, l, k).Keys == spots.Keys - {lists[l][k]}
  {
    DropSpotKeys(lists, spots, l, k);
    var lists', spots' := Drop(lists, l, k), DropSpot(spots, l, k);
    forall t | t in spots' ensures At(lists', spots'[t], t) {
      assert At(lists, spots[t], t);
    }
    forall i, j | 0 <= i < |lists'| && 0 <= j < |lists'[i]|
      ensures lists'[i][j] in spots' && spots'[lists'[i][j]] == Spot(i, j)
    {
      DroppedEntry(lists, spots, l, k, i, j);
    }
  }

  lemma DroppedEntry(lists: seq<seq<nat>>, spots: Spots, l: nat, k: nat, i: nat, j: nat)
    requires Listing(lists, spots) && l < |lists| && k < |lists[l]|
    requires i < |lists| && j < |Drop(lists, l, k)[i]|
    ensures var t := Drop(lists, l, k)[i][j]; t in DropSpot(spots, l, k) && DropSpot(spots, l, k)[t] == Spot(i, j)
  {
    var j0 := if i == l && j >= k then j + 1 else j;
    var t := lists[i][j0];
    assert t in spots && spots[t] == Spot(i, j0);
    assert Drop(lists, l, k)[i][j] == t;
  }

  function IndexOf(items: seq<nat>, t: nat): (k: nat)
    ensures k <= |items| && (k < |items| ==> items[k] == t)
    ensures forall i :: 0 <= i < k ==> items[i] != t
    ensures t in items <==> k < |items|
  {
    if items == [] || items[0] == t then 0 else 1 + IndexOf(items[1..], t)
  }

  // ----- the operations

  function Enqueue(s: Sched, l: nat, t: nat): Sched
    requires l < |s.lists|
  {
    s.(lists := Append(s.lists, l, t))
  }

  /** A task of a priority without a ready list is not added anywhere. */
  function AddToReadyList(s: Sched, t: nat): Sched
    requires t < |s.flags| && |s.lists| > LEVELS
  {
    if s.flags[t].priority >= LEVELS then s else Enqueue(s, s.flags[t].priority, t)
  }

  /** The least level from `i` on whose lists have not had their share yet; `LEVELS` if none. */
  function Eligible(lists: seq<seq<nat>>, executed: seq<nat>, i: nat): (p: nat)
    requires i <= LEVELS <= |lists| && |executed| == LEVELS
    ensures i <= p <= LEVELS
    decreases LEVELS - i
  {
    if i == LEVELS || executed[i] < |lists[i]| then i else Eligible(lists, executed, i + 1)
  }

  lemma {:induction false} EligibleIsLeast(lists: seq<seq<nat>>, executed: seq<nat>, i: nat)
    requires i <= LEVELS <= |lists| && |executed| == LEVELS
    ensures forall j :: i <= j < Eligible(lists, executed, i) ==> executed[j] >= |lists[j]|
    ensures var p := Eligible(lists, executed, i); p < LEVELS ==> executed[p] < |lists[p]|
    decreases LEVELS - i
  {
    if i < LEVELS && executed[i] >= |lists[i]| {
      EligibleIsLeast(lists, executed, i + 1);
    }
  }

  const CLEARED: seq<nat> := [0, 0, 0, 0, 0]

  /** The level to run next, `LEVELS` if no task is ready: when all levels have had their share, all start again. */
  function NextLevel(lists: seq<seq<nat>>, executed: seq<nat>): nat
    requires LEVELS <= |lists| && |executed| == LEVELS
  {
    var p := Eligible(lists, executed, 0);
    if p < LEVELS then p else Eligible(lists, CLEARED, 0)
  }

  /** The counters after a round: cleared at the levels passed over, one up at the level picked, if any. */
  function RoundExecuted(executed: seq<nat>, p: nat): (r: seq<nat>)
    requires |executed| == LEVELS && p <= LEVELS
    ensures |r| == LEVELS
  {
    if p == LEVELS then CLEARED else CLEARED[..p] + [executed[p] + 1] + executed[p + 1..]
  }

  /** The counters after picking, in the first round or in a second one. */
  function NextExecuted(lists: seq<seq<nat>>, executed: seq<nat>): (r: seq<nat>)
    requires LEVELS <= |lists| && |executed| == LEVELS
    ensures |r| == LEVELS
  {
    var p := Eligible(lists, executed, 0);
    if p < LEVELS then RoundExecuted(executed, p) else RoundExecuted(CLEARED, Eligible(lists, CLEARED, 0))
  }

  predicate NoneReady(lists: seq<seq<nat>>)
    requires LEVELS <= |lists|
  {
    forall l :: 0 <= l < LEVELS ==> lists[l] == []
  }

  /** Two rounds over the levels find a task whenever one is ready. */
  lemma NoneFoundIffNoneReady(lists: seq<seq<nat>>, executed: seq<nat>)
    requires LEVELS <= |lists| && |executed| == LEVELS
    ensures NextLevel(lists, executed) == LEVELS <==> NoneReady(lists)
    ensures NextLevel(lists, executed) < LEVELS ==> lists[NextLevel(lists, executed)] != []
  {
    EligibleIsLeast(lists, executed, 0);
    EligibleIsLeast(lists, CLEARED, 0);
    if NextLevel(lists, executed) == LEVELS {
      forall l | 0 <= l < LEVELS ensures lists[l] == [] {
        assert CLEARED[l] >= |lists[l]|;
      }
    }
  }

  /** Runs the next task, if there is one; the task that ran goes to its ready list, or waits if it has ended. */
  function Switch(s: Sched): Sched
    requires Sized(s)
  {
    var p := NextLevel(s.lists, s.executed);
    NoneFoundIffNoneReady(s.lists, s.executed);
    if p == LEVELS then s.(executed := NextExecuted(s.lists, s.executed)) else
      PutBack(Resume(s, p), s.running)
  }

  function Resume(s: Sched, p: nat): Sched
    requires Sized(s) && p < LEVELS && s.lists[p] != []
  {
    s.(lists := Drop(s.lists, p, 0), executed := NextExecuted(s.lists, s.executed), running := s.lists[p][0])
  }

  function PutBack(s: Sched, t: nat): Sched
    requires |s.flags| > t && |s.lists| > LEVELS
  {
    if s.flags[t].ended then Enqueue(s, WAIT, t) else AddToReadyList(s, t)
  }

  /** Voluntary scheduling looks first whether any task is ready. */
  function Schedule(s: Sched): Sched
    requires Shape(s)
  {
    if NoneReady(s.lists) then s else Switch(s)
  }

  /** The process that a task belongs to: itself, or its parent while that still exists. */
  function ProcessOf(s: Sched, t: nat): Option<nat>
    requires Shape(s) && t < MAXCOUNT
  {
    if s.flags[t].process then Some(t)
    else if s.ids[s.parents[t].slot] == s.parents[t] then Some(s.parents[t].slot)
    else None
  }

  function TakeSlot(s: Sched, t: nat): Sched
    requires t < |s.ids|
  {
    s.(ids := s.ids[t := TaskId(s.serial, t)], used := s.used + 1, serial := NextSerial(s.serial))
  }

  function FreeTcb(s: Sched, t: nat): Sched
    requires t < |s.ids| && s.used > 0
  {
    s.(ids := s.ids[t := FreeId(t)], used := s.used - 1)
  }

  /** A new task, unless the pool is full or the running task's process is gone. */
  function Create(s: Sched, flags: Flags): Sched
    requires Shape(s)
  {
    if s.used == MAXCOUNT then s else
      var t := FreeSlot(s.ids, 0);
      SlotAvailable(s);
      var s1 := TakeSlot(s, t);
      match ProcessOf(s1, s.running)
      case None => FreeTcb(s1, t)
      case Some(process) =>
        AddToReadyList(s1.(parents := s1.parents[t := s1.ids[process]], flags := s1.flags[t := flags]), t)
  }

  lemma SlotAvailable(s: Sched)
    requires Shape(s) && s.used != MAXCOUNT
    ensures FreeSlot(s.ids, 0) < MAXCOUNT
    ensures Shape(TakeSlot(s, FreeSlot(s.ids, 0)))
  {
    LiveBound(s.ids);
    var t := FreeSlot(s.ids, 0);
    SlotTaken(s.ids, t, TaskId(s.serial, t));
  }

  lemma SomeUsed(s: Sched)
    requires Shape(s)
    ensures s.used > 0
  {
    assert s.running in LiveTasks(s.ids);
  }

  function SetFlags(s: Sched, t: nat, f: Flags): Sched
    requires t < |s.flags|
  {
    s.(flags := s.flags[t := f])
  }

  function WithPriority(s: Sched, t: nat, p: nat): Sched
    requires t < |s.flags|
  {
    SetFlags(s, t, s.flags[t].(priority := p))
  }

  function Ended(s: Sched, t: nat): Sched
    requires t < |s.flags|
  {
    SetFlags(s, t, s.flags[t].(ended := true, priority := WAIT_PRIORITY))
  }

  /** The two offsets that pass for control blocks though none is there: just behind the pool, and minus one. */
  predicate OutsidePool(slot: nat) {
    slot == MAXCOUNT || slot == SERIALS - 1
  }

  predicate Names(s: Sched, id: TaskId)
    requires |s.ids| == MAXCOUNT
  {
    id.slot < MAXCOUNT && s.ids[id.slot] == id
  }

  /** The task that the identity names is in the list of its priority; list 5 is the wait list. */
  predicate Listed(s: Sched, id: TaskId)
    requires Shape(s)
  {
    && Names(s, id) && id != s.ids[s.running]
    && s.flags[id.slot].priority <= WAIT && id.slot in s.lists[s.flags[id.slot].priority]
  }

  /**
   There is a list to search for the task that the identity names. A priority above 5 has none, and the search
   would take its list from behind the scheduler's.
   */
  predicate Searchable(s: Sched, id: TaskId)
    requires Shape(s)
  {
    Names(s, id) && id != s.ids[s.running] ==> s.flags[id.slot].priority <= WAIT
  }

  function TakeFromList(s: Sched, t: nat): Sched
    requires Shape(s) && t < MAXCOUNT && s.flags[t].priority <= WAIT && t in s.lists[s.flags[t].priority]
  {
    var l := s.flags[t].priority;
    s.(lists := Drop(s.lists, l, IndexOf(s.lists[l], t)))
  }

  /** Without a task to take from a list, the priority of whatever task has the identity's slot is changed. */
  function ChangePriority(s: Sched, id: TaskId, p: nat): Sched
    requires Shape(s) && Searchable(s, id)
  {
    if p > LEVELS then s
    else if id == s.ids[s.running] then WithPriority(s, s.running, p)
    else if Listed(s, id) then AddToReadyList(WithPriority(TakeFromList(s, id.slot), id.slot, p), id.slot)
    else if id.slot < MAXCOUNT then WithPriority(s, id.slot, p)
    else s
  }

  /** Likewise, without a task to take from a list, whatever task has the slot is marked. */
  function End(s: Sched, id: TaskId): Sched
    requires Shape(s) && Searchable(s, id)
  {
    if id == s.ids[s.running] then Schedule(Ended(s, s.running))
    else if Listed(s, id) then Enqueue(Ended(TakeFromList(s, id.slot), id.slot), WAIT, id.slot)
    else if id.slot < MAXCOUNT then Ended(s, id.slot)
    else s
  }

  /** The first waiting task leaves the wait list and its control block is freed. */
  function Reap(s: Sched): Sched
    requires Shape(s) && (s.lists[WAIT] != [] ==> Live(s.ids, s.lists[WAIT][0]))
  {
    SomeUsed(s);
    if s.lists[WAIT] == [] then s
    else FreeTcb(s.(lists := Drop(s.lists, WAIT, 0)), s.lists[WAIT][0])
  }
}
