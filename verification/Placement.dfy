/**
 Where the tasks are on the lists: every operation on them keeps each live task in exactly one place, except in the
 exact cases named by `Keeps`, and the task count is the pool's use count exactly as long as no task is lost.
 */
module Placement {
  import opened Scheduling

  /** No task is in two places, and only live tasks are anywhere. */
  ghost predicate Held(s: Sched, spots: Spots) {
    && Shape(s)
    && Listing(s.lists, spots)
    && s.running !in spots
    && spots.Keys <= LiveTasks(s.ids)
  }

  ghost predicate Suits(flags: seq<Flags>, l: nat, t: nat) {
    t < |flags| && if l == WAIT then flags[t].ended else flags[t].priority == l
  }

  /** Each ready list holds tasks of its own priority, and the wait list holds tasks that have ended. */
  ghost predicate AllSuit(lists: seq<seq<nat>>, flags: seq<Flags>) {
    forall l, k :: 0 <= l < |lists| && 0 <= k < |lists[l]| ==> Suits(flags, l, lists[l][k])
  }

  lemma DropSuits(lists: seq<seq<nat>>, flags: seq<Flags>, l: nat, k: nat)
    requires AllSuit(lists, flags) && l < |lists| && k < |lists[l]|
    ensures AllSuit(Drop(lists, l, k), flags)
  {
    var lists' := Drop(lists, l, k);
    forall i, j | 0 <= i < |lists'| && 0 <= j < |lists'[i]| ensures Suits(flags, i, lists'[i][j]) {
      assert Suits(flags, i, lists[i][if i == l && j >= k then j + 1 else j]);
    }
  }

  lemma FlagSuits(lists: seq<seq<nat>>, spots: Spots, flags: seq<Flags>, t: nat, f: Flags)
    requires AllSuit(lists, flags) && Listing(lists, spots) && t < |flags|
    ensures AllSuit(lists, flags[t := f]) <==> (t in spots ==> Suits(flags[t := f], spots[t].list, t))
  {
    var flags' := flags[t := f];
    if t in spots {
      assert At(lists, spots[t], t);
    }
    if t in spots ==> Suits(flags', spots[t].list, t) {
      forall l, k | 0 <= l < |lists| && 0 <= k < |lists[l]| ensures Suits(flags', l, lists[l][k]) {
        assert Suits(flags, l, lists[l][k]);
        assert spots[lists[l][k]] == Spot(l, k);
      }
    }
  }

  /** Every live task runs, or is in the ready list of its own priority, or has ended and waits. */
  ghost predicate Placed(s: Sched, spots: Spots) {
    && Held(s, spots)
    && LiveTasks(s.ids) == spots.Keys + {s.running}
    && AllSuit(s.lists, s.flags)
  }

  ghost predicate IsPlaced(s: Sched) {
    exists spots :: Placed(s, spots)
  }

  // ----- counting

  function TaskCount(s: Sched): nat
    requires |s.lists| == LEVELS + 1
  {
    |s.lists[0]| + |s.lists[1]| + |s.lists[2]| + |s.lists[3]| + |s.lists[4]| + |s.lists[WAIT]| + 1
  }

  function ListedBelow(spots: Spots, l: nat): set<nat> {
    set t | t in spots && spots[t].list < l
  }

  function ListedUpTo(spots: Spots, l: nat, k: nat): set<nat> {
    set t | t in spots && (spots[t].list < l || (spots[t].list == l && spots[t].position < k))
  }

  lemma {:induction false} CountUpTo(lists: seq<seq<nat>>, spots: Spots, l: nat, k: nat)
    requires Listing(lists, spots) && l < |lists| && k <= |lists[l]|
    ensures |ListedUpTo(spots, l, k)| == |ListedBelow(spots, l)| + k
  {
    if k == 0 {
      assert ListedUpTo(spots, l, 0) == ListedBelow(spots, l);
    } else {
      CountUpTo(lists, spots, l, k - 1);
      var t := lists[l][k - 1];
      forall u ensures u in ListedUpTo(spots, l, k) <==> u in ListedUpTo(spots, l, k - 1) || u == t {
        if u in spots {
          assert At(lists, spots[u], u);
        }
      }
      assert ListedUpTo(spots, l, k) == ListedUpTo(spots, l, k - 1) + {t};
      assert spots[t] == Spot(l, k - 1);
    }
  }

  lemma CountBelow(lists: seq<seq<nat>>, spots: Spots, l: nat)
    requires Listing(lists, spots) && l < |lists|
    ensures |ListedBelow(spots, l + 1)| == |ListedBelow(spots, l)| + |lists[l]|
  {
    CountUpTo(lists, spots, l, |lists[l]|);
    forall t | t in spots ensures At(lists, spots[t], t) {
    }
    assert ListedBelow(spots, l + 1) == ListedUpTo(spots, l, |lists[l]|);
  }

  lemma CountListed(lists: seq<seq<nat>>, spots: Spots)
    requires Listing(lists, spots) && |lists| == LEVELS + 1
    ensures |spots.Keys| == |lists[0]| + |lists[1]| + |lists[2]| + |lists[3]| + |lists[4]| + |lists[WAIT]|
  {
    assert ListedBelow(spots, 0) == {};
    CountBelow(lists, spots, 0);
    CountBelow(lists, spots, 1);
    CountBelow(lists, spots, 2);
    CountBelow(lists, spots, 3);
    CountBelow(lists, spots, 4);
    CountBelow(lists, spots, 5);
    forall t | t in spots ensures At(lists, spots[t], t) {
    }
    assert ListedBelow(spots, 6) == spots.Keys;
  }

  /** The task count never exceeds the use count, and equals it exactly if every live task is somewhere. */
  lemma TaskCountIsUseCount(s: Sched, spots: Spots)
    requires Held(s, spots)
    ensures TaskCount(s) <= s.used
    ensures TaskCount(s) == s.used <==> LiveTasks(s.ids) == spots.Keys + {s.running}
  {
    CountListed(s.lists, spots);
    assert s.running in LiveTasks(s.ids);
    assert |spots.Keys + {s.running}| == |spots.Keys| + 1;
    CardinalityAtMost(spots.Keys + {s.running}, LiveTasks(s.ids));
  }

  /** The positions follow from the lists. */
  lemma OneListing(lists: seq<seq<nat>>, a: Spots, b: Spots)
    requires Listing(lists, a) && Listing(lists, b)
    ensures a == b
  {
    forall t | t in a ensures t in b && b[t] == a[t] {
      assert At(lists, a[t], t);
    }
    forall t | t in b ensures t in a && a[t] == b[t] {
      assert At(lists, b[t], t);
    }
    assert a.Keys == b.Keys;
  }

  lemma PlacedHow(s: Sched, spots: Spots)
    requires Held(s, spots)
    ensures IsPlaced(s) <==> Placed(s, spots)
  {
    if IsPlaced(s) {
      var spots' :| Placed(s, spots');
      OneListing(s.lists, spots, spots');
    }
  }

  // ----- the steps

  datatype Op =
    | OpCreate(flags: Flags)
    | OpSchedule
    | OpInterrupt
    | OpChangePriority(id: TaskId, priority: nat)
    | OpEnd(endId: TaskId)
    | OpReap

  predicate Enabled(s: Sched, op: Op)
    requires Shape(s)
  {
    match op
    case OpChangePriority(id, p) => Searchable(s, id)
    case OpEnd(id) => Searchable(s, id)
    case OpReap => s.lists[WAIT] != [] ==> Live(s.ids, s.lists[WAIT][0])
    case _ => true
  }

  function Step(s: Sched, op: Op): Sched
    requires Shape(s) && Enabled(s, op)
  {
    match op
    case OpCreate(flags) => Create(s, flags)
    case OpSchedule => Schedule(s)
    case OpInterrupt => Switch(s)
    case OpChangePriority(id, p) => ChangePriority(s, id, p)
    case OpEnd(id) => End(s, id)
    case OpReap => Reap(s)
  }

  predicate CreateFails(s: Sched)
    requires Shape(s)
  {
    SlotAvailableUnlessFull(s);
    s.used == MAXCOUNT || ProcessOf(TakeSlot(s, FreeSlot(s.ids, 0)), s.running) == None
  }

  lemma SlotAvailableUnlessFull(s: Sched)
    requires Shape(s)
    ensures s.used != MAXCOUNT ==> FreeSlot(s.ids, 0) < MAXCOUNT && Shape(TakeSlot(s, FreeSlot(s.ids, 0)))
  {
    if s.used != MAXCOUNT {
      SlotAvailable(s);
    }
  }

  /** The task in a slot does not depend on its priority: there is none, or it runs, or it waits. */
  predicate Unlisted(s: Sched, t: nat)
    requires Shape(s)
  {
    !Live(s.ids, t) || t == s.running || t in s.lists[WAIT]
  }

  /**
   The exact conditions under which the operations leave every task in its place, as long as no search finds its task
   behind the tail of a list.
   */
  predicate Keeps(s: Sched, op: Op)
    requires Shape(s)
  {
    match op
    case OpCreate(flags) => flags.priority < LEVELS || CreateFails(s)
    case OpSchedule => NoneReady(s.lists) || s.flags[s.running].ended || s.flags[s.running].priority < LEVELS
    case OpInterrupt => NoneReady(s.lists) || s.flags[s.running].ended || s.flags[s.running].priority < LEVELS
    case OpChangePriority(id, p) =>
      p > LEVELS || id == s.ids[s.running]
      || (if Listed(s, id) then p < LEVELS
          else id.slot >= MAXCOUNT || Unlisted(s, id.slot) || p == s.flags[id.slot].priority)
    case OpEnd(id) =>
      Listed(s, id) || id.slot >= MAXCOUNT || Unlisted(s, id.slot)
    case OpReap => true
  }

  // ----- building blocks of the steps

  /** As `Placed`, but for the live task `t`, which is nowhere. */
  ghost predicate Misses(s: Sched, spots: Spots, t: nat) {
    && Held(s, spots)
    && LiveTasks(s.ids) == spots.Keys + {s.running} + {t}
    && t !in spots && t != s.running
    && AllSuit(s.lists, s.flags)
  }

  function EnqueueSpots(s: Sched, spots: Spots, l: nat, t: nat): Spots
    requires l < |s.lists|
  {
    spots[t := Spot(l, |s.lists[l]|)]
  }

  lemma EnqueueHeld(s: Sched, spots: Spots, l: nat, t: nat)
    requires Held(s, spots) && l < |s.lists| && t !in spots && t != s.running && Live(s.ids, t)
    ensures Held(Enqueue(s, l, t), EnqueueSpots(s, spots, l, t))
  {
    Appended(s.lists, spots, l, t);
  }

  lemma EnqueuePlaced(s: Sched, spots: Spots, l: nat, t: nat)
    requires Misses(s, spots, t) && l < |s.lists| && Live(s.ids, t)
    requires Suits(s.flags, l, t)
    ensures Placed(Enqueue(s, l, t), EnqueueSpots(s, spots, l, t))
  {
    EnqueueHeld(s, spots, l, t);
  }

  lemma MissedIsLive(s: Sched, spots: Spots, t: nat)
    requires Misses(s, spots, t)
    ensures Live(s.ids, t) && !Placed(s, spots)
  {
    assert t in LiveTasks(s.ids);
  }

  function AddSpots(s: Sched, spots: Spots, t: nat): Spots
    requires Shape(s) && t < MAXCOUNT
  {
    if s.flags[t].priority >= LEVELS then spots else EnqueueSpots(s, spots, s.flags[t].priority, t)
  }

  lemma AddHeld(s: Sched, spots: Spots, t: nat)
    requires Held(s, spots) && t !in spots && t != s.running && Live(s.ids, t)
    ensures Held(AddToReadyList(s, t), AddSpots(s, spots, t))
  {
    if s.flags[t].priority < LEVELS {
      EnqueueHeld(s, spots, s.flags[t].priority, t);
    }
  }

  lemma AddPlaced(s: Sched, spots: Spots, t: nat)
    requires Misses(s, spots, t) && t < MAXCOUNT
    ensures Placed(AddToReadyList(s, t), AddSpots(s, spots, t)) <==> s.flags[t].priority < LEVELS
  {
    MissedIsLive(s, spots, t);
    if s.flags[t].priority < LEVELS {
      EnqueuePlaced(s, spots, s.flags[t].priority, t);
    }
  }

  function PutBackSpots(s: Sched, spots: Spots, t: nat): Spots
    requires Shape(s) && t < MAXCOUNT
  {
    if s.flags[t].ended then EnqueueSpots(s, spots, WAIT, t)
    else if s.flags[t].priority < LEVELS then EnqueueSpots(s, spots, s.flags[t].priority, t)
    else spots
  }

  lemma PutBackHeld(s: Sched, spots: Spots, t: nat)
    requires Held(s, spots) && t !in spots && t != s.running && Live(s.ids, t)
    ensures Held(PutBack(s, t), PutBackSpots(s, spots, t))
  {
    if s.flags[t].ended {
      EnqueueHeld(s, spots, WAIT, t);
    } else if s.flags[t].priority < LEVELS {
      EnqueueHeld(s, spots, s.flags[t].priority, t);
    }
  }

  lemma PutBackPlaced(s: Sched, spots: Spots, t: nat)
    requires Misses(s, spots, t) && t < MAXCOUNT
    ensures Placed(PutBack(s, t), PutBackSpots(s, spots, t)) <==> s.flags[t].ended || s.flags[t].priority < LEVELS
  {
    MissedIsLive(s, spots, t);
    if s.flags[t].ended {
      EnqueuePlaced(s, spots, WAIT, t);
    } else if s.flags[t].priority < LEVELS {
      EnqueuePlaced(s, spots, s.flags[t].priority, t);
    }
  }

  lemma ResumeHeld(s: Sched, spots: Spots, p: nat)
    requires Held(s, spots) && p < LEVELS && s.lists[p] != []
    ensures var s1, spots1 := Resume(s, p), DropSpot(spots, p, 0);
            && Held(s1, spots1)
            && s.running !in spots1 && s.running != s1.running && Live(s1.ids, s.running)
            && spots1.Keys + {s1.running} == spots.Keys
  {
    Dropped(s.lists, spots, p, 0);
    assert s.lists[p][0] in spots;
    assert s.lists[p][0] in LiveTasks(s.ids);
  }

  lemma ResumeMisses(s: Sched, spots: Spots, p: nat)
    requires Placed(s, spots) && p < LEVELS && s.lists[p] != []
    ensures Misses(Resume(s, p), DropSpot(spots, p, 0), s.running)
  {
    ResumeHeld(s, spots, p);
    DropSuits(s.lists, s.flags, p, 0);
  }

  lemma TakenHeld(s: Sched, spots: Spots, t: nat, l: nat, k: nat)
    requires Held(s, spots) && t < MAXCOUNT && s.flags[t].priority == l <= WAIT && t in s.lists[l]
    requires k == IndexOf(s.lists[l], t)
    ensures Held(TakeFromList(s, t), DropSpot(spots, l, k))
    ensures DropSpot(spots, l, k).Keys == spots.Keys - {t} && t in spots && t != s.running && Live(s.ids, t)
  {
    Dropped(s.lists, spots, l, k);
    assert s.lists[l][k] in spots;
    assert t in LiveTasks(s.ids);
  }

  lemma TakenMisses(s: Sched, spots: Spots, t: nat, l: nat, k: nat)
    requires Placed(s, spots) && t < MAXCOUNT && s.flags[t].priority == l <= WAIT && t in s.lists[l]
    requires k == IndexOf(s.lists[l], t)
    ensures Misses(TakeFromList(s, t), DropSpot(spots, l, k), t)
  {
    TakenHeld(s, spots, t, l, k);
    DropSuits(s.lists, s.flags, l, k);
    var s1, spots1 := TakeFromList(s, t), DropSpot(spots, l, k);
    assert AllSuit(s1.lists, s1.flags);
  }

  lemma SetFlagsHeld(s: Sched, spots: Spots, t: nat, f: Flags)
    requires Held(s, spots) && t < MAXCOUNT
    ensures Held(SetFlags(s, t, f), spots)
  {
  }

  /** Flags set in place must suit the place. */
  lemma SetFlagsPlaced(s: Sched, spots: Spots, t: nat, f: Flags)
    requires Placed(s, spots) && t < MAXCOUNT
    ensures Placed(SetFlags(s, t, f), spots) <==>
            t !in spots || (if spots[t].list == WAIT then f.ended else f.priority == spots[t].list)
  {
    FlagSuits(s.lists, spots, s.flags, t, f);
  }

  lemma SetFlagsMisses(s: Sched, spots: Spots, t: nat, f: Flags)
    requires Misses(s, spots, t) && t < MAXCOUNT
    ensures Misses(SetFlags(s, t, f), spots, t)
  {
    FlagSuits(s.lists, spots, s.flags, t, f);
  }

  // ----- switching

  function SwitchSpots(s: Sched, spots: Spots): Spots
    requires Held(s, spots)
  {
    var p := NextLevel(s.lists, s.executed);
    NoneFoundIffNoneReady(s.lists, s.executed);
    if p == LEVELS then spots
    else
      ResumeHeld(s, spots, p);
      PutBackSpots(Resume(s, p), DropSpot(spots, p, 0), s.running)
  }

  lemma SwitchHeld(s: Sched, spots: Spots)
    requires Held(s, spots)
    ensures Held(Switch(s), SwitchSpots(s, spots))
  {
    var p := NextLevel(s.lists, s.executed);
    NoneFoundIffNoneReady(s.lists, s.executed);
    if p < LEVELS {
      ResumeHeld(s, spots, p);
      PutBackHeld(Resume(s, p), DropSpot(spots, p, 0), s.running);
    }
  }

  lemma SwitchPlaced(s: Sched, spots: Spots)
    requires Placed(s, spots)
    ensures Placed(Switch(s), SwitchSpots(s, spots)) <==> Keeps(s, OpInterrupt)
  {
    var p := NextLevel(s.lists, s.executed);
    NoneFoundIffNoneReady(s.lists, s.executed);
    if p < LEVELS {
      ResumeMisses(s, spots, p);
      PutBackPlaced(Resume(s, p), DropSpot(spots, p, 0), s.running);
    }
  }
}
