/**
 Each operation on the lists: it keeps the tasks apart, and keeps them placed exactly under the condition `Keeps`.
 A search for a task that is not on the list of its priority finds nothing here; `TaskLinks` says when it does.
 */
module TaskSteps {
  import opened Scheduling
  import opened Placement
  import opened LinkedLists

  // ----- creating

  function NewTask(s: Sched, t: nat, process: nat, flags: Flags): Sched
    requires Shape(s) && t < MAXCOUNT && process < MAXCOUNT
  {
    s.(parents := s.parents[t := s.ids[process]], flags := s.flags[t := flags])
  }

  lemma TakeSlotHeld(s: Sched, spots: Spots, t: nat)
    requires Held(s, spots) && s.used != MAXCOUNT && t == FreeSlot(s.ids, 0)
    ensures t < MAXCOUNT && Held(TakeSlot(s, t), spots) && t !in spots && t != s.running
    ensures LiveTasks(TakeSlot(s, t).ids) == LiveTasks(s.ids) + {t}
    ensures Live(TakeSlot(s, t).ids, t)
  {
    SlotAvailable(s);
    SlotTaken(s.ids, t, TaskId(s.serial, t));
    assert t !in LiveTasks(s.ids);
  }

  /** Giving the slot back leaves only the serial number advanced. */
  lemma SlotReturned(s: Sched, t: nat)
    requires Shape(s) && s.used != MAXCOUNT && t == FreeSlot(s.ids, 0) < MAXCOUNT
    ensures FreeTcb(TakeSlot(s, t), t) == s.(serial := NextSerial(s.serial))
  {
    assert s.ids[t := TaskId(s.serial, t)][t := FreeId(t)] == s.ids;
  }

  function CreateSpots(s: Sched, spots: Spots, flags: Flags): Spots
    requires Shape(s)
  {
    if CreateFails(s) then spots else
      SlotAvailable(s);
      var t := FreeSlot(s.ids, 0);
      var s1 := TakeSlot(s, t);
      AddSpots(NewTask(s1, t, ProcessOf(s1, s.running).value, flags), spots, t)
  }

  lemma CreateHeld(s: Sched, spots: Spots, flags: Flags)
    requires Held(s, spots)
    ensures Held(Create(s, flags), CreateSpots(s, spots, flags))
    ensures CreateFails(s) ==> Create(s, flags) == s || Create(s, flags) == s.(serial := NextSerial(s.serial))
  {
    if s.used != MAXCOUNT {
      var t := FreeSlot(s.ids, 0);
      TakeSlotHeld(s, spots, t);
      var s1 := TakeSlot(s, t);
      match ProcessOf(s1, s.running)
      case None =>
        SlotReturned(s, t);
      case Some(process) =>
        AddHeld(NewTask(s1, t, process, flags), spots, t);
    }
  }

  lemma NewTaskMisses(s: Sched, spots: Spots, t: nat, process: nat, flags: Flags)
    requires Placed(s, spots) && s.used != MAXCOUNT && t == FreeSlot(s.ids, 0) < MAXCOUNT
    requires process < MAXCOUNT
    ensures Shape(TakeSlot(s, t)) && Misses(NewTask(TakeSlot(s, t), t, process, flags), spots, t)
  {
    TakeSlotHeld(s, spots, t);
    FlagSuits(s.lists, spots, s.flags, t, flags);
  }

  lemma CreatePlaced(s: Sched, spots: Spots, flags: Flags)
    requires Placed(s, spots)
    ensures Placed(Create(s, flags), CreateSpots(s, spots, flags)) <==> Keeps(s, OpCreate(flags))
  {
    CreateHeld(s, spots, flags);
    if !CreateFails(s) {
      var t := FreeSlot(s.ids, 0);
      SlotAvailable(s);
      var s1 := TakeSlot(s, t);
      var process := ProcessOf(s1, s.running).value;
      NewTaskMisses(s, spots, t, process, flags);
      AddPlaced(NewTask(s1, t, process, flags), spots, t);
    }
  }

  // ----- changing priorities

  function TakenSpots(s: Sched, spots: Spots, t: nat): Spots
    requires Shape(s) && t < MAXCOUNT && s.flags[t].priority <= WAIT
  {
    DropSpot(spots, s.flags[t].priority, IndexOf(s.lists[s.flags[t].priority], t))
  }

  function ChangeSpots(s: Sched, spots: Spots, id: TaskId, p: nat): Spots
    requires Shape(s) && Searchable(s, id)
  {
    if p <= LEVELS && Listed(s, id) then
      AddSpots(WithPriority(TakeFromList(s, id.slot), id.slot, p), TakenSpots(s, spots, id.slot), id.slot)
    else spots
  }

  lemma ChangeHeld(s: Sched, spots: Spots, id: TaskId, p: nat)
    requires Held(s, spots) && Searchable(s, id)
    ensures Held(ChangePriority(s, id, p), ChangeSpots(s, spots, id, p))
  {
    if p <= LEVELS && Listed(s, id) {
      var t := id.slot;
      var l := s.flags[t].priority;
      TakenHeld(s, spots, t, l, IndexOf(s.lists[l], t));
      AddHeld(WithPriority(TakeFromList(s, t), t, p), TakenSpots(s, spots, t), t);
    }
  }

  lemma UnlistedIff(s: Sched, spots: Spots, t: nat)
    requires Placed(s, spots) && t < MAXCOUNT
    ensures Unlisted(s, t) <==> (t in spots ==> spots[t].list == WAIT)
    ensures t in spots ==> spots[t].list <= WAIT && Suits(s.flags, spots[t].list, t)
  {
    assert Live(s.ids, t) <==> t in LiveTasks(s.ids);
    if t in spots {
      assert At(s.lists, spots[t], t);
    }
    if t in s.lists[WAIT] {
      var k :| 0 <= k < |s.lists[WAIT]| && s.lists[WAIT][k] == t;
      assert spots[s.lists[WAIT][k]] == Spot(WAIT, k);
    }
  }

  lemma ChangePlaced(s: Sched, spots: Spots, id: TaskId, p: nat)
    requires Placed(s, spots) && Searchable(s, id)
    ensures Placed(ChangePriority(s, id, p), ChangeSpots(s, spots, id, p)) <==> Keeps(s, OpChangePriority(id, p))
  {
    var t := id.slot;
    if p > LEVELS {
    } else if id == s.ids[s.running] {
      SetFlagsPlaced(s, spots, s.running, s.flags[s.running].(priority := p));
    } else if Listed(s, id) {
      var l := s.flags[t].priority;
      TakenMisses(s, spots, t, l, IndexOf(s.lists[l], t));
      var s1, spots1 := TakeFromList(s, t), TakenSpots(s, spots, t);
      SetFlagsMisses(s1, spots1, t, s1.flags[t].(priority := p));
      AddPlaced(WithPriority(s1, t, p), spots1, t);
    } else if t < MAXCOUNT {
      SetFlagsPlaced(s, spots, t, s.flags[t].(priority := p));
      UnlistedIff(s, spots, t);
    }
  }

  // ----- ending

  function EndSpots(s: Sched, spots: Spots, id: TaskId): Spots
    requires Held(s, spots) && Searchable(s, id)
  {
    if id == s.ids[s.running] then
      ScheduleSpots(Ended(s, s.running), spots)
    else if Listed(s, id) then
      EnqueueSpots(Ended(TakeFromList(s, id.slot), id.slot), TakenSpots(s, spots, id.slot), WAIT, id.slot)
    else spots
  }

  function ScheduleSpots(s: Sched, spots: Spots): Spots
    requires Held(s, spots)
  {
    if NoneReady(s.lists) then spots else SwitchSpots(s, spots)
  }

  lemma ScheduleHeld(s: Sched, spots: Spots)
    requires Held(s, spots)
    ensures Held(Schedule(s), ScheduleSpots(s, spots))
  {
    if !NoneReady(s.lists) {
      SwitchHeld(s, spots);
    }
  }

  lemma SchedulePlaced(s: Sched, spots: Spots)
    requires Placed(s, spots)
    ensures Placed(Schedule(s), ScheduleSpots(s, spots)) <==> Keeps(s, OpSchedule)
  {
    if NoneReady(s.lists) {
      assert Keeps(s, OpSchedule);
    } else {
      SwitchPlaced(s, spots);
      assert Keeps(s, OpSchedule) <==> Keeps(s, OpInterrupt);
    }
  }

  lemma EndListedHeld(s: Sched, spots: Spots, t: nat)
    requires Held(s, spots) && t < MAXCOUNT && s.flags[t].priority <= WAIT && t in s.lists[s.flags[t].priority]
    ensures Held(Enqueue(Ended(TakeFromList(s, t), t), WAIT, t),
                 EnqueueSpots(Ended(TakeFromList(s, t), t), TakenSpots(s, spots, t), WAIT, t))
  {
    var l := s.flags[t].priority;
    TakenHeld(s, spots, t, l, IndexOf(s.lists[l], t));
    SetFlagsHeld(TakeFromList(s, t), TakenSpots(s, spots, t), t, Flags(WAIT_PRIORITY, true, s.flags[t].process));
    EnqueueHeld(Ended(TakeFromList(s, t), t), TakenSpots(s, spots, t), WAIT, t);
  }

  lemma EndHeld(s: Sched, spots: Spots, id: TaskId)
    requires Held(s, spots) && Searchable(s, id)
    ensures Held(End(s, id), EndSpots(s, spots, id))
  {
    if id == s.ids[s.running] {
      ScheduleHeld(Ended(s, s.running), spots);
    } else if Listed(s, id) {
      EndListedHeld(s, spots, id.slot);
    }
  }

  lemma EndListedPlaced(s: Sched, spots: Spots, t: nat)
    requires Placed(s, spots) && t < MAXCOUNT && s.flags[t].priority <= WAIT && t in s.lists[s.flags[t].priority]
    ensures Placed(Enqueue(Ended(TakeFromList(s, t), t), WAIT, t),
                   EnqueueSpots(Ended(TakeFromList(s, t), t), TakenSpots(s, spots, t), WAIT, t))
  {
    var l := s.flags[t].priority;
    TakenMisses(s, spots, t, l, IndexOf(s.lists[l], t));
    var s1, spots1 := TakeFromList(s, t), TakenSpots(s, spots, t);
    SetFlagsMisses(s1, spots1, t, Flags(WAIT_PRIORITY, true, s.flags[t].process));
    MissedIsLive(Ended(s1, t), spots1, t);
    EnqueuePlaced(Ended(s1, t), spots1, WAIT, t);
  }

  lemma EndPlaced(s: Sched, spots: Spots, id: TaskId)
    requires Placed(s, spots) && Searchable(s, id)
    ensures Placed(End(s, id), EndSpots(s, spots, id)) <==> Keeps(s, OpEnd(id))
  {
    if id == s.ids[s.running] {
      EndRunningPlaced(s, spots);
    } else if Listed(s, id) {
      EndListedPlaced(s, spots, id.slot);
    } else if id.slot < MAXCOUNT {
      SetFlagsPlaced(s, spots, id.slot, Flags(WAIT_PRIORITY, true, s.flags[id.slot].process));
      UnlistedIff(s, spots, id.slot);
    }
  }

  lemma EndRunningPlaced(s: Sched, spots: Spots)
    requires Placed(s, spots)
    ensures Held(Ended(s, s.running), spots)
    ensures Placed(Schedule(Ended(s, s.running)), ScheduleSpots(Ended(s, s.running), spots))
  {
    SetFlagsPlaced(s, spots, s.running, Flags(WAIT_PRIORITY, true, s.flags[s.running].process));
    SchedulePlaced(Ended(s, s.running), spots);
  }

  // ----- reaping

  function ReapSpots(s: Sched, spots: Spots): Spots
    requires Shape(s)
  {
    if s.lists[WAIT] == [] then spots else DropSpot(spots, WAIT, 0)
  }

  lemma TcbFreed(s: Sched, spots: Spots, t: nat)
    requires Held(s, spots) && t !in spots && t != s.running && Live(s.ids, t)
    ensures s.used > 0 && Held(FreeTcb(s, t), spots)
    ensures LiveTasks(FreeTcb(s, t).ids) == LiveTasks(s.ids) - {t}
  {
    SomeUsed(s);
    SlotFreed(s.ids, t, FreeId(t));
  }

  lemma UnwaitHeld(s: Sched, spots: Spots)
    requires Held(s, spots) && s.lists[WAIT] != []
    ensures var t, s1, spots1 := s.lists[WAIT][0], s.(lists := Drop(s.lists, WAIT, 0)), DropSpot(spots, WAIT, 0);
            && Held(s1, spots1) && t in spots && spots1.Keys == spots.Keys - {t} && t != s.running && Live(s.ids, t)
            && (Placed(s, spots) ==> Misses(s1, spots1, t))
  {
    var t := s.lists[WAIT][0];
    Dropped(s.lists, spots, WAIT, 0);
    assert t in spots;
    assert t in LiveTasks(s.ids);
    if Placed(s, spots) {
      DropSuits(s.lists, s.flags, WAIT, 0);
    }
  }

  lemma ReapHeld(s: Sched, spots: Spots)
    requires Held(s, spots)
    ensures Enabled(s, OpReap)
    ensures Held(Reap(s), ReapSpots(s, spots))
  {
    if s.lists[WAIT] != [] {
      UnwaitHeld(s, spots);
      TcbFreed(s.(lists := Drop(s.lists, WAIT, 0)), DropSpot(spots, WAIT, 0), s.lists[WAIT][0]);
    }
  }

  lemma MissingFreed(s: Sched, spots: Spots, t: nat)
    requires Misses(s, spots, t) && Live(s.ids, t)
    ensures s.used > 0 && Placed(FreeTcb(s, t), spots)
  {
    TcbFreed(s, spots, t);
    assert spots.Keys + {s.running} + {t} - {t} == spots.Keys + {s.running};
  }

  lemma ReapPlaced(s: Sched, spots: Spots)
    requires Placed(s, spots)
    ensures Enabled(s, OpReap)
    ensures Placed(Reap(s), ReapSpots(s, spots))
  {
    if s.lists[WAIT] != [] {
      UnwaitHeld(s, spots);
      MissingFreed(s.(lists := Drop(s.lists, WAIT, 0)), DropSpot(spots, WAIT, 0), s.lists[WAIT][0]);
    }
  }

  // ----- lost tasks

  predicate OnNoList(lists: seq<seq<nat>>, t: nat) {
    forall l :: 0 <= l < |lists| ==> t !in lists[l]
  }

  /** A live task that neither runs nor is on any list. */
  predicate Lost(s: Sched, t: nat) {
    Live(s.ids, t) && t != s.running && OnNoList(s.lists, t)
  }

  lemma LostHasNoSpot(s: Sched, spots: Spots, t: nat)
    requires Held(s, spots)
    ensures Lost(s, t) <==> t in LiveTasks(s.ids) && t != s.running && t !in spots
  {
    if t in spots {
      assert At(s.lists, spots[t], t);
    } else {
      forall l | 0 <= l < |s.lists| ensures t !in s.lists[l] {
        assert forall k :: 0 <= k < |s.lists[l]| ==> s.lists[l][k] in spots;
      }
    }
  }

  predicate NoneLost(s: Sched) {
    forall t :: 0 <= t < MAXCOUNT ==> !Lost(s, t)
  }

  lemma NoneLostMeans(s: Sched, spots: Spots)
    requires Held(s, spots)
    ensures NoneLost(s) <==> LiveTasks(s.ids) == spots.Keys + {s.running}
  {
    forall t: nat ensures Lost(s, t) <==> t in LiveTasks(s.ids) && t != s.running && t !in spots {
      LostHasNoSpot(s, spots, t);
    }
    if NoneLost(s) {
      forall t ensures t in LiveTasks(s.ids) <==> t in spots.Keys + {s.running} {
        assert t in LiveTasks(s.ids) ==> 0 <= t < MAXCOUNT && !Lost(s, t);
      }
    } else {
      var t :| 0 <= t < MAXCOUNT && Lost(s, t);
      LostHasNoSpot(s, spots, t);
    }
  }

  // ----- all operations

  function StepSpots(s: Sched, spots: Spots, op: Op): Spots
    requires Held(s, spots) && Enabled(s, op)
  {
    match op
    case OpCreate(flags) => CreateSpots(s, spots, flags)
    case OpSchedule => ScheduleSpots(s, spots)
    case OpInterrupt => SwitchSpots(s, spots)
    case OpChangePriority(id, p) => ChangeSpots(s, spots, id, p)
    case OpEnd(id) => EndSpots(s, spots, id)
    case OpReap => ReapSpots(s, spots)
  }

  /** No such operation puts a task in two places or keeps hold of a dead one. */
  lemma ListsHeld(s: Sched, spots: Spots, op: Op)
    requires Held(s, spots) && Enabled(s, op)
    ensures Held(Step(s, op), StepSpots(s, spots, op))
  {
    match op
    case OpCreate(flags) => CreateHeld(s, spots, flags);
    case OpSchedule => ScheduleHeld(s, spots);
    case OpInterrupt => SwitchHeld(s, spots);
    case OpChangePriority(id, p) => ChangeHeld(s, spots, id, p);
    case OpEnd(id) => EndHeld(s, spots, id);
    case OpReap => ReapHeld(s, spots);
  }

  /** From a state with every task in its place, an operation leads to another one exactly if `Keeps` holds. */
  lemma ListsPlacedIff(s: Sched, op: Op)
    requires IsPlaced(s) && Enabled(s, op)
    ensures IsPlaced(Step(s, op)) <==> Keeps(s, op)
  {
    var spots :| Placed(s, spots);
    ListsHeld(s, spots, op);
    PlacedHow(Step(s, op), StepSpots(s, spots, op));
    match op
    case OpCreate(flags) => CreatePlaced(s, spots, flags);
    case OpSchedule => SchedulePlaced(s, spots);
    case OpInterrupt => SwitchPlaced(s, spots);
    case OpChangePriority(id, p) => ChangePlaced(s, spots, id, p);
    case OpEnd(id) => EndPlaced(s, spots, id);
    case OpReap => ReapPlaced(s, spots);
  }

  /** The state set up at start: one system task, which runs. */
  function Initial(): Sched {
    Sched(seq(MAXCOUNT, (i: nat) => TaskId(if i == 0 then 1 else 0, i)),
          seq(MAXCOUNT, i => Flags(0, false, i == 0)),
          seq(MAXCOUNT, i => TaskId(if i == 0 then 1 else 0, 0)),
          [[], [], [], [], [], []], CLEARED, 0, 1, 2)
  }

  lemma InitialShape()
    ensures Shape(Initial()) && LiveTasks(Initial().ids) == {0}
  {
    var ids, parents := Initial().ids, Initial().parents;
    forall t | 0 <= t < MAXCOUNT ensures parents[t].slot == 0 {
    }
    forall t ensures t in LiveTasks(ids) <==> t == 0 {
    }
    assert LiveTasks(ids) == {0};
  }

  lemma InitialPlaced()
    ensures Placed(Initial(), map[])
  {
    InitialShape();
    var none: Spots := map[];
    assert none.Keys + {0} == {0};
  }

  /** If the identity names anything at all, it is a live task that does not wait. */
  predicate Addressed(s: Sched, id: TaskId)
    requires Shape(s)
  {
    Names(s, id) ==> Live(s.ids, id.slot) && id.slot !in s.lists[WAIT]
  }

  /** With every task in its place, such an identity is found where its task's priority says. */
  lemma AddressedIsListed(s: Sched, spots: Spots, id: TaskId)
    requires Placed(s, spots) && Addressed(s, id)
    ensures Searchable(s, id) && (Names(s, id) && id != s.ids[s.running] ==> Listed(s, id))
  {
    if Names(s, id) && id != s.ids[s.running] {
      var t := id.slot;
      assert t in LiveTasks(s.ids);
      assert At(s.lists, spots[t], t);
      assert Suits(s.flags, spots[t].list, s.lists[spots[t].list][spots[t].position]);
    }
  }

  /** A caller of the operation names no free slot and no waiting task, and its condition `Keeps` holds. */
  predicate Proper(s: Sched, op: Op)
    requires Shape(s)
  {
    && Keeps(s, op)
    && (op.OpChangePriority? ==> Addressed(s, op.id))
    && (op.OpEnd? ==> Addressed(s, op.endId))
  }

  lemma ProperIsEnabled(s: Sched, op: Op)
    requires IsPlaced(s) && Proper(s, op)
    ensures Enabled(s, op)
  {
    var spots :| Placed(s, spots);
    match op
    case OpChangePriority(id, p) => AddressedIsListed(s, spots, id);
    case OpEnd(id) => AddressedIsListed(s, spots, id);
    case OpReap => ReapHeld(s, spots);
    case _ =>
  }

  lemma DropCount(s: Sched, l: nat, k: nat)
    requires |s.lists| == LEVELS + 1 && l <= WAIT && k < |s.lists[l]|
    ensures TaskCount(s.(lists := Drop(s.lists, l, k))) == TaskCount(s) - 1
  {
    assert |Drop(s.lists, l, k)[l]| == |s.lists[l]| - 1;
  }

  /** Giving a listed task the priority 5, which the range check lets through, loses it. */
  lemma PriorityFiveLosesTask(s: Sched, spots: Spots, id: TaskId)
    requires Placed(s, spots) && Listed(s, id)
    ensures TaskCount(ChangePriority(s, id, 5)) == ChangePriority(s, id, 5).used - 1
    ensures !IsPlaced(ChangePriority(s, id, 5)) && Lost(ChangePriority(s, id, 5), id.slot)
  {
    ListsPlacedIff(s, OpChangePriority(id, 5));
    TaskCountIsUseCount(s, spots);
    var l := s.flags[id.slot].priority;
    var k := IndexOf(s.lists[l], id.slot);
    DropCount(s, l, k);
    TakenHeld(s, spots, id.slot, l, k);
    LostHasNoSpot(TakeFromList(s, id.slot), DropSpot(spots, l, k), id.slot);
  }

  lemma DropOther(lists: seq<seq<nat>>, l: nat, k: nat, t: nat)
    requires OnNoList(lists, t) && l < |lists| && k < |lists[l]|
    ensures OnNoList(Drop(lists, l, k), t) && lists[l][k] != t
  {
    assert lists[l][k] in lists[l];
  }

  lemma SwitchLeavesLost(s: Sched, t: nat)
    requires Shape(s) && Lost(s, t)
    ensures Lost(Switch(s), t) && Switch(s).ids == s.ids
  {
    var p := NextLevel(s.lists, s.executed);
    NoneFoundIffNoneReady(s.lists, s.executed);
    if p < LEVELS {
      DropOther(s.lists, p, 0, t);
    }
  }

  lemma TakeLeavesLost(s: Sched, u: nat, t: nat)
    requires Shape(s) && Lost(s, t) && u < MAXCOUNT
    requires s.flags[u].priority <= WAIT && u in s.lists[s.flags[u].priority]
    ensures Lost(TakeFromList(s, u), t) && u != t
  {
    var l := s.flags[u].priority;
    DropOther(s.lists, l, IndexOf(s.lists[l], u), t);
  }

  lemma CreateLeavesLost(s: Sched, t: nat, flags: Flags)
    requires Shape(s) && Lost(s, t)
    ensures Lost(Create(s, flags), t) && Create(s, flags).ids[t] == s.ids[t]
  {
    if s.used != MAXCOUNT {
      SlotAvailable(s);
      assert FreeSlot(s.ids, 0) != t;
    }
  }

  /** No such operation brings a lost task back. */
  lemma ListsLeaveLost(s: Sched, op: Op, t: nat)
    requires Shape(s) && Enabled(s, op) && Lost(s, t)
    ensures Lost(Step(s, op), t) && Step(s, op).ids[t] == s.ids[t]
  {
    match op
    case OpCreate(flags) => CreateLeavesLost(s, t, flags);
    case OpSchedule => SwitchLeavesLost(s, t);
    case OpInterrupt => SwitchLeavesLost(s, t);
    case OpChangePriority(id, p) =>
      if Listed(s, id) {
        TakeLeavesLost(s, id.slot, t);
      }
    case OpEnd(id) =>
      if id == s.ids[s.running] {
        SwitchLeavesLost(Ended(s, s.running), t);
      } else if Listed(s, id) {
        TakeLeavesLost(s, id.slot, t);
      }
    case OpReap =>
      if s.lists[WAIT] != [] {
        DropOther(s.lists, WAIT, 0, t);
      }
  }

  predicate WaitsLast(s: Sched, t: nat)
    requires |s.lists| > WAIT
  {
    t < |s.flags| && s.flags[t].ended && t != s.running
    && s.lists[WAIT] != [] && s.lists[WAIT][|s.lists[WAIT]| - 1] == t
  }

  /** A listed task that is ended goes behind all waiting tasks. */
  lemma EndedTaskWaits(s: Sched, spots: Spots, id: TaskId)
    requires Held(s, spots) && Listed(s, id)
    ensures |End(s, id).lists| > WAIT && WaitsLast(End(s, id), id.slot)
  {
    var l := s.flags[id.slot].priority;
    TakenHeld(s, spots, id.slot, l, IndexOf(s.lists[l], id.slot));
  }

  lemma EndedIsPutBack(s: Sched, spots: Spots)
    requires Held(s, spots) && s.flags[s.running].ended && !NoneReady(s.lists)
    ensures |Switch(s).lists| > WAIT && WaitsLast(Switch(s), s.running)
  {
    NoneFoundIffNoneReady(s.lists, s.executed);
    ResumeHeld(s, spots, NextLevel(s.lists, s.executed));
  }

  /** The running task that ends waits as soon as another task is ready, and runs on marked otherwise. */
  lemma EndedRunnerWaits(s: Sched, spots: Spots)
    requires Held(s, spots)
    ensures var s' := End(s, s.ids[s.running]);
            |s'.lists| > WAIT &&
            if NoneReady(s.lists) then s' == Ended(s, s.running) else WaitsLast(s', s.running)
  {
    var s0 := Ended(s, s.running);
    SetFlagsHeld(s, spots, s.running, s0.flags[s.running]);
    assert s0.flags[s0.running].ended && s0.lists == s.lists;
    if !NoneReady(s.lists) {
      EndedIsPutBack(s0, spots);
    }
  }

  // ----- what the operations do, spelled out

  /** The identities and parents, and what else no operation on a task's flags touches. */
  ghost predicate SamePool(s: Sched, s': Sched) {
    s'.ids == s.ids && s'.parents == s.parents && s'.used == s.used && s'.serial == s.serial && |s'.flags| == |s.flags|
  }

  /** Only the flags of `t` have changed, and of them the priority is now `p`. */
  ghost predicate OnlyPriority(s: Sched, s': Sched, t: nat, p: nat) {
    && |s'.flags| == |s.flags| && t < |s.flags|
    && s'.flags[t].priority == p && s'.flags[t].ended == s.flags[t].ended && s'.flags[t].process == s.flags[t].process
    && forall u :: 0 <= u < |s.flags| && u != t ==> s'.flags[u] == s.flags[u]
  }

  ghost predicate OnlyMarked(s: Sched, s': Sched, t: nat) {
    && |s'.flags| == |s.flags| && t < |s.flags|
    && s'.flags[t].priority == 0xff && s'.flags[t].ended && s'.flags[t].process == s.flags[t].process
    && forall u :: 0 <= u < |s.flags| && u != t ==> s'.flags[u] == s.flags[u]
  }

  /** The task has left the list it was on, if any, and is the last one on list `l`, if there is such a list. */
  ghost predicate MovedTo(lists: seq<seq<nat>>, lists': seq<seq<nat>>, t: nat, l: int) {
    && |lists'| == |lists|
    && forall i :: 0 <= i < |lists| ==>
         if i == l then lists'[i] == Others(lists[i], t) + [t] else lists'[i] == Others(lists[i], t)
  }

  /** The items of a list that are not `t`, in order. */
  function Others(items: seq<nat>, t: nat): seq<nat> {
    if items == [] then [] else (if items[0] == t then [] else [items[0]]) + Others(items[1..], t)
  }

  lemma {:induction false} NoOthers(items: seq<nat>, t: nat)
    requires t !in items
    ensures Others(items, t) == items
  {
    if items != [] {
      NoOthers(items[1..], t);
    }
  }

  lemma {:induction false} OthersWithout(items: seq<nat>, t: nat, k: nat)
    requires k < |items| && items[k] == t && forall i, j :: 0 <= i < j < |items| ==> items[i] != items[j]
    ensures Others(items, t) == items[..k] + items[k + 1..]
  {
    if k == 0 {
      assert t !in items[1..];
      NoOthers(items[1..], t);
    } else {
      var rest := items[1..];
      assert forall i, j :: 0 <= i < j < |rest| ==> rest[i] == items[i + 1] && rest[j] == items[j + 1];
      OthersWithout(items[1..], t, k - 1);
    }
  }

  lemma TakenOthers(lists: seq<seq<nat>>, spots: Spots, l: nat, k: nat)
    requires Listing(lists, spots) && l < |lists| && k < |lists[l]|
    ensures MovedTo(lists, Drop(lists, l, k), lists[l][k], -1)
  {
    var t := lists[l][k];
    forall i | 0 <= i < |lists| ensures Drop(lists, l, k)[i] == Others(lists[i], t) {
      forall a, b | 0 <= a < b < |lists[i]| ensures lists[i][a] != lists[i][b] {
        assert spots[lists[i][a]] == Spot(i, a) && spots[lists[i][b]] == Spot(i, b);
      }
      if i == l {
        OthersWithout(lists[i], t, k);
      } else {
        assert spots[t] == Spot(l, k) && forall a :: 0 <= a < |lists[i]| ==> spots[lists[i][a]] == Spot(i, a);
        NoOthers(lists[i], t);
      }
    }
  }

  /**
   Changing a priority sets that of the task in the named slot and nothing else in the flags. A task that was listed
   goes to the end of the list of its new priority; no other list changes, and no task changes its order.
   */
  lemma ChangeMeans(s: Sched, spots: Spots, id: TaskId, p: nat)
    requires Held(s, spots) && Searchable(s, id)
    ensures var s' := ChangePriority(s, id, p);
            && SamePool(s, s') && s'.running == s.running && s'.executed == s.executed
            && (if p <= LEVELS && id.slot < MAXCOUNT then OnlyPriority(s, s', id.slot, p) else s'.flags == s.flags)
            && (if p <= LEVELS && Listed(s, id) then MovedTo(s.lists, s'.lists, id.slot, if p < LEVELS then p else -1)
                else s'.lists == s.lists)
  {
    if p <= LEVELS && Listed(s, id) {
      var l := s.flags[id.slot].priority;
      TakenOthers(s.lists, spots, l, IndexOf(s.lists[l], id.slot));
    }
  }

  /**
   Ending a task marks the one in the named slot and nothing else in the flags. A task that was listed goes to the end
   of the wait list; the running one stays where it is unless a task is ready.
   */
  lemma EndMeans(s: Sched, spots: Spots, id: TaskId)
    requires Held(s, spots) && Searchable(s, id)
    ensures var s' := End(s, id);
            && SamePool(s, s')
            && (if id.slot < MAXCOUNT then OnlyMarked(s, s', id.slot) else s'.flags == s.flags)
            && (id != s.ids[s.running] ==>
                  && s'.running == s.running && s'.executed == s.executed
                  && (if Listed(s, id) then MovedTo(s.lists, s'.lists, id.slot, WAIT) else s'.lists == s.lists))
  {
    if id != s.ids[s.running] && Listed(s, id) {
      var l := s.flags[id.slot].priority;
      TakenOthers(s.lists, spots, l, IndexOf(s.lists[l], id.slot));
    }
  }

  /** Where a task goes that stops running: to the wait list if it has ended, else to its priority's list, if any. */
  function PlaceOf(f: Flags): int {
    if f.ended then WAIT else if f.priority < LEVELS then f.priority else -1
  }

  /**
   A switch takes the head of the level to run next and puts the task that ran at the end of the list where it
   belongs; no other task moves.
   */
  lemma SwitchMeans(s: Sched, spots: Spots)
    requires Held(s, spots) && !NoneReady(s.lists)
    ensures var s', p := Switch(s), NextLevel(s.lists, s.executed);
            && SamePool(s, s') && s'.flags == s.flags
            && p < LEVELS && s.lists[p] != [] && s'.running == s.lists[p][0] != s.running
            && |s'.lists| == |s.lists|
            && forall l :: 0 <= l < |s.lists| ==>
                 s'.lists[l] == (if l == p then s.lists[l][1..] else s.lists[l])
                                + (if l == PlaceOf(s.flags[s.running]) then [s.running] else [])
  {
    NoneFoundIffNoneReady(s.lists, s.executed);
    var p := NextLevel(s.lists, s.executed);
    ResumeHeld(s, spots, p);
    assert WithoutAt(s.lists[p], 0) == s.lists[p][1..];
  }

  /**
   The level to run next: the first one that has not had its share, and when all have had it, the first one that has
   a task.
   */
  lemma NextLevelMeans(lists: seq<seq<nat>>, executed: seq<nat>)
    requires LEVELS <= |lists| && |executed| == LEVELS
    ensures var p := NextLevel(lists, executed);
            if exists l :: 0 <= l < LEVELS && executed[l] < |lists[l]|
            then p < LEVELS && executed[p] < |lists[p]| && forall l :: 0 <= l < p ==> executed[l] >= |lists[l]|
            else p <= LEVELS && (p < LEVELS ==> lists[p] != []) && forall l :: 0 <= l < p ==> lists[l] == []
  {
    EligibleIsLeast(lists, executed, 0);
    EligibleIsLeast(lists, CLEARED, 0);
    RoundMeans(CLEARED, 0);
  }

  /**
   The counters after picking level `p`: one up at this level, cleared at those before it, and cleared first at all
   levels if none had any of its share left.
   */
  lemma NextExecutedMeans(lists: seq<seq<nat>>, executed: seq<nat>)
    requires LEVELS <= |lists| && |executed| == LEVELS && !NoneReady(lists)
    ensures var p, e := NextLevel(lists, executed), NextExecuted(lists, executed);
            && p < LEVELS && |e| == LEVELS && (forall l :: 0 <= l < p ==> e[l] == 0)
            && (if exists l :: 0 <= l < LEVELS && executed[l] < |lists[l]|
                then e[p] == executed[p] + 1 && forall l :: p < l < LEVELS ==> e[l] == executed[l]
                else e[p] == 1 && forall l :: p < l < LEVELS ==> e[l] == 0)
  {
    NoneFoundIffNoneReady(lists, executed);
    EligibleIsLeast(lists, executed, 0);
    var p := NextLevel(lists, executed);
    RoundMeans(executed, p);
    RoundMeans(CLEARED, p);
  }

  lemma RoundMeans(e: seq<nat>, p: nat)
    requires |e| == LEVELS && p < LEVELS
    ensures var r := RoundExecuted(e, p);
            (forall l :: 0 <= l < p ==> r[l] == 0) && r[p] == e[p] + 1 && forall l :: p < l < LEVELS ==> r[l] == e[l]
    ensures forall l :: 0 <= l < LEVELS ==> CLEARED[l] == 0
  {
    assert CLEARED == [0, 0, 0, 0, 0];
  }

  /** A running task that has set its priority goes to the end of the list of that priority when it is switched away. */
  lemma ChangedRunnerGoesLast(s: Sched, spots: Spots, p: nat)
    requires Held(s, spots) && p < LEVELS && !NoneReady(s.lists) && !s.flags[s.running].ended
    ensures var s' := Switch(ChangePriority(s, s.ids[s.running], p));
            && |s'.lists| > p && s'.lists[p] != [] && s'.lists[p][|s'.lists[p]| - 1] == s.running
            && s'.running != s.running
  {
    var s1 := ChangePriority(s, s.ids[s.running], p);
    ChangeMeans(s, spots, s.ids[s.running], p);
    ChangeHeld(s, spots, s.ids[s.running], p);
    SwitchMeans(s1, spots);
  }

  /**
   A new task takes the first free slot with the next serial number, has the flags asked for, belongs to the running
   task's process, and is last on the list of its priority. It is refused exactly if the pool is full, or the running
   task is a thread whose process is gone.
   */
  lemma CreateMeans(s: Sched, flags: Flags)
    requires Shape(s)
    ensures var t, s', parent := FreeSlot(s.ids, 0), Create(s, flags), s.parents[s.running];
            if s.used == MAXCOUNT then s' == s
            else if !s.flags[s.running].process
                    && (if parent.slot == t then TaskId(s.serial, t) else s.ids[parent.slot]) != parent
            then s' == s.(serial := NextSerial(s.serial))
            else
              && t < MAXCOUNT && s'.ids == s.ids[t := TaskId(s.serial, t)] && s'.flags == s.flags[t := flags]
              && s'.parents == s.parents[t := if s.flags[s.running].process then s.ids[s.running] else parent]
              && s'.used == s.used + 1 && s'.serial == NextSerial(s.serial)
              && s'.running == s.running && s'.executed == s.executed
              && |s'.lists| == |s.lists|
              && forall l :: 0 <= l < |s.lists| ==>
                   s'.lists[l] == if l == flags.priority && l < LEVELS then s.lists[l] + [t] else s.lists[l]
  {
    if s.used != MAXCOUNT {
      var t := FreeSlot(s.ids, 0);
      SlotAvailable(s);
      SlotReturned(s, t);
    }
  }

  /** The first waiting task's control block gets the identity of a free one. */
  lemma ReapMeans(s: Sched, spots: Spots)
    requires Held(s, spots)
    ensures Enabled(s, OpReap)
    ensures var s', t := Reap(s), if s.lists[WAIT] == [] then 0 else s.lists[WAIT][0];
            if s.lists[WAIT] == [] then s' == s
            else
              && t < MAXCOUNT && s'.ids == s.ids[t := TaskId(0, t)] && s'.used == s.used - 1
              && s'.flags == s.flags && s'.parents == s.parents && s'.running == s.running
              && s'.executed == s.executed && s'.serial == s.serial && |s'.lists| == |s.lists|
              && forall l :: 0 <= l < |s.lists| ==>
                   s'.lists[l] == if l == WAIT then s.lists[l][1..] else s.lists[l]
  {
    ReapHeld(s, spots);
    if s.lists[WAIT] != [] {
      assert WithoutAt(s.lists[WAIT], 0) == s.lists[WAIT][1..];
      UnwaitHeld(s, spots);
    }
  }

  // ----- serial numbers

  function Serials(serial: nat, n: nat): nat {
    if n == 0 then serial else NextSerial(Serials(serial, n - 1))
  }

  /** The serial numbers run through 1 to 2^32 - 1 in turn, so none comes back before all others were given out. */
  lemma {:induction false} SerialsInTurn(serial: nat, n: nat)
    requires 0 < serial < 0x1_0000_0000
    ensures Serials(serial, n) == (serial - 1 + n) % 0xffff_ffff + 1
  {
    if n > 0 {
      SerialsInTurn(serial, n - 1);
    }
  }
}
