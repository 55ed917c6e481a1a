/**
 The scheduler itself: six linked lists over the pool of task control blocks, the counters of the ready
 lists, the running task and the pool's bookkeeping, all updated in place. Every operation leaves exactly
 the state and the links that `LinkStep` demands, whatever its search finds.
 */
module TaskScheduling {
  import opened LinkedLists
  import opened Scheduling
  import opened Placement
  import opened TaskSteps
  import opened TaskLinks
  import TaskRuns

  lemma HeldAfter(s: Sched, spots: Spots, op: Op, s': Sched, spots': Spots)
    requires Held(s, spots) && Enabled(s, op)
    requires s' == Step(s, op) && Listing(s'.lists, spots')
    ensures Held(s', spots')
  {
    ListsHeld(s, spots, op);
    OneListing(s'.lists, StepSpots(s, spots, op), spots');
  }

  lemma InitialArrays(ids: seq<TaskId>, flags: seq<Flags>, parents: seq<TaskId>, executed: seq<nat>)
    requires |ids| == |flags| == |parents| == MAXCOUNT && |executed| == LEVELS
    requires forall i :: 0 <= i < MAXCOUNT ==> ids[i] == TaskId(if i == 0 then 1 else 0, i)
    requires forall i :: 0 <= i < MAXCOUNT ==> flags[i] == Flags(0, false, i == 0)
    requires forall i :: 0 <= i < MAXCOUNT ==> parents[i] == TaskId(if i == 0 then 1 else 0, 0)
    requires forall i :: 0 <= i < LEVELS ==> executed[i] == 0
    ensures Sched(ids, flags, parents, [[], [], [], [], [], []], executed, 0, 1, 2) == Initial()
  {
    var s := Initial();
    assert ids == s.ids;
    assert flags == s.flags;
    assert parents == s.parents;
    assert executed == s.executed;
  }

  function SumLengths(queues: seq<seq<nat>>, l: nat): nat
    requires l <= |queues|
  {
    if l == 0 then 0 else SumLengths(queues, l - 1) + |queues[l - 1]|
  }

  lemma {:induction false} SumZero(queues: seq<seq<nat>>, l: nat)
    requires l <= |queues|
    ensures SumLengths(queues, l) == 0 <==> forall i :: 0 <= i < l ==> queues[i] == []
  {
    if l > 0 {
      SumZero(queues, l - 1);
    }
  }

  lemma SumOfFive(queues: seq<seq<nat>>)
    requires |queues| >= 5
    ensures SumLengths(queues, 5) == |queues[0]| + |queues[1]| + |queues[2]| + |queues[3]| + |queues[4]|
  {
    assert SumLengths(queues, 1) == |queues[0]|;
    assert SumLengths(queues, 3) == SumLengths(queues, 2) + |queues[2]|;
  }

  /** The head of list `p` has been taken; for `p` beyond the ready lists, none. */
  ghost predicate Taken(queues: seq<seq<nat>>, spots: Spots, p: nat, r: int, queues': seq<seq<nat>>, spots': Spots) {
    if p >= LEVELS then r == -1 && queues' == queues && spots' == spots
    else p < |queues| && queues[p] != [] && r == queues[p][0]
         && queues' == Drop(queues, p, 0) && spots' == DropSpot(spots, p, 0)
  }

  /** The state after a change of priority that `LinkStep` asks for. */
  ghost function Moved(m: Machine, id: TaskId, p: nat): Sched
    requires Ready(m) && SearchEnds(m, id) && p <= LEVELS
  {
    if Strays(m, id) then WithPriority(m.s, id.slot, p) else ChangePriority(m.s, id, p)
  }

  ghost function Halted(m: Machine, id: TaskId): Sched
    requires Ready(m) && SearchEnds(m, id)
  {
    if Strays(m, id) then Ended(m.s, id.slot) else End(m.s, id)
  }

  /** The links without the head of list `p`; for `p` beyond the ready lists, all of them. */
  function HeadTaken(links: Links, p: nat): Links
    requires |links.heads| == LEVELS + 1
  {
    if p >= LEVELS then links else HeadRemoved(links, p)
  }

  lemma CountedAfter(executed: seq<nat>, p: nat, cleared: seq<nat>, counted: seq<nat>)
    requires |executed| == LEVELS && p <= LEVELS && cleared == CLEARED[..p] + executed[p..]
    requires counted == if p < LEVELS then cleared[p := cleared[p] + 1] else cleared
    ensures counted == RoundExecuted(executed, p)
  {
    if p < LEVELS {
      ClearedStep(cleared, executed, p);
    }
  }

  lemma ClearedStep(e: seq<nat>, executed: seq<nat>, i: nat)
    requires |executed| == LEVELS && i < LEVELS && e == CLEARED[..i] + executed[i..]
    ensures e[i] == executed[i]
    ensures e[i := 0] == CLEARED[..i + 1] + executed[i + 1..]
    ensures e[i := executed[i] + 1] == CLEARED[..i] + [executed[i] + 1] + executed[i + 1..]
  {
  }

  class Scheduler {
    const next: array<int>
    const ids: array<TaskId>
    const flags: array<Flags>
    const parents: array<TaskId>
    const executed: array<nat>
    const lists: seq<LinkedList>
    var running: nat
    var used: nat
    var serial: nat
    ghost var queues: seq<seq<nat>>
    ghost var spots: Spots

    ghost function State(): Sched
      reads this, ids, flags, parents, executed
    {
      Sched(ids[..], flags[..], parents[..], queues, executed[..], running, used, serial)
    }

    ghost function Links(): Links
      reads next, lists
    {
      TaskLinks.Links(next[..], seq(|lists|, i requires 0 <= i < |lists| reads lists => lists[i].Head()))
    }

    ghost function Now(): Machine
      reads this, next, ids, flags, parents, executed, lists
    {
      Machine(State(), Links())
    }

    ghost predicate Layout()
      reads this
    {
      && next.Length == ids.Length == flags.Length == parents.Length == MAXCOUNT && executed.Length == LEVELS
      && ids != parents && |lists| == |queues| == LEVELS + 1
      && executed as object != next
      && forall i, j :: 0 <= i < j < |lists| ==> lists[i] != lists[j]
    }

    ghost predicate Holds(i: nat, items: seq<nat>)
      reads next, lists
    {
      i < |lists| && lists[i].items == items && lists[i].Valid(next)
    }

    ghost predicate Linked()
      reads this, next, lists
    {
      && Layout()
      && AllHold(queues)
      && Listing(queues, spots)
    }

    ghost predicate Valid()
      reads this, next, ids, flags, parents, executed, lists
    {
      Linked() && Held(State(), spots)
    }

    ghost predicate ListsBut(l: nat)
      requires Layout()
      reads this, next, lists
    {
      forall i :: 0 <= i < |lists| && i != l ==> Holds(i, queues[i])
    }

    ghost predicate AllHold(queues': seq<seq<nat>>)
      reads next, lists
    {
      |queues'| == |lists| && forall i :: 0 <= i < |lists| ==> Holds(i, queues'[i])
    }

    ghost method Rearrange(queues': seq<seq<nat>>, spots': Spots)
      requires Layout() && AllHold(queues') && Listing(queues', spots')
      modifies `queues, `spots
      ensures Linked() && queues == queues' && spots == spots'
    {
      queues, spots := queues', spots';
    }

    constructor ()
      ensures Valid() && Now() == TaskRuns.Start() && Placed(State(), spots)
      ensures fresh(next) && fresh(ids) && fresh(flags) && fresh(parents) && fresh(executed)
      ensures forall l :: l in lists ==> fresh(l)
    {
      next := new int[MAXCOUNT](_ => NULL);
      ids := new TaskId[MAXCOUNT](i => TaskId(if i == 0 then 1 else 0, i));
      flags := new Flags[MAXCOUNT](i => Flags(0, false, i == 0));
      parents := new TaskId[MAXCOUNT](i => TaskId(if i == 0 then 1 else 0, 0));
      executed := new nat[LEVELS](i => 0);
      var empty := EmptyLists(LEVELS + 1);
      lists := empty;
      queues := [[], [], [], [], [], []];
      running, used, serial := 0, 1, 2;
      spots := map[];
      new;
      InitialArrays(ids[..], flags[..], parents[..], executed[..]);
      Started();
    }

    lemma Started()
      requires Layout() && (forall i :: 0 <= i < |lists| ==> Empty(lists[i])) && spots == map[]
      requires State() == Initial() && next[..] == TaskRuns.Start().links.next
      ensures Valid() && Now() == TaskRuns.Start() && Placed(State(), spots)
    {
      InitialPlaced();
      AllEmpty();
    }

    static method EmptyLists(n: nat) returns (r: seq<LinkedList>)
      ensures |r| == n && (forall i, j :: 0 <= i < j < n ==> r[i] != r[j])
      ensures forall i :: 0 <= i < n ==> fresh(r[i]) && Empty(r[i])
    {
      r := [];
      for i := 0 to n
        invariant |r| == i && (forall j, k :: 0 <= j < k < i ==> r[j] != r[k])
        invariant forall j :: 0 <= j < i ==> fresh(r[j]) && Empty(r[j])
      {
        var l := new LinkedList();
        r := r + [l];
      }
    }

    static ghost predicate Empty(l: LinkedList)
      reads l
    {
      l.header == NULL && l.tail == NULL && l.count == 0 && l.items == []
    }

    lemma AllEmpty()
      requires forall i :: 0 <= i < |lists| ==> Empty(lists[i])
      requires |queues| == |lists| && forall i :: 0 <= i < |lists| ==> queues[i] == []
      ensures AllHold(queues) && Links().heads == seq(|lists|, _ => Anchor(NULL, NULL, 0))
    {
      forall i | 0 <= i < |lists| ensures Holds(i, queues[i]) && lists[i].Head() == Anchor(NULL, NULL, 0) {
        assert Empty(lists[i]);
      }
    }

    /** Valid lists are what the links show. */
    lemma LinksShow()
      requires Linked()
      ensures Shows(Links(), queues) && forall l :: 0 <= l < |lists| ==> Links().heads[l] == lists[l].Head()
    {
      forall l | 0 <= l < |queues| ensures ShowsList(Links(), l, queues[l]) {
        assert Holds(l, queues[l]);
      }
    }

    /** Only the head of list `l` has changed. */
    lemma HeadsNow(heads: seq<Anchor>, l: nat)
      requires |heads| == |lists| && l < |lists|
      requires forall i :: 0 <= i < |lists| && i != l ==> heads[i] == lists[i].Head()
      ensures Links().heads == heads[l := lists[l].Head()]
    {
    }

    /** With `sound`, the lists are in order and the task is on none of them; otherwise only the links matter. */
    method AddToList(l: nat, t: nat, ghost sound: bool)
      requires Layout() && l < |lists| && t < MAXCOUNT && (sound ==> Linked() && t !in spots)
      requires lists[l].header != NULL ==> 0 <= lists[l].tail < next.Length
      modifies next, lists[l], `queues, `spots
      ensures Layout() && Links() == Added(old(Links()), l, t)
      ensures sound ==> Linked() && queues == Append(old(queues), l, t)
                        && spots == old(spots)[t := Spot(l, |old(queues)[l]|)]
      ensures !sound ==> queues == old(queues) && spots == old(spots)
    {
      ghost var before, heads := next[..], Links().heads;
      assert sound ==> Holds(l, queues[l]) && t !in queues[l];
      lists[l].AddToTail(next, t);
      HeadsNow(heads, l);
      if sound {
        AppendedHold(before, l, t);
      }
    }

    ghost method AppendedHold(before: seq<int>, l: nat, t: nat)
      requires Layout() && Listing(queues, spots) && l < |lists| && t !in spots && |before| == next.Length
      requires Holds(l, queues[l] + [t])
      requires forall i :: 0 <= i < |lists| && i != l ==> HeldBefore(before, i, queues[i])
      requires forall n :: 0 <= n < |before| && n !in queues[l] && n != t ==> next[n] == before[n]
      modifies `queues, `spots
      ensures Linked() && queues == Append(old(queues), l, t)
      ensures spots == old(spots)[t := Spot(l, |old(queues)[l]|)]
    {
      forall i | 0 <= i < |lists| && i != l ensures Holds(i, queues[i]) {
        assert HeldBefore(before, i, queues[i]);
        OtherList(before, next[..], queues, spots, l, t, i, lists[i].header, lists[i].tail);
      }
      Appended(queues, spots, l, t);
      Rearrange(Append(queues, l, t), spots[t := Spot(l, |queues[l]|)]);
    }

    /** List `i` holds these items by the links of before. */
    ghost predicate HeldBefore(before: seq<int>, i: nat, items: seq<nat>)
      reads lists
    {
      && i < |lists| && lists[i].items == items && lists[i].count == |items|
      && Segment(before, lists[i].header, lists[i].tail, items)
    }

    ghost method DroppedHold(before: seq<int>, l: nat, k: nat)
      requires Layout() && Listing(queues, spots) && l < |lists| && k < |queues[l]| && |before| == next.Length
      requires Holds(l, WithoutAt(queues[l], k))
      requires forall i :: 0 <= i < |lists| && i != l ==> HeldBefore(before, i, queues[i])
      requires forall n :: 0 <= n < |before| && n !in queues[l] ==> next[n] == before[n]
      modifies `queues, `spots
      ensures Linked() && queues == Drop(old(queues), l, k) && spots == DropSpot(old(spots), l, k)
    {
      SameHold(before, l);
      Dropped(queues, spots, l, k);
      Rearrange(Drop(queues, l, k), DropSpot(spots, l, k));
    }

    lemma SameHold(before: seq<int>, l: nat)
      requires Layout() && Listing(queues, spots) && l < |lists| && |before| == next.Length
      requires forall i :: 0 <= i < |lists| && i != l ==> HeldBefore(before, i, queues[i])
      requires forall n :: 0 <= n < |before| && n !in queues[l] ==> next[n] == before[n]
      ensures ListsBut(l)
    {
      forall i | 0 <= i < |lists| && i != l ensures Holds(i, queues[i]) {
        assert HeldBefore(before, i, queues[i]);
        OtherList(before, next[..], queues, spots, l, NULL, i, lists[i].header, lists[i].tail);
      }
    }

    /** As `TakeOut`, without noting what has become of the lists. */
    method Cut(l: nat, id: TaskId, ghost path: seq<nat>) returns (r: int)
      requires Linked() && l < |lists| && Search(next[..], ids[..], id, lists[l].header, path)
      modifies next, lists[l]
      ensures Layout() && ids[..] == old(ids[..])
      ensures Links() == Removed(old(Links()), l, path, r) && r == Reached(old(next[..]), old(lists[l].header), path)
      ensures forall i :: 0 <= i < |lists| && i != l ==> HeldBefore(old(next[..]), i, queues[i])
      ensures |path| < |queues[l]| ==> Holds(l, WithoutAt(queues[l], |path|))
      ensures |path| < |queues[l]| || r == -1 ==>
                forall n :: 0 <= n < next.Length && n !in queues[l] ==> next[n] == old(next[n])
      ensures |path| >= |queues[l]| && r == -1 ==> Holds(l, queues[l])
    {
      ghost var heads := Links().heads;
      assert Holds(l, queues[l]);
      r := lists[l].Remove(next, ids, id, path);
      HeadsNow(heads, l);
    }

    /**
     Searches the task by its identity and unlinks it; -1 if the search comes to the end of the links. The search
     passes the tasks of `path`. A task on the list is taken out; one behind its tail leaves the lists in disorder.
     */
    method TakeOut(l: nat, id: TaskId, ghost path: seq<nat>) returns (r: int)
      requires Linked() && l < |lists| && Search(next[..], ids[..], id, lists[l].header, path)
      modifies next, lists[l], `queues, `spots
      ensures Layout() && ids[..] == old(ids[..])
      ensures Links() == Removed(old(Links()), l, path, r) && r == Reached(old(next[..]), old(lists[l].header), path)
      ensures |path| < |old(queues)[l]| ==>
                && Linked() && queues == Drop(old(queues), l, |path|) && spots == DropSpot(old(spots), l, |path|)
      ensures |path| >= |old(queues)[l]| ==> queues == old(queues) && spots == old(spots) && (r == -1 ==> Linked())
    {
      ghost var before := next[..];
      r := Cut(l, id, path);
      if |path| < |queues[l]| {
        DroppedHold(before, l, |path|);
      } else if r == NULL {
        SameHold(before, l);
      }
    }

    /** As `TakeHeader`, without noting what has become of the lists. */
    method CutHeader(l: nat) returns (r: int)
      requires Linked() && l < |lists|
      modifies next, lists[l]
      ensures Layout() && ids[..] == old(ids[..])
      ensures Links() == if queues[l] == [] then old(Links()) else HeadRemoved(old(Links()), l)
      ensures forall i :: 0 <= i < |lists| && i != l ==> HeldBefore(old(next[..]), i, queues[i])
      ensures forall n :: 0 <= n < next.Length && n !in queues[l] ==> next[n] == old(next[n])
      ensures queues[l] == [] ==> r == -1 && Holds(l, queues[l])
      ensures queues[l] != [] ==> r == queues[l][0] && Holds(l, WithoutAt(queues[l], 0))
    {
      ghost var heads := Links().heads;
      assert Holds(l, queues[l]);
      r := lists[l].RemoveFromHeader(next, ids);
      HeadsNow(heads, l);
      assert queues[l] != [] ==> WithoutAt(queues[l], 0) == queues[l][1..];
    }

    /** Takes the first task out of a list; -1 if the list is empty. */
    method TakeHeader(l: nat) returns (r: int)
      requires Linked() && l < |lists|
      modifies next, lists[l], `queues, `spots
      ensures Linked() && ids[..] == old(ids[..])
      ensures Links() == if old(queues)[l] == [] then old(Links()) else HeadRemoved(old(Links()), l)
      ensures old(queues)[l] == [] ==> r == -1 && queues == old(queues) && spots == old(spots)
      ensures old(queues)[l] != [] ==> r == old(queues)[l][0] && queues == Drop(old(queues), l, 0)
                                       && spots == DropSpot(old(spots), l, 0)
    {
      ghost var before := next[..];
      r := CutHeader(l);
      if r != NULL {
        DroppedHold(before, l, 0);
      } else {
        SameHold(before, l);
      }
    }

    // ----- the pool

    ghost predicate SlotsInPlace()
      reads ids
    {
      forall t :: 0 <= t < ids.Length ==> ids[t].slot == t
    }

    method AllocateTcb() returns (t: int)
      requires Linked() && SlotsInPlace() && used == |LiveTasks(ids[..])|
      modifies ids, `used, `serial
      ensures Linked() && spots == old(spots)
      ensures t == -1 <==> old(used) == MAXCOUNT
      ensures t == -1 ==> State() == old(State())
      ensures t != -1 ==> t == FreeSlot(old(ids[..]), 0) < MAXCOUNT && State() == TakeSlot(old(State()), t)
    {
      if used == MAXCOUNT {
        return -1;
      }
      var i := 0;
      LiveBound(ids[..]);
      while i < MAXCOUNT
        invariant 0 <= i <= MAXCOUNT && FreeSlot(ids[..], i) == FreeSlot(ids[..], 0) < MAXCOUNT
      {
        if ids[i].serial == 0 {
          break;
        }
        i := i + 1;
      }
      TakeTcb(i);
      t := i;
    }

    method TakeTcb(t: nat)
      requires Linked() && t < MAXCOUNT
      modifies ids, `used, `serial
      ensures Linked() && spots == old(spots) && State() == TakeSlot(old(State()), t)
    {
      ids[t] := TaskId(serial, t);
      used := used + 1;
      serial := NextSerial(serial);
    }

    method ReturnTcb(t: nat)
      requires Linked() && t < MAXCOUNT && used > 0
      modifies ids, `used
      ensures Linked() && spots == old(spots) && State() == FreeTcb(old(State()), t)
    {
      ids[t] := FreeId(t);
      used := used - 1;
    }

    method FindProcess(t: nat) returns (p: int)
      requires Layout() && Shape(State()) && t < MAXCOUNT
      ensures p == match ProcessOf(State(), t) case None => -1 case Some(q) => q
    {
      if flags[t].process {
        return t;
      }
      var parent := parents[t];
      if ids[parent.slot] != parent {
        return -1;
      }
      return parent.slot;
    }

    method SetUp(t: nat, process: nat, f: Flags)
      requires Linked() && Shape(State()) && t < MAXCOUNT && process < MAXCOUNT
      modifies parents, flags
      ensures Linked() && spots == old(spots) && State() == NewTask(old(State()), t, process, f)
    {
      parents[t] := ids[process];
      flags[t] := f;
    }

    // ----- the lists

    lemma ValidIsSound()
      requires Valid()
      ensures Sound(Now(), spots) && IsSound(Now()) && Ready(Now())
    {
      LinksShow();
      assert Sound(Now(), spots);
    }

    method AddToReadyList(t: nat, ghost sound: bool) returns (ok: bool)
      requires Layout() && t < MAXCOUNT && (sound ==> Linked() && t !in spots)
      requires TailsFit()
      modifies next, lists, `queues, `spots
      ensures Layout() && Links() == AddedReady(old(Links()), flags[t].priority, t)
      ensures sound ==> Linked() && State() == Scheduling.AddToReadyList(old(State()), t)
      ensures !sound ==> State() == old(State()) && spots == old(spots)
      ensures ok <==> flags[t].priority < LEVELS
    {
      var priority := flags[t].priority;
      if priority >= LEVELS {
        return false;
      }
      AddToList(priority, t, sound);
      return true;
    }

    /** The tail of every list that has a header is a control block. */
    ghost predicate TailsFit()
      reads next, lists
    {
      forall l :: 0 <= l < |lists| && lists[l].header != NULL ==> 0 <= lists[l].tail < next.Length
    }

    lemma TailsInPool()
      requires Linked()
      ensures TailsFit()
    {
      forall l | 0 <= l < |lists| && lists[l].header != NULL ensures 0 <= lists[l].tail < next.Length {
        assert Holds(l, queues[l]);
      }
    }

    method CreateTask(f: Flags) returns (r: int)
      requires Valid()
      modifies this, next, ids, flags, parents, lists
      ensures Valid() && Ready(old(Now())) && LinkEnabled(old(Now()), OpCreate(f))
              && Now() == LinkStep(old(Now()), OpCreate(f))
      ensures r == -1 <==> CreateFails(old(State()))
      ensures r != -1 ==> r == FreeSlot(old(ids[..]), 0) < ids.Length && ids[r] == TaskId(old(serial), r)
      ensures r != -1 ==>
                && r < flags.Length == parents.Length && flags[r] == f
                && parents[r] == if old(flags[running].process) then old(ids[running]) else old(parents[running])
      ensures forall t :: 0 <= t < ids.Length && t != r ==>
                ids[t] == old(ids[t]) && flags[t] == old(flags[t]) && parents[t] == old(parents[t])
    {
      ghost var s, spots0 := State(), spots;
      ValidIsSound();
      CreateMeans(s, f);
      r := CreateLinked(f);
      HeldAfter(s, spots0, OpCreate(f), State(), spots);
    }

    method CreateLinked(f: Flags) returns (r: int)
      requires Valid()
      modifies this, next, ids, flags, parents, lists
      ensures Linked() && State() == Create(old(State()), f)
      ensures |old(Links()).heads| == LEVELS + 1 && Links() == CreateLinks(old(Now()), f)
      ensures r == -1 <==> CreateFails(old(State()))
      ensures r != -1 ==> r == FreeSlot(old(ids[..]), 0) < ids.Length && ids[r] == TaskId(old(serial), r)
    {
      r := Prepare(f);
      if r != -1 {
        TailsInPool();
        var ok := AddToReadyList(r, true);
      }
    }

    /** Takes a control block and fills it in; -1 if there is none or the running task's process is gone. */
    method Prepare(f: Flags) returns (t: int)
      requires Valid()
      modifies ids, flags, parents, `used, `serial
      ensures Linked() && Links() == old(Links()) && spots == old(spots)
      ensures t == -1 <==> CreateFails(old(State()))
      ensures t == -1 ==> State() == Create(old(State()), f)
      ensures t != -1 ==> 0 <= t < MAXCOUNT && t == FreeSlot(old(ids[..]), 0) && t !in spots && flags[t] == f
      ensures t != -1 ==> ids[t] == TaskId(old(serial), t)
      ensures t != -1 ==> Scheduling.AddToReadyList(State(), t) == Create(old(State()), f)
    {
      ghost var s, spots0 := State(), spots;
      t := AllocateTcb();
      if t == -1 {
        return;
      }
      TakeSlotHeld(s, spots0, t);
      var process := FindProcess(running);
      if process == -1 {
        ReturnTcb(t);
        return -1;
      }
      SetUp(t, process, f);
    }

    // ----- switching

    method ListCount(l: nat) returns (n: nat)
      requires Linked() && l < |lists|
      ensures n == |queues[l]|
    {
      assert Holds(l, queues[l]);
      n := lists[l].count;
    }

    method TakeCounted(l: nat) returns (r: int)
      requires Linked() && l < LEVELS && queues[l] != []
      modifies next, lists[l], executed, `queues, `spots
      ensures Linked() && ids[..] == old(ids[..])
      ensures executed[..] == old(executed[..])[l := old(executed[..])[l] + 1]
      ensures Taken(old(queues), old(spots), l, r, queues, spots) && Links() == HeadRemoved(old(Links()), l)
    {
      Count(l);
      r := TakeHeader(l);
    }

    method Count(l: nat)
      requires Linked() && l < LEVELS
      modifies executed
      ensures Linked() && executed[..] == old(executed[..])[l := old(executed[..])[l] + 1]
    {
      executed[l] := executed[l] + 1;
    }

    /** One pass over the ready lists, from the highest priority down. */
    method PickInRound() returns (r: int)
      requires Linked()
      modifies next, lists, executed, `queues, `spots
      ensures Linked() && ids[..] == old(ids[..])
      ensures var p := Eligible(old(queues), old(executed[..]), 0);
              && executed[..] == RoundExecuted(old(executed[..]), p)
              && Taken(old(queues), old(spots), p, r, queues, spots)
              && Links() == HeadTaken(old(Links()), p)
    {
      ghost var executed0 := executed[..];
      var p := PassOver();
      ghost var cleared := executed[..];
      r := TakeFrom(p);
      CountedAfter(executed0, p, cleared, executed[..]);
    }

    /** Counts and takes the head of list `p`; none for `p` beyond the ready lists. */
    method TakeFrom(p: nat) returns (r: int)
      requires Linked() && p <= LEVELS && (p < LEVELS ==> queues[p] != [])
      modifies next, lists, executed, `queues, `spots
      ensures Linked() && ids[..] == old(ids[..]) && Taken(old(queues), old(spots), p, r, queues, spots)
      ensures Links() == HeadTaken(old(Links()), p)
      ensures p == LEVELS ==> executed[..] == old(executed[..])
      ensures p < LEVELS ==> executed[..] == old(executed[..])[p := old(executed[..])[p] + 1]
    {
      if p == LEVELS {
        return -1;
      }
      r := TakeCounted(p);
    }

    method GetNextTaskToRun() returns (r: int)
      requires Linked()
      modifies next, lists, executed, `queues, `spots
      ensures Linked() && ids[..] == old(ids[..])
      ensures executed[..] == NextExecuted(old(queues), old(executed[..]))
      ensures Taken(old(queues), old(spots), NextLevel(old(queues), old(executed[..])), r, queues, spots)
      ensures Links() == HeadTaken(old(Links()), NextLevel(old(queues), old(executed[..])))
    {
      for j := 0 to 2
        invariant Linked() && ids[..] == old(ids[..]) && queues == old(queues) && spots == old(spots)
        invariant Links() == old(Links())
        invariant j == 0 ==> executed[..] == old(executed[..])
        invariant j > 0 ==> executed[..] == CLEARED && Eligible(queues, old(executed[..]), 0) == LEVELS
        invariant j == 2 ==> Eligible(queues, CLEARED, 0) == LEVELS
      {
        r := PickInRound();
        if r != -1 {
          return;
        }
      }
      return -1;
    }

    /** Clears the counters of the levels that have had their share, up to the first one that has not. */
    method PassOver() returns (p: nat)
      requires Linked()
      modifies executed
      ensures Linked() && Links() == old(Links()) && p == Eligible(queues, old(executed[..]), 0)
      ensures executed[..] == CLEARED[..p] + old(executed[..])[p..]
      ensures p < LEVELS ==> queues[p] != []
    {
      ghost var executed0 := executed[..];
      for i := 0 to LEVELS
        invariant Linked() && Links() == old(Links())
        invariant Eligible(queues, executed0, i) == Eligible(queues, executed0, 0)
        invariant executed[..] == CLEARED[..i] + executed0[i..]
      {
        var count := ListCount(i);
        ClearedStep(executed[..], executed0, i);
        if executed[i] < count {
          return i;
        }
        ClearCount(i);
      }
      return LEVELS;
    }

    method ClearCount(i: nat)
      requires Linked() && i < LEVELS
      modifies executed
      ensures Linked() && Links() == old(Links()) && executed[..] == old(executed[..])[i := 0]
    {
      executed[i] := 0;
    }

    method PutTaskBack(t: nat)
      requires Linked() && t < MAXCOUNT && t !in spots
      modifies next, lists, `queues, `spots
      ensures Linked() && State() == PutBack(old(State()), t)
      ensures Links() == PutBackLinks(old(Links()), flags[t], t)
    {
      TailsInPool();
      if flags[t].ended {
        AddToList(WAIT, t, true);
      } else {
        var ok := AddToReadyList(t, true);
      }
    }

    /** Runs the next task, if there is one, and puts the one that ran where it belongs. */
    method SwitchTask() returns (ok: bool)
      requires Valid()
      modifies next, lists, executed, `queues, `spots, `running
      ensures Valid() && State() == Switch(old(State())) && Links() == SwitchLinks(old(Now()))
      ensures ok <==> !NoneReady(old(queues))
    {
      ghost var s, spots0 := State(), spots;
      NoneFoundIffNoneReady(queues, executed[..]);
      ok := RunNext();
      HeldAfter(s, spots0, OpInterrupt, State(), spots);
    }

    method RunNext() returns (ok: bool)
      requires Valid()
      modifies next, lists, executed, `queues, `spots, `running
      ensures Linked() && State() == Switch(old(State())) && Links() == SwitchLinks(old(Now()))
      ensures ok <==> NextLevel(old(queues), old(executed[..])) != LEVELS
    {
      NoneFoundIffNoneReady(queues, executed[..]);
      ghost var m, spots0 := Now(), spots;
      var r := GetNextTaskToRun();
      if r == -1 {
        return false;
      }
      RunInstead(m, spots0, r);
      return true;
    }

    /** Lets task `r` run, the head of its list, and puts the task that ran where it belongs. */
    method RunInstead(ghost m: Machine, ghost spots0: Spots, r: nat)
      requires Linked() && Held(m.s, spots0) && |m.links.heads| == LEVELS + 1
      requires var p := NextLevel(m.s.lists, m.s.executed);
               && p < LEVELS && m.s.lists[p] != [] && r == m.s.lists[p][0] && spots == DropSpot(spots0, p, 0)
               && State().(running := r) == Resume(m.s, p) && Links() == HeadRemoved(m.links, p)
      requires running == m.s.running
      modifies next, lists, `queues, `spots, `running
      ensures Linked() && State() == Switch(m.s) && Links() == SwitchLinks(m)
    {
      ResumeHeld(m.s, spots0, NextLevel(m.s.lists, m.s.executed));
      var before := running;
      running := r;
      assert State() == Resume(m.s, NextLevel(m.s.lists, m.s.executed));
      PutTaskBack(before);
    }

    method ReadyCount() returns (n: nat)
      requires Linked()
      ensures n == SumLengths(queues, LEVELS)
      ensures n == 0 <==> NoneReady(queues)
    {
      n := 0;
      for i := 0 to LEVELS
        invariant n == SumLengths(queues, i)
      {
        var count := ListCount(i);
        n := n + count;
      }
      SumZero(queues, LEVELS);
    }

    /** The number of tasks: all that are ready, all that wait, and the one that runs. */
    method GetTaskCount() returns (n: nat)
      requires Valid()
      ensures n == TaskCount(State()) <= used
      ensures n == used <==> LiveTasks(ids[..]) == spots.Keys + {running}
    {
      var ready := ReadyCount();
      var waiting := ListCount(WAIT);
      SumOfFive(queues);
      TaskCountIsUseCount(State(), spots);
      return ready + waiting + 1;
    }

    /** The running task gives up the processor. */
    method Schedule()
      requires Valid()
      modifies next, lists, executed, `queues, `spots, `running
      ensures Valid() && Ready(old(Now())) && LinkEnabled(old(Now()), OpSchedule)
              && Now() == LinkStep(old(Now()), OpSchedule)
    {
      var count := ReadyCount();
      if count < 1 {
        return;
      }
      var ok := SwitchTask();
    }

    /** The timer takes the processor away from the running task. */
    method ScheduleInInterrupt() returns (ok: bool)
      requires Valid()
      modifies next, lists, executed, `queues, `spots, `running
      ensures Valid() && Ready(old(Now())) && LinkEnabled(old(Now()), OpInterrupt)
              && Now() == LinkStep(old(Now()), OpInterrupt)
      ensures ok <==> !NoneReady(old(queues))
    {
      ok := SwitchTask();
    }

    /**
     Searches the list of its priority for the task with this identity and unlinks it; -1 if the identity names none,
     or the search comes to the end of the links.
     */
    method RemoveTaskFromReadyList(id: TaskId) returns (r: int)
      requires Valid() && Ready(Now()) && SearchEnds(Now(), id) && id != ids[running]
      modifies next, lists, `queues, `spots
      ensures Layout() && r == if Finds(old(Now()), id) then id.slot else -1
      ensures Links() == if Finds(old(Now()), id) then Searched(old(Now()), id) else old(Links())
      ensures if Listed(old(State()), id) then State() == TakeFromList(old(State()), id.slot) && id.slot !in spots
              else State() == old(State()) && spots == old(spots)
      ensures (!Strays(old(Now()), id) ==> Linked()) && TailsFit()
    {
      TailsInPool();
      if id.slot >= MAXCOUNT || ids[id.slot] != id {
        return -1;
      }
      ghost var m, spots0 := Now(), spots;
      ValidIsSound();
      var l := flags[id.slot].priority;
      ghost var path := Course(m.links, m.s.ids, l, id);
      CourseMeets(m, spots, id);
      if Listed(m.s, id) {
        DropSpotKeys(queues, spots, l, |path|);
      }
      r := TakeOut(l, id, path);
      if Strays(m, id) {
        StrayCourse(m, spots0, id);
        TailsStay(m.links.heads, l);
      } else {
        TailsInPool();
      }
    }

    lemma TailsStay(heads: seq<Anchor>, l: nat)
      requires |heads| == |lists| && l < |lists| && Links().heads == heads[l := Links().heads[l]]
      requires Links().heads[l].header == heads[l].header && Links().heads[l].tail == heads[l].tail
      requires forall i :: 0 <= i < |heads| && heads[i].header != NULL ==> 0 <= heads[i].tail < next.Length
      ensures TailsFit()
    {
      forall i | 0 <= i < |lists| && lists[i].header != NULL ensures 0 <= lists[i].tail < next.Length {
        assert lists[i].Head() == Links().heads[i];
      }
    }

    method SetPriority(t: nat, p: nat)
      requires Layout() && t < MAXCOUNT
      modifies flags
      ensures Links() == old(Links()) && State() == WithPriority(old(State()), t, p) && (old(Linked()) ==> Linked())
    {
      flags[t] := flags[t].(priority := p);
    }

    method MarkEnded(t: nat)
      requires Layout() && t < MAXCOUNT
      modifies flags
      ensures Links() == old(Links()) && State() == Ended(old(State()), t) && (old(Linked()) ==> Linked())
    {
      flags[t] := flags[t].(ended := true);
      flags[t] := flags[t].(priority := WAIT_PRIORITY);
    }

    /** Which pool offsets are accepted, as signed 32-bit numbers, and which of those lie in the pool. */
    method GetTcbInPool(slot: nat) returns (accepted: bool, inside: bool)
      requires slot < SERIALS
      ensures accepted <==> inside || OutsidePool(slot)
      ensures inside <==> slot < MAXCOUNT
    {
      var offset := if slot < SERIALS / 2 then slot else slot - SERIALS;
      accepted := !(offset < -1 || offset > MAXCOUNT);
      inside := 0 <= offset < MAXCOUNT;
    }

    /** The scheduler is in order after an operation exactly if that has found nothing behind the tail of a list. */
    lemma ValidAfter(m: Machine, spots0: Spots, op: Op)
      requires Sound(m, spots0) && LinkEnabled(m, op) && Now() == LinkStep(m, op)
      requires !FindsBehind(m, op) ==> Linked()
      ensures Valid() <==> !FindsBehind(m, op)
    {
      if FindsBehind(m, op) {
        BehindIsNotHeld(m, spots0, op);
        if Valid() {
          ValidIsSound();
        }
      } else {
        StepSound(m, spots0, op);
        HeldAfter(m.s, spots0, op, State(), spots);
      }
    }

    /**
     Changes a priority. The lists are in order afterwards exactly if the task was not found behind the tail of one.
     `stray` tells that the flags written are not those of a control block: the identity names none, and its offset
     is one of the two that are accepted though they lie outside the pool.
     */
    method ChangePriority(id: TaskId, p: nat) returns (ok: bool, stray: bool)
      requires Valid() && Ready(Now()) && SearchEnds(Now(), id) && id.slot < SERIALS
      modifies next, lists, flags, `queues, `spots
      ensures LinkEnabled(old(Now()), OpChangePriority(id, p))
      ensures Now() == LinkStep(old(Now()), OpChangePriority(id, p))
      ensures Valid() <==> !FindsBehind(old(Now()), OpChangePriority(id, p))
      ensures (ok <==> p <= LEVELS) && (stray <==> p <= LEVELS && OutsidePool(id.slot))
      ensures if p <= LEVELS && id.slot < MAXCOUNT then OnlyPriority(old(State()), State(), id.slot, p)
              else flags[..] == old(flags[..])
    {
      ghost var m, spots0 := Now(), spots;
      ValidIsSound();
      ChangeSetsPriority(m, spots, id, p);
      stray := false;
      if p > LEVELS {
        return false, false;
      }
      if id == ids[running] {
        SetPriority(running, p);
      } else {
        stray := MoveTask(id, p);
      }
      ValidAfter(m, spots0, OpChangePriority(id, p));
      ok := true;
    }

    /** Changes the priority of a task that does not run. */
    method MoveTask(id: TaskId, p: nat) returns (stray: bool)
      requires Valid() && Ready(Now()) && SearchEnds(Now(), id) && id.slot < SERIALS
      requires id != ids[running] && p <= LEVELS
      modifies next, lists, flags, `queues, `spots
      ensures State() == Moved(old(Now()), id, p) && Links() == ChangeLinks(old(Now()), id, p)
      ensures !Strays(old(Now()), id) ==> Linked()
      ensures stray <==> OutsidePool(id.slot)
    {
      ghost var m := Now();
      ValidIsSound();
      FindsIff(m, spots, id);
      var target := RemoveTaskFromReadyList(id);
      stray := false;
      if target == -1 {
        var accepted, inside := GetTcbInPool(id.slot);
        stray := accepted && !inside;
        if inside {
          SetPriority(id.slot, p);
        }
      } else {
        SetPriority(target, p);
        var added := AddToReadyList(target, Listed(m.s, id));
      }
    }

    /** Marks a task as ended; it waits at once, or when it next stops running. `stray` is as above. */
    method EndTask(id: TaskId) returns (ok: bool, stray: bool)
      requires Valid() && Ready(Now()) && SearchEnds(Now(), id) && id.slot < SERIALS
      modifies next, lists, flags, executed, `queues, `spots, `running
      ensures LinkEnabled(old(Now()), OpEnd(id)) && Now() == LinkStep(old(Now()), OpEnd(id))
      ensures Valid() <==> !FindsBehind(old(Now()), OpEnd(id))
      ensures (ok <==> Finds(old(Now()), id)) && (stray <==> OutsidePool(id.slot))
      ensures if id.slot < MAXCOUNT then OnlyMarked(old(State()), State(), id.slot) else flags[..] == old(flags[..])
    {
      ghost var m, spots0 := Now(), spots;
      ValidIsSound();
      EndSetsMark(m, spots, id);
      if id == ids[running] {
        MarkEnded(running);
        SetFlagsHeld(m.s, spots0, running, flags[running]);
        Schedule();
        return false, false;
      }
      ok, stray := EndOther(id);
      ValidAfter(m, spots0, OpEnd(id));
    }

    /** Ends a task that does not run. */
    method EndOther(id: TaskId) returns (ok: bool, stray: bool)
      requires Valid() && Ready(Now()) && SearchEnds(Now(), id) && id.slot < SERIALS && id != ids[running]
      modifies next, lists, flags, `queues, `spots
      ensures State() == Halted(old(Now()), id) && Links() == EndLinks(old(Now()), id)
      ensures !Strays(old(Now()), id) ==> Linked()
      ensures (ok <==> Finds(old(Now()), id)) && (stray <==> OutsidePool(id.slot))
    {
      ghost var m := Now();
      ValidIsSound();
      FindsIff(m, spots, id);
      var target := RemoveTaskFromReadyList(id);
      ok, stray := target != -1, false;
      if ok {
        MarkEnded(target);
        AddToList(WAIT, target, Listed(m.s, id));
      } else {
        var accepted, inside := GetTcbInPool(id.slot);
        stray := accepted && !inside;
        if inside {
          MarkEnded(id.slot);
        }
      }
    }

    /** Frees the control block of the first waiting task. */
    method ReapTask() returns (r: int)
      requires Valid()
      modifies next, lists, ids, `queues, `spots, `used
      ensures Valid() && Ready(old(Now())) && LinkEnabled(old(Now()), OpReap) && Now() == LinkStep(old(Now()), OpReap)
      ensures r == if old(queues)[WAIT] == [] then -1 else old(queues)[WAIT][0]
    {
      ghost var m, spots0 := Now(), spots;
      ValidIsSound();
      ReapHeld(m.s, spots0);
      SomeUsed(m.s);
      r := TakeHeader(WAIT);
      if r != -1 {
        ReturnTcb(r);
      }
      HeldAfter(m.s, spots0, OpReap, State(), spots);
    }
  }
}
