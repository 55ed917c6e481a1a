/**
 Runs from the start in which the scheduler goes wrong: an old identity moves a task to a priority whose list it is
 not on, and a search that overruns the tail of a list brings a lost task back, or puts a waiting one on a ready list.
 */
module TaskScenarios {
  import opened LinkedLists
  import opened Scheduling
  import opened Placement
  import opened TaskSteps
  import opened TaskLinks
  import opened TaskRuns

  const READY: Flags := Flags(2, false, false)
  const BOTH_READY: seq<seq<nat>> := [[], [], [1, 2], [], [], []]
  const FIRST_READY: seq<seq<nat>> := [[], [], [1], [], [], []]
  const SECOND_WAITS: seq<seq<nat>> := [[], [], [1], [], [], [2]]
  const NONE_LISTED: seq<seq<nat>> := [[], [], [], [], [], []]

  lemma ListsBetween()
    ensures Append(NONE_LISTED, 2, 1) == FIRST_READY && Append(FIRST_READY, 2, 2) == BOTH_READY
    ensures Append(FIRST_READY, WAIT, 2) == SECOND_WAITS && Drop(SECOND_WAITS, WAIT, 0) == FIRST_READY
    ensures Drop(BOTH_READY, 2, 1) == FIRST_READY && BOTH_READY[2][..1] == [1]
  {
    assert NONE_LISTED[2] + [1] == [1] && FIRST_READY[2] + [2] == [1, 2] && FIRST_READY[WAIT] + [2] == [2];
    assert WithoutAt(SECOND_WAITS[WAIT], 0) == [] && WithoutAt(BOTH_READY[2], 1) == [1];
  }

  /** The task in slot 0 runs; `lists` tells of the tasks in slots 1 and 2, whose identities are these. */
  ghost predicate Scene(m: Machine, first: TaskId, second: TaskId, f: Flags, lists: seq<seq<nat>>, serial: nat) {
    && IsSound(m) && m.s.running == 0 && m.s.lists == lists && m.s.serial == serial && m.s.used <= 3
    && |m.s.ids| == |m.s.flags| == |m.s.parents| == MAXCOUNT
    && m.s.ids[1] == first && m.s.ids[2] == second && m.s.flags[2] == f && m.s.flags[0].process
  }

  lemma RunMore(m: Machine, op: Op, ops: seq<Op>, m': Machine)
    requires Ready(m) && LinkEnabled(m, op) && !FindsBehind(m, op)
    requires NoneBehind(LinkStep(m, op), ops) && Run(LinkStep(m, op), ops) == m'
    ensures NoneBehind(m, [op] + ops) && Run(m, [op] + ops) == m'
  {
    assert ([op] + ops)[1..] == ops;
  }

  /** A step of a run, which finds nothing behind a tail. */
  ghost predicate Goes(m: Machine, op: Op, m': Machine) {
    Ready(m) && LinkEnabled(m, op) && !FindsBehind(m, op) && m' == LinkStep(m, op)
  }

  lemma Created(m: Machine, t: nat) returns (m': Machine)
    requires IsSound(m) && m.s.running == 0 && m.s.flags[0].process && m.s.used < MAXCOUNT
    requires 0 < t < MAXCOUNT && !Live(m.s.ids, t) && forall k :: 0 <= k < t ==> Live(m.s.ids, k)
    ensures Goes(m, OpCreate(READY), m') && IsSound(m')
    ensures m'.s.ids == m.s.ids[t := TaskId(m.s.serial, t)] && m'.s.flags == m.s.flags[t := READY]
    ensures 2 < |m.s.lists| && m'.s.lists == Append(m.s.lists, 2, t)
    ensures m'.s.running == 0 && m'.s.serial == NextSerial(m.s.serial) && m'.s.used == m.s.used + 1
    ensures |m'.s.parents| == MAXCOUNT
  {
    SoundIsHeld(m);
    SlotAvailable(m.s);
    assert FreeSlot(m.s.ids, 0) == t;
    m' := LinkStep(m, OpCreate(READY));
    StepHeldIff(m, OpCreate(READY));
  }

  /** Two tasks are created, in slots 1 and 2. */
  lemma BothCreated() returns (m1: Machine, m2: Machine)
    ensures Goes(Start(), OpCreate(READY), m1) && Goes(m1, OpCreate(READY), m2)
    ensures Scene(m2, TaskId(2, 1), TaskId(3, 2), READY, BOTH_READY, 4)
  {
    StartPlaced();
    ListsBetween();
    m1 := Created(Start(), 1);
    m2 := Created(m1, 2);
  }

  /** The links of the ready list that holds both tasks. */
  lemma BothLinked(m: Machine, first: TaskId, second: TaskId, serial: nat)
    requires Scene(m, first, second, READY, BOTH_READY, serial) && second.slot == 2
    ensures Ready(m) && |m.links.next| == MAXCOUNT && m.links.next[1] == 2
    ensures m.links.heads[2] == Anchor(1, 2, 2) && m.links.heads[WAIT] == Anchor(NULL, NULL, 0)
    ensures Listed(m.s, second) && SearchEnds(m, second)
    ensures Finds(m, second) && Searched(m, second) == Links(m.links.next, m.links.heads[2 := Anchor(1, 1, 1)])
    ensures Drop(BOTH_READY, 2, IndexOf(BOTH_READY[2], 2)) == FIRST_READY
  {
    SoundIsHeld(m);
    var spots :| Sound(m, spots);
    assert ShowsList(m.links, 2, BOTH_READY[2]) && ShowsList(m.links, WAIT, BOTH_READY[WAIT]);
    assert LinkedLists.Linked(m.links.next, BOTH_READY[2], 0);
    assert BOTH_READY[2][1] == 2;
    ListedFound(m, spots, second);
    assert IndexOf(BOTH_READY[2], 2) == 1;
    ListsBetween();
  }

  /** The second of the two is ended: it waits, and the first one's link still leads to it. */
  lemma SecondEnded(m: Machine, first: TaskId, second: TaskId, serial: nat) returns (m': Machine)
    requires Scene(m, first, second, READY, BOTH_READY, serial) && second.slot == 2
    ensures Goes(m, OpEnd(second), m') && |m'.links.next| == MAXCOUNT && m'.links.next[1] == 2
    ensures Scene(m', first, second, Flags(WAIT_PRIORITY, true, false), SECOND_WAITS, serial)
  {
    BothLinked(m, first, second, serial);
    m' := LinkStep(m, OpEnd(second));
    StepHeldIff(m, OpEnd(second));
    ListsBetween();
  }

  /** It is freed. */
  lemma SecondReaped(m: Machine, first: TaskId, second: TaskId, f: Flags, serial: nat) returns (m': Machine)
    requires Scene(m, first, second, f, SECOND_WAITS, serial)
    ensures Goes(m, OpReap, m') && Scene(m', first, FreeId(2), f, FIRST_READY, serial) && m'.s.used < m.s.used
  {
    SoundIsHeld(m);
    var spots :| Sound(m, spots);
    ReapHeld(m.s, spots);
    m' := LinkStep(m, OpReap);
    StepHeldIff(m, OpReap);
    ListsBetween();
  }

  /** Another task is created in its slot. */
  lemma SlotPassedOn(m: Machine, first: TaskId, f: Flags, serial: nat) returns (m': Machine)
    requires Scene(m, first, FreeId(2), f, FIRST_READY, serial) && first.serial != 0 && 0 < serial < SERIALS - 1
    requires m.s.used <= 2
    ensures Goes(m, OpCreate(READY), m') && Scene(m', first, TaskId(serial, 2), READY, BOTH_READY, serial + 1)
  {
    SoundIsHeld(m);
    m' := Created(m, 2);
    ListsBetween();
  }

  /** The search for the second task runs from the first one, the tail, to where its link leads. */
  lemma FoundBehind(m: Machine, first: TaskId, second: TaskId, f: Flags, lists: seq<seq<nat>>, serial: nat)
    requires Scene(m, first, second, f, lists, serial) && lists in {FIRST_READY, SECOND_WAITS}
    requires f.priority == 2 && second.slot == 2 && first != second
    requires |m.links.next| == MAXCOUNT && m.links.next[1] == 2
    ensures Ready(m) && LinkEnabled(m, OpChangePriority(second, 3)) && FindsBehind(m, OpChangePriority(second, 3))
  {
    SoundIsHeld(m);
    assert ShowsList(m.links, 2, lists[2]) && lists[2] == [1];
    var path: seq<nat> := [1];
    assert path[..0] == [] && Passed(m.links.next, m.s.ids, second, m.links.heads[2].header, path, 0);
    CourseIs(m.links, m.s.ids, 2, second, path);
  }

  /** The second of the two is given priority 5 and is lost; the first one's link still leads to it. */
  lemma SecondLost(m: Machine, first: TaskId, second: TaskId, serial: nat) returns (m': Machine)
    requires Scene(m, first, second, READY, BOTH_READY, serial) && second.slot == 2 && second.serial != 0
    ensures Goes(m, OpChangePriority(second, 5), m') && |m'.links.next| == MAXCOUNT && m'.links.next[1] == 2
    ensures Scene(m', first, second, READY.(priority := 5), FIRST_READY, serial) && Lost(m'.s, 2)
  {
    BothLinked(m, first, second, serial);
    m' := LinkStep(m, OpChangePriority(second, 5));
    StepHeldIff(m, OpChangePriority(second, 5));
  }

  /** By its own identity it is given priority 2 again: the wait list is searched in vain, and it stays lost. */
  lemma LostInPlace(m: Machine, first: TaskId, second: TaskId, serial: nat) returns (m': Machine)
    requires Scene(m, first, second, READY.(priority := 5), FIRST_READY, serial) && second.slot == 2
    requires second.serial != 0
    ensures Goes(m, OpChangePriority(second, 2), m') && m'.links == m.links
    ensures Scene(m', first, second, READY, FIRST_READY, serial) && Lost(m'.s, 2)
  {
    SoundIsHeld(m);
    assert ShowsList(m.links, WAIT, FIRST_READY[WAIT]);
    CourseIs(m.links, m.s.ids, WAIT, second, []);
    m' := LinkStep(m, OpChangePriority(second, 2));
    StepHeldIff(m, OpChangePriority(second, 2));
  }

  /**
   A lost task comes back. Two tasks are created, the second is given priority 5 and then 2, always by its current
   identity, and is lost. Giving it priority 3 now finds it behind the first one: it is on a ready list again, and
   the head of the list behind which it was found fits no list.
   */
  lemma LostTaskReturns() returns (ops: seq<Op>, op: Op)
    ensures NoneBehind(Start(), ops)
    ensures var m := Run(Start(), ops);
            && Ready(m) && Lost(m.s, 2) && LinkEnabled(m, op) && Revives(m, op, 2) && op.OpChangePriority?
            && Names(m.s, op.id) && !LostAt(LinkStep(m, op), 2) && !IsHeld(LinkStep(m, op))
  {
    var m1, m2 := BothCreated();
    var id := TaskId(3, 2);
    var m3 := SecondLost(m2, TaskId(2, 1), id, 4);
    var m4 := LostInPlace(m3, TaskId(2, 1), id, 4);
    op := OpChangePriority(id, 3);
    FoundBehind(m4, TaskId(2, 1), id, READY, FIRST_READY, 4);
    var spots :| Sound(m4, spots);
    LostUnlessRevived(m4, spots, op, 2);
    StepHeldIff(m4, op);
    ops := FourSteps(Start(), OpCreate(READY), m1, OpCreate(READY), m2, OpChangePriority(id, 5), m3,
                     OpChangePriority(id, 2), m4);
  }

  lemma FourSteps(m0: Machine, a: Op, m1: Machine, b: Op, m2: Machine, c: Op, m3: Machine, d: Op, m4: Machine)
    returns (ops: seq<Op>)
    requires Goes(m0, a, m1) && Goes(m1, b, m2) && Goes(m2, c, m3) && Goes(m3, d, m4)
    ensures NoneBehind(m0, ops) && Run(m0, ops) == m4
  {
    ops := [];
    RunMore(m3, d, ops, m4);
    ops := [d] + ops;
    RunMore(m2, c, ops, m4);
    ops := [c] + ops;
    RunMore(m1, b, ops, m4);
    ops := [b] + ops;
    RunMore(m0, a, ops, m4);
    ops := [a] + ops;
  }

  lemma StaysPlaced(m: Machine, op: Op, m': Machine)
    requires IsSound(m) && IsPlaced(m.s) && Goes(m, op, m') && Keeps(m.s, op)
    ensures IsSound(m') && IsPlaced(m'.s)
  {
    StepHeldIff(m, op);
    StepPlacedIff(m, op);
  }

  /** Two tasks are created; the second is ended and reaped, and another one is created in its slot. */
  lemma SlotReused() returns (ops: seq<Op>, m: Machine)
    ensures NoneBehind(Start(), ops) && Run(Start(), ops) == m && IsPlaced(m.s)
    ensures Scene(m, TaskId(2, 1), TaskId(4, 2), READY, BOTH_READY, 5)
  {
    StartPlaced();
    var m1, m2 := BothCreated();
    var id := TaskId(3, 2);
    var m3 := SecondEnded(m2, TaskId(2, 1), id, 4);
    var m4 := SecondReaped(m3, TaskId(2, 1), id, Flags(WAIT_PRIORITY, true, false), 4);
    m := SlotPassedOn(m4, TaskId(2, 1), Flags(WAIT_PRIORITY, true, false), 4);
    StaysPlaced(Start(), OpCreate(READY), m1);
    StaysPlaced(m1, OpCreate(READY), m2);
    BothLinked(m2, TaskId(2, 1), id, 4);
    StaysPlaced(m2, OpEnd(id), m3);
    StaysPlaced(m3, OpReap, m4);
    StaysPlaced(m4, OpCreate(READY), m);
    ops := FourSteps(m1, OpCreate(READY), m2, OpEnd(id), m3, OpReap, m4, OpCreate(READY), m);
    RunMore(Start(), OpCreate(READY), ops, m);
    ops := [OpCreate(READY)] + ops;
  }

  /**
   After such a run, changing a priority by the identity of the task that is gone leaves the one that has taken over
   its slot in the list of a priority that it does not have.
   */
  lemma OldIdentityMisplaces() returns (ops: seq<Op>, op: Op)
    ensures NoneBehind(Start(), ops)
    ensures var m := Run(Start(), ops);
            && IsPlaced(m.s) && Ready(m) && LinkEnabled(m, op) && op.OpChangePriority? && !Names(m.s, op.id)
            && !FindsBehind(m, op) && !AllPlaced(LinkStep(m, op))
  {
    var m;
    ops, m := SlotReused();
    SoundIsHeld(m);
    op := OpChangePriority(TaskId(3, 2), 3);
    assert 2 in BOTH_READY[2] && 2 !in BOTH_READY[WAIT];
    StepPlacedIff(m, op);
  }

  /** The old identity gives the second task, which waits, priority 2. */
  lemma WaitingRenamed(m: Machine, first: TaskId, second: TaskId, serial: nat, stale: TaskId) returns (m': Machine)
    requires Scene(m, first, second, Flags(WAIT_PRIORITY, true, false), SECOND_WAITS, serial)
    requires stale.slot == second.slot == 2 && stale != second && m.s.ids[0] != stale
    ensures Goes(m, OpChangePriority(stale, 2), m') && m'.links == m.links && Keeps(m.s, OpChangePriority(stale, 2))
    ensures Scene(m', first, second, Flags(2, true, false), SECOND_WAITS, serial)
  {
    SoundIsHeld(m);
    assert 2 in SECOND_WAITS[WAIT];
    m' := LinkStep(m, OpChangePriority(stale, 2));
    StepHeldIff(m, OpChangePriority(stale, 2));
  }

  /**
   With every task in its place and a change of priority that `Keeps` allows, by the current identity of a task that
   waits: the search for it finds it behind the tail of a ready list, and the task is on two lists.
   */
  lemma WaitingTaskFound() returns (ops: seq<Op>, op: Op)
    ensures NoneBehind(Start(), ops)
    ensures var m := Run(Start(), ops);
            && IsPlaced(m.s) && Ready(m) && LinkEnabled(m, op) && op.OpChangePriority? && Names(m.s, op.id)
            && Keeps(m.s, op) && FindsBehind(m, op) && !AllPlaced(LinkStep(m, op))
  {
    var before, m5 := SlotReused();
    var id, stale := TaskId(4, 2), TaskId(3, 2);
    BothLinked(m5, TaskId(2, 1), id, 5);
    var m6 := SecondEnded(m5, TaskId(2, 1), id, 5);
    StaysPlaced(m5, OpEnd(id), m6);
    SoundIsHeld(m6);
    var m7 := WaitingRenamed(m6, TaskId(2, 1), id, 5, stale);
    StaysPlaced(m6, OpChangePriority(stale, 2), m7);
    op := OpChangePriority(id, 3);
    FoundBehind(m7, TaskId(2, 1), id, Flags(2, true, false), SECOND_WAITS, 5);
    assert 2 in SECOND_WAITS[WAIT];
    StepPlacedIff(m7, op);
    RunOn(Start(), before, m5, OpEnd(id), m6);
    RunOn(Start(), before + [OpEnd(id)], m6, OpChangePriority(stale, 2), m7);
    ops := before + [OpEnd(id)] + [OpChangePriority(stale, 2)];
  }

  lemma {:induction false} RunOn(m: Machine, ops: seq<Op>, m': Machine, op: Op, m'': Machine)
    requires NoneBehind(m, ops) && Run(m, ops) == m' && Goes(m', op, m'')
    ensures NoneBehind(m, ops + [op]) && Run(m, ops + [op]) == m''
    decreases |ops|
  {
    if ops == [] {
      RunMore(m, op, [], m'');
      assert [] + [op] == [op] + [];
    } else {
      RunOn(LinkStep(m, ops[0]), ops[1..], m', op, m'');
      RunMore(m, ops[0], ops[1..] + [op], m'');
      assert ops + [op] == [ops[0]] + (ops[1..] + [op]);
    }
  }
}
