/**
 The recursive mutex as the memory accesses of any number of tasks, interleaved in any order. Only the
 test-and-set is atomic; the owner, the count and the flag are read and written one at a time, and even the
 increment of the count is a read and a write. What the accesses achieve is judged by the calls that have
 returned: a task's depth is the number of its lock calls that no unlock call of its own has undone.
 */
module MutexProtocol {
  import opened Words

  const INVALID_ID: nat := 0xffff_ffff_ffff_ffff

  /** What a task does next; the number is a value it has read. */
  datatype Pc =
    | Outside
    | LockTry | LockCompare | LockReadCount | LockWriteCount(read: nat) | LockSpin | LockOwner | LockCount
    | UnlockFlag | UnlockCompare | UnlockReadCount | UnlockRereadCount | UnlockWriteCount(held: nat)
    | UnlockOwner | UnlockCount | UnlockOpen

  /** A call that has returned. */
  datatype Returned = Locked(task: nat) | Unlocked(task: nat)

  datatype State = State(flag: bool, owner: nat, count: nat, pcs: map<nat, Pc>, log: seq<Returned>)

  datatype Event = CallLock(task: nat) | CallUnlock(task: nat) | Access(task: nat)

  function Initial(tasks: set<nat>): State {
    State(false, INVALID_ID, 0, map t | t in tasks :: Outside, [])
  }

  // ----- the specification: depths of calls

  /** The lock calls of a task that are not undone; an unlock call at depth 0 undoes nothing. */
  function Depth(log: seq<Returned>, t: nat): nat {
    if log == [] then 0
    else
      var before := Depth(log[..|log| - 1], t);
      match log[|log| - 1]
      case Locked(u) => if u == t then before + 1 else before
      case Unlocked(u) => if u == t && before > 0 then before - 1 else before
  }

  lemma DepthAfter(log: seq<Returned>, r: Returned, t: nat)
    ensures Depth(log + [r], t) ==
            match r
            case Locked(u) => if u == t then Depth(log, t) + 1 else Depth(log, t)
            case Unlocked(u) => if u == t && Depth(log, t) > 0 then Depth(log, t) - 1 else Depth(log, t)
  {
    assert (log + [r])[..|log|] == log;
  }

  /** At most one task is inside. */
  ghost predicate Exclusive(log: seq<Returned>) {
    forall t, u :: Depth(log, t) > 0 && Depth(log, u) > 0 ==> t == u
  }

  // ----- the accesses

  function Go(s: State, t: nat, pc: Pc): State {
    s.(pcs := s.pcs[t := pc])
  }

  function Return(s: State, r: Returned): State {
    s.(pcs := s.pcs[r.task := Outside], log := s.log + [r])
  }

  /** One memory access of a task that is inside a call. */
  function AccessOf(s: State, t: nat): State
    requires t in s.pcs
  {
    match s.pcs[t]
    case Outside => s
    case LockTry => if s.flag then Go(s, t, LockCompare) else Go(s.(flag := true), t, LockOwner)
    case LockCompare => Go(s, t, if s.owner == t then LockReadCount else LockSpin)
    case LockReadCount => Go(s, t, LockWriteCount(s.count))
    case LockWriteCount(read) => Return(s.(count := (read + 1) % DWORD), Locked(t))
    case LockSpin => if s.flag then s else Go(s.(flag := true), t, LockOwner)
    case LockOwner => Go(s.(owner := t), t, LockCount)
    case LockCount => Return(s.(count := 1), Locked(t))
    case UnlockFlag => if s.flag then Go(s, t, UnlockCompare) else Return(s, Unlocked(t))
    case UnlockCompare => if s.owner == t then Go(s, t, UnlockReadCount) else Return(s, Unlocked(t))
    case UnlockReadCount => Go(s, t, if s.count > 1 then UnlockRereadCount else UnlockOwner)
    case UnlockRereadCount => Go(s, t, UnlockWriteCount(s.count))
    case UnlockWriteCount(read) => Return(s.(count := if read == 0 then DWORD - 1 else read - 1), Unlocked(t))
    case UnlockOwner => Go(s.(owner := INVALID_ID), t, UnlockCount)
    case UnlockCount => Go(s.(count := 0), t, UnlockOpen)
    case UnlockOpen => Return(s.(flag := false), Unlocked(t))
  }

  predicate Enabled(s: State, e: Event) {
    e.task in s.pcs && (e.Access? <==> s.pcs[e.task] != Outside)
  }

  function Step(s: State, e: Event): State
    requires Enabled(s, e)
  {
    match e
    case CallLock(t) => Go(s, t, LockTry)
    case CallUnlock(t) => Go(s, t, UnlockFlag)
    case Access(t) => AccessOf(s, t)
  }

  // ----- the invariant

  /** Accesses at which a task does not hold the mutex and changes nothing but the flag it may win. */
  predicate Harmless(pc: Pc) {
    pc in {Outside, LockTry, LockCompare, LockSpin, UnlockFlag, UnlockCompare}
  }

  /** What the memory holds while the task that won the flag, at depth `d`, is about to do `pc`. */
  predicate HolderAt(s: State, h: nat, pc: Pc, d: nat) {
    match pc
    case LockSpin => false
    case LockOwner => s.owner == INVALID_ID && s.count == 0 && d == 0
    case LockCount => s.owner == h && s.count == 0 && d == 0
    case LockWriteCount(read) => s.owner == h && s.count == d == read > 0
    case UnlockRereadCount => s.owner == h && s.count == d > 1
    case UnlockWriteCount(read) => s.owner == h && s.count == d == read > 1
    case UnlockOwner => s.owner == h && s.count == d == 1
    case UnlockCount => s.owner == INVALID_ID && s.count == d == 1
    case UnlockOpen => s.owner == INVALID_ID && s.count == 0 && d == 1
    case _ => s.owner == h && s.count == d > 0
  }

  /** The task `h` holds the mutex; with no holder, it is open. */
  ghost predicate Inv(s: State, h: nat) {
    && INVALID_ID !in s.pcs
    && s.count < DWORD
    && (s.flag ==> h in s.pcs && HolderAt(s, h, s.pcs[h], Depth(s.log, h)))
    && (!s.flag ==> s.owner == INVALID_ID && s.count == 0)
    && (forall t :: t in s.pcs && !(s.flag && t == h) ==> Harmless(s.pcs[t]))
    && (forall t :: !(s.flag && t == h) ==> Depth(s.log, t) == 0)
  }

  /** The task that holds the mutex after an event. */
  function HolderAfter(s: State, h: nat, e: Event): nat
    requires Enabled(s, e)
  {
    if !s.flag && Step(s, e).flag then e.task else h
  }

  /** The nesting that the count cannot express: the write of an increment that wraps around. */
  predicate Overflows(s: State, e: Event)
    requires Enabled(s, e)
  {
    e.Access? && s.pcs[e.task].LockWriteCount? && s.pcs[e.task].read == DWORD - 1
  }

  lemma InitialInv(tasks: set<nat>, h: nat)
    requires INVALID_ID !in tasks
    ensures Inv(Initial(tasks), h) && Exclusive([])
  {
  }

  /** A step within a call, or into one, that touches no memory. */
  lemma GoInv(s: State, h: nat, t: nat, pc: Pc)
    requires Inv(s, h) && t in s.pcs && !(s.flag && t == h) && Harmless(pc)
    ensures Inv(Go(s, t, pc), h)
  {
  }

  lemma ReturnInv(s: State, h: nat, t: nat)
    requires Inv(s, h) && t in s.pcs && !(s.flag && t == h)
    ensures Inv(Return(s, Unlocked(t)), h)
  {
    forall u ensures Depth(s.log + [Unlocked(t)], u) == Depth(s.log, u) {
      DepthAfter(s.log, Unlocked(t), u);
    }
  }

  lemma WinInv(s: State, h: nat, t: nat)
    requires Inv(s, h) && t in s.pcs && !s.flag
    ensures Inv(Go(s.(flag := true), t, LockOwner), t)
  {
  }

  /** A step that is not the holder's changes no memory, but that it may win an open flag. */
  lemma OthersStep(s: State, h: nat, e: Event)
    requires Inv(s, h) && Enabled(s, e) && !(s.flag && e.task == h)
    ensures Inv(Step(s, e), HolderAfter(s, h, e))
    ensures Step(s, e).owner == s.owner && Step(s, e).count == s.count && (s.flag ==> Step(s, e).flag)
  {
    var t := e.task;
    match e
    case CallLock(_) => GoInv(s, h, t, LockTry);
    case CallUnlock(_) => GoInv(s, h, t, UnlockFlag);
    case Access(_) =>
      match s.pcs[t]
      case LockTry => if s.flag { GoInv(s, h, t, LockCompare); } else { WinInv(s, h, t); }
      case LockCompare => GoInv(s, h, t, LockSpin);
      case LockSpin => if !s.flag { WinInv(s, h, t); }
      case UnlockFlag => if s.flag { GoInv(s, h, t, UnlockCompare); } else { ReturnInv(s, h, t); }
      case UnlockCompare => ReturnInv(s, h, t);
      case _ =>
  }

  /** A step of the holder: it keeps the invariant exactly if the count does not overflow. */
  lemma HoldersStep(s: State, h: nat, e: Event)
    requires Inv(s, h) && Enabled(s, e) && s.flag && e.task == h
    ensures Inv(Step(s, e), h) <==> !Overflows(s, e)
  {
    var s' := Step(s, e);
    if s'.log != s.log {
      var r := s'.log[|s'.log| - 1];
      assert s'.log == s.log + [r];
      forall t
        ensures Depth(s'.log, t) == if t == h then (if r.Locked? then Depth(s.log, h) + 1 else Depth(s.log, h) - 1)
                                           else Depth(s.log, t) {
        DepthAfter(s.log, r, t);
      }
    }
  }

  /** Every interleaving step keeps the invariant, exactly if it does not overflow the count. */
  lemma StepInv(s: State, h: nat, e: Event)
    requires Inv(s, h) && Enabled(s, e)
    ensures Inv(Step(s, e), HolderAfter(s, h, e)) <==> !Overflows(s, e)
  {
    if s.flag && e.task == h {
      HoldersStep(s, h, e);
    } else {
      OthersStep(s, h, e);
    }
  }

  // ----- single steps

  /** An unlock call of a task that does not hold the mutex changes nothing, and returns. */
  lemma RefusedUnlock(s: State, h: nat, t: nat)
    requires Inv(s, h) && t in s.pcs && s.pcs[t] in {UnlockFlag, UnlockCompare} && !(s.flag && t == h)
    ensures var s' := AccessOf(s, t);
            && s'.flag == s.flag && s'.owner == s.owner && s'.count == s.count
            && s'.pcs[t] in {UnlockCompare, Outside}
            && (s.pcs[t] == UnlockCompare ==> s'.pcs[t] == Outside)
    ensures forall u :: Depth(AccessOf(s, t).log, u) == Depth(s.log, u)
  {
    forall u ensures Depth(AccessOf(s, t).log, u) == Depth(s.log, u) {
      DepthAfter(s.log, Unlocked(t), u);
    }
  }

  /** The mutex opens exactly when the holder's outermost lock call is undone. */
  lemma OpensAtOutermostUnlock(s: State, h: nat, e: Event)
    requires Inv(s, h) && Enabled(s, e) && !Overflows(s, e) && s.flag
    ensures !Step(s, e).flag <==> Depth(s.log, h) > 0 && Depth(Step(s, e).log, h) == 0
    ensures !Step(s, e).flag ==> e == Access(h) && Step(s, e).log == s.log + [Unlocked(h)]
  {
    StepInv(s, h, e);
    DepthAfter(s.log, Unlocked(e.task), h);
    DepthAfter(s.log, Locked(e.task), h);
  }

  /** A lock call that finds the mutex open takes it with the next three accesses. */
  lemma OpenMutexIsTaken(s: State, h: nat, t: nat, s1: State, s2: State, s3: State)
    requires Inv(s, h) && t in s.pcs && s.pcs[t] in {LockTry, LockSpin} && !s.flag
    requires s1 == AccessOf(s, t) && t in s1.pcs && s2 == AccessOf(s1, t) && t in s2.pcs && s3 == AccessOf(s2, t)
    ensures s3.flag && s3.owner == t && s3.count == 1 && Depth(s3.log, t) == 1
    ensures s3.pcs == s.pcs[t := Outside] && s3.log == s.log + [Locked(t)]
  {
    assert s1 == Go(s.(flag := true), t, LockOwner);
    assert s2 == Go(s1.(owner := t), t, LockCount);
    assert s3 == Return(s2.(count := 1), Locked(t));
    DepthAfter(s.log, Locked(t), t);
  }

  // ----- runs

  predicate AllEnabled(s: State, events: seq<Event>)
    decreases |events|
  {
    events == [] || (Enabled(s, events[0]) && AllEnabled(Step(s, events[0]), events[1..]))
  }

  predicate NoneOverflows(s: State, events: seq<Event>)
    requires AllEnabled(s, events)
    decreases |events|
  {
    events == [] || (!Overflows(s, events[0]) && NoneOverflows(Step(s, events[0]), events[1..]))
  }

  function Run(s: State, events: seq<Event>): State
    requires AllEnabled(s, events)
    decreases |events|
  {
    if events == [] then s else Run(Step(s, events[0]), events[1..])
  }

  lemma {:induction false} RunInv(s: State, h: nat, events: seq<Event>) returns (h': nat)
    requires Inv(s, h) && AllEnabled(s, events) && NoneOverflows(s, events)
    ensures Inv(Run(s, events), h')
    decreases |events|
  {
    if events == [] {
      return h;
    }
    StepInv(s, h, events[0]);
    h' := RunInv(Step(s, events[0]), HolderAfter(s, h, events[0]), events[1..]);
  }

  /**
   In every interleaving of any number of tasks: at most one task is inside, and a task that is inside and
   not within a call owns the mutex, with the count equal to its lock calls not yet undone.
   */
  lemma MutualExclusion(tasks: set<nat>, events: seq<Event>)
    requires INVALID_ID !in tasks
    requires AllEnabled(Initial(tasks), events) && NoneOverflows(Initial(tasks), events)
    ensures var s := Run(Initial(tasks), events);
            && Exclusive(s.log)
            && (forall t :: t in s.pcs && s.pcs[t] == Outside && Depth(s.log, t) > 0 ==>
                  s.flag && s.owner == t && s.count == Depth(s.log, t))
            && ((forall t :: t in s.pcs ==> s.pcs[t] == Outside) ==>
                  (s.flag <==> exists t :: t in s.pcs && Depth(s.log, t) > 0))
  {
    InitialInv(tasks, 0);
    var h := RunInv(Initial(tasks), 0, events);
    var s := Run(Initial(tasks), events);
  }

  // ----- how calls end

  predicate Locking(pc: Pc) {
    match pc
    case LockTry | LockCompare | LockReadCount | LockWriteCount(_) | LockSpin | LockOwner | LockCount => true
    case _ => false
  }

  /** A call ends only by returning, and stays the call that it is until then; no other task moves. */
  lemma CallsEndByReturning(s: State, e: Event)
    requires Enabled(s, e)
    ensures var s', t := Step(s, e), e.task;
            && s'.pcs.Keys == s.pcs.Keys && (forall u :: u in s.pcs && u != t ==> s'.pcs[u] == s.pcs[u])
            && (if e.Access? && s'.pcs[t] == Outside
                then s'.log == s.log + [if Locking(s.pcs[t]) then Locked(t) else Unlocked(t)]
                else s'.log == s.log && s'.pcs[t] != Outside
                     && (Locking(s'.pcs[t]) <==> if e.Access? then Locking(s.pcs[t]) else e.CallLock?))
  {
  }

  /** A lock call returns only to a task that is inside, as the owner, with the count at its depth. */
  lemma LockReturnsInside(s: State, h: nat, t: nat)
    requires Inv(s, h) && t in s.pcs && Locking(s.pcs[t]) && !Overflows(s, Access(t))
    requires t in AccessOf(s, t).pcs && AccessOf(s, t).pcs[t] == Outside
    ensures var s' := AccessOf(s, t);
            s'.flag && s'.owner == t && s'.count == Depth(s'.log, t) > 0 && s.flag && t == h
  {
    StepInv(s, h, Access(t));
    DepthAfter(s.log, Locked(t), t);
  }

  /** A lock call of a task that does not hold the mutex, while it is locked, tries, compares, and then spins. */
  lemma WaiterSpins(s: State, h: nat, t: nat)
    requires Inv(s, h) && s.flag && t in s.pcs && t != h && Locking(s.pcs[t])
    ensures AccessOf(s, t) == s.(pcs := s.pcs[t := if s.pcs[t] == LockTry then LockCompare else LockSpin])
  {
    assert s.pcs[t] == LockSpin ==> s.pcs[t := LockSpin] == s.pcs;
  }

  // ----- calls of the holder return

  /** The accesses that the holder still has to make until its call returns. */
  function Remaining(pc: Pc, count: nat): nat {
    match pc
    case LockTry => 4 case LockCompare => 3 case LockReadCount => 2 case LockWriteCount(_) => 1
    case LockOwner => 2 case LockCount => 1
    case UnlockFlag => if count > 1 then 5 else 6
    case UnlockCompare => if count > 1 then 4 else 5
    case UnlockReadCount => if count > 1 then 3 else 4
    case UnlockRereadCount => 2 case UnlockWriteCount(_) => 1
    case UnlockOwner => 3 case UnlockCount => 2 case UnlockOpen => 1
    case _ => 0
  }

  /** What the call does to the task's depth. */
  function Change(pc: Pc): int {
    if pc.Outside? then 0
    else if pc.LockTry? || pc.LockCompare? || pc.LockReadCount? || pc.LockWriteCount? || pc.LockSpin? || pc.LockOwner?
            || pc.LockCount? then 1
    else -1
  }

  lemma StillRemaining(s: State, h: nat)
    requires Inv(s, h) && s.flag && h in s.pcs && s.pcs[h] != Outside
    ensures Remaining(s.pcs[h], s.count) > 0
  {
  }

  /** Each access of the holder brings its call one nearer to its return. */
  lemma HoldersProgress(s: State, h: nat)
    requires Inv(s, h) && s.flag && h in s.pcs && Remaining(s.pcs[h], s.count) > 1
    ensures var s' := AccessOf(s, h);
            && s'.flag && s'.pcs.Keys == s.pcs.Keys && s'.pcs[h] != Outside && s'.log == s.log
            && Remaining(s'.pcs[h], s'.count) == Remaining(s.pcs[h], s.count) - 1
            && Change(s'.pcs[h]) == Change(s.pcs[h])
  {
  }

  /** The last one makes the change. */
  lemma HoldersReturn(s: State, h: nat)
    requires Inv(s, h) && s.flag && h in s.pcs && Remaining(s.pcs[h], s.count) == 1
    ensures var s' := AccessOf(s, h);
            && s'.pcs.Keys == s.pcs.Keys && s'.pcs[h] == Outside
            && Depth(s'.log, h) == Depth(s.log, h) + Change(s.pcs[h])
  {
    if Change(s.pcs[h]) == 1 {
      DepthAfter(s.log, Locked(h), h);
    } else {
      DepthAfter(s.log, Unlocked(h), h);
    }
  }

  /** The events of one task among those of all. */
  function Own(events: seq<Event>, t: nat): nat {
    if events == [] then 0 else (if events[0].task == t then 1 else 0) + Own(events[1..], t)
  }

  /** A step of another task leaves a task where it is, and the mutex with it if it holds it. */
  lemma OthersStepLeaves(s: State, k: nat, h: nat, e: Event)
    requires Inv(s, k) && Enabled(s, e) && !Overflows(s, e) && e.task != h && h in s.pcs
    ensures var s', k' := Step(s, e), HolderAfter(s, k, e);
            && Inv(s', k') && h in s'.pcs && s'.pcs[h] == s.pcs[h] && Depth(s'.log, h) == Depth(s.log, h)
            && (s.flag && k == h ==> k' == h && s'.flag && s'.count == s.count && s'.owner == s.owner)
  {
    StepInv(s, k, e);
    DepthAfter(s.log, Locked(e.task), h);
    DepthAfter(s.log, Unlocked(e.task), h);
    if s.flag && k == h {
      OthersStep(s, k, e);
    }
  }

  /** Whatever the others do, a task that does nothing stays where it is, and the mutex with it if it holds it. */
  lemma {:induction false} OthersOnly(s: State, k: nat, h: nat, events: seq<Event>) returns (k': nat)
    requires Inv(s, k) && AllEnabled(s, events) && NoneOverflows(s, events) && h in s.pcs && Own(events, h) == 0
    ensures var s' := Run(s, events);
            && Inv(s', k') && h in s'.pcs && s'.pcs[h] == s.pcs[h] && Depth(s'.log, h) == Depth(s.log, h)
            && (s.flag && k == h ==> k' == h && s'.flag && s'.count == s.count && s'.owner == s.owner)
    decreases |events|
  {
    if events == [] {
      return k;
    }
    OthersStepLeaves(s, k, h, events[0]);
    k' := OthersOnly(Step(s, events[0]), HolderAfter(s, k, events[0]), h, events[1..]);
  }

  /** After as many accesses as remain, with any others in between, the holder's call has returned and done its work. */
  lemma {:induction false} CallReturns(s: State, h: nat, events: seq<Event>) returns (k: nat)
    requires Inv(s, h) && s.flag && h in s.pcs && s.pcs[h] != Outside
    requires AllEnabled(s, events) && NoneOverflows(s, events) && Own(events, h) == Remaining(s.pcs[h], s.count)
    ensures var s', d := Run(s, events), Depth(s.log, h) + Change(s.pcs[h]);
            && Inv(s', k) && h in s'.pcs && s'.pcs[h] == Outside && Depth(s'.log, h) == d
            && (d > 0 ==> s'.flag && s'.owner == h && s'.count == d)
    decreases |events|
  {
    StillRemaining(s, h);
    var e := events[0];
    var s1 := Step(s, e);
    StepInv(s, h, e);
    if e.task != h {
      OthersStepLeaves(s, h, h, e);
      k := CallReturns(s1, h, events[1..]);
    } else if Remaining(s.pcs[h], s.count) > 1 {
      HoldersProgress(s, h);
      k := CallReturns(s1, h, events[1..]);
    } else {
      HoldersReturn(s, h);
      k := OthersOnly(s1, HolderAfter(s, h, e), h, events[1..]);
      InvAtDepth(Run(s, events), k, h);
    }
  }

  lemma InvAtDepth(s: State, k: nat, h: nat)
    requires Inv(s, k) && h in s.pcs && s.pcs[h] == Outside
    ensures Depth(s.log, h) > 0 ==> s.flag && s.owner == h && s.count == Depth(s.log, h)
  {
  }

  /** A nested unlock takes its call and five accesses, whatever others do in between, and undoes one lock. */
  lemma NestedUnlockReturns(s: State, h: nat, events: seq<Event>)
    requires Inv(s, h) && s.flag && h in s.pcs && s.pcs[h] == Outside && Depth(s.log, h) > 1
    requires AllEnabled(s, [CallUnlock(h)] + events) && NoneOverflows(s, [CallUnlock(h)] + events)
    requires Own(events, h) == 5
    ensures var s', d := Run(s, [CallUnlock(h)] + events), Depth(s.log, h);
            && h in s'.pcs && s'.pcs[h] == Outside && s'.flag && s'.owner == h && s'.count == d - 1
            && Depth(s'.log, h) == d - 1
  {
    assert ([CallUnlock(h)] + events)[1..] == events;
    StepInv(s, h, CallUnlock(h));
    var k := CallReturns(Go(s, h, UnlockFlag), h, events);
  }

  /** A nested lock takes its call and four accesses, whatever others do in between, and goes one deeper. */
  lemma NestedLockReturns(s: State, h: nat, events: seq<Event>)
    requires Inv(s, h) && s.flag && h in s.pcs && s.pcs[h] == Outside
    requires AllEnabled(s, [CallLock(h)] + events) && NoneOverflows(s, [CallLock(h)] + events)
    requires Own(events, h) == 4
    ensures var s', d := Run(s, [CallLock(h)] + events), Depth(s.log, h);
            && h in s'.pcs && s'.pcs[h] == Outside && s'.flag && s'.owner == h && s'.count == d + 1
            && Depth(s'.log, h) == d + 1
  {
    assert ([CallLock(h)] + events)[1..] == events;
    StepInv(s, h, CallLock(h));
    var k := CallReturns(Go(s, h, LockTry), h, events);
  }

  /** The outermost unlock takes its call and six accesses, whatever others do in between, and leaves. */
  lemma OutermostUnlockReturns(s: State, h: nat, events: seq<Event>)
    requires Inv(s, h) && s.flag && h in s.pcs && s.pcs[h] == Outside && Depth(s.log, h) == 1
    requires AllEnabled(s, [CallUnlock(h)] + events) && NoneOverflows(s, [CallUnlock(h)] + events)
    requires Own(events, h) == 6
    ensures var s' := Run(s, [CallUnlock(h)] + events);
            h in s'.pcs && s'.pcs[h] == Outside && Depth(s'.log, h) == 0
  {
    assert ([CallUnlock(h)] + events)[1..] == events;
    StepInv(s, h, CallUnlock(h));
    var k := CallReturns(Go(s, h, UnlockFlag), h, events);
  }

  // ----- what an overflow means

  ghost predicate Leads(s: State, events: seq<Event>, s': State) {
    AllEnabled(s, events) && s' == Run(s, events)
  }

  lemma LeadsFirst(s: State, e: Event, events: seq<Event>, s': State)
    requires Enabled(s, e) && Leads(Step(s, e), events, s')
    ensures Leads(s, [e] + events, s')
    ensures !Overflows(s, e) && NoneOverflows(Step(s, e), events) ==> NoneOverflows(s, [e] + events)
  {
    assert ([e] + events)[1..] == events;
  }

  lemma {:induction false} LeadsOn(s: State, a: seq<Event>, s1: State, b: seq<Event>, s2: State)
    requires Leads(s, a, s1) && Leads(s1, b, s2)
    ensures Leads(s, a + b, s2)
    ensures NoneOverflows(s, a) && NoneOverflows(s1, b) ==> NoneOverflows(s, a + b)
    decreases |a|
  {
    if a == [] {
      assert a + b == b;
    } else {
      LeadsOn(Step(s, a[0]), a[1..], s1, b, s2);
      LeadsFirst(s, a[0], a[1..] + b, s2);
      assert a + b == [a[0]] + (a[1..] + b);
    }
  }

  ghost predicate Steps(s: State, e: Event, s': State) {
    Enabled(s, e) && s' == Step(s, e) && !Overflows(s, e)
  }

  /** Events, with the states between them. */
  ghost predicate Trace(states: seq<State>, events: seq<Event>) {
    |states| == |events| + 1 && forall i :: 0 <= i < |events| ==> Steps(states[i], events[i], states[i + 1])
  }

  lemma {:induction false} TraceLeads(states: seq<State>, events: seq<Event>)
    requires Trace(states, events)
    ensures Leads(states[0], events, states[|events|]) && NoneOverflows(states[0], events)
    decreases |events|
  {
    if events != [] {
      assert Steps(states[0], events[0], states[0 + 1]);
      TraceLeads(states[1..], events[1..]);
    }
  }

  predicate AllBy(events: seq<Event>, t: nat) {
    forall i :: 0 <= i < |events| ==> events[i].task == t
  }

  /** A lock call of a task that finds the mutex open, with nothing in between. */
  lemma LockOpen(s: State, t: nat) returns (events: seq<Event>)
    requires t in s.pcs && s.pcs[t] == Outside && !s.flag
    ensures Leads(s, events, State(true, t, 1, s.pcs, s.log + [Locked(t)])) && NoneOverflows(s, events)
    ensures |events| == 4 && AllBy(events, t)
  {
    var s1 := Go(s, t, LockTry);
    var s2 := Go(s.(flag := true), t, LockOwner);
    var s3 := Go(s.(flag := true, owner := t), t, LockCount);
    var s4 := State(true, t, 1, s.pcs, s.log + [Locked(t)]);
    assert Steps(s, CallLock(t), s1);
    assert Steps(s1, Access(t), s2);
    assert Steps(s2, Access(t), s3);
    BackOutside(s, t, LockCount);
    assert Steps(s3, Access(t), s4);
    events := [CallLock(t), Access(t), Access(t), Access(t)];
    TraceLeads([s, s1, s2, s3, s4], events);
  }

  lemma BackOutside(s: State, t: nat, pc: Pc)
    requires t in s.pcs && s.pcs[t] == Outside
    ensures s.pcs[t := pc][t := Outside] == s.pcs
  {
  }

  /** The accesses of a lock call of the task that holds the mutex, up to the write of the count. */
  lemma LockAgain(s: State, t: nat) returns (events: seq<Event>)
    requires t in s.pcs && s.pcs[t] == Outside && s.flag && s.owner == t
    ensures Leads(s, events, Go(s, t, LockWriteCount(s.count))) && NoneOverflows(s, events) && AllBy(events, t)
  {
    var s1, s2 := Go(s, t, LockTry), Go(s, t, LockCompare);
    var s3, s4 := Go(s, t, LockReadCount), Go(s, t, LockWriteCount(s.count));
    assert Steps(s, CallLock(t), s1);
    assert Steps(s1, Access(t), s2);
    assert Steps(s2, Access(t), s3);
    assert Steps(s3, Access(t), s4);
    events := [CallLock(t), Access(t), Access(t), Access(t)];
    TraceLeads([s, s1, s2, s3, s4], events);
  }

  /** An unlock call of the task that holds the mutex with a count of at most 1, with nothing in between. */
  lemma UnlockOpens(s: State, t: nat) returns (events: seq<Event>)
    requires t in s.pcs && s.pcs[t] == Outside && s.flag && s.owner == t && s.count <= 1
    ensures Leads(s, events, State(false, INVALID_ID, 0, s.pcs, s.log + [Unlocked(t)])) && AllBy(events, t)
    ensures NoneOverflows(s, events)
  {
    var s1, s2 := Go(s, t, UnlockFlag), Go(s, t, UnlockCompare);
    var s3, s4 := Go(s, t, UnlockReadCount), Go(s, t, UnlockOwner);
    assert Steps(s, CallUnlock(t), s1);
    assert Steps(s1, Access(t), s2);
    assert Steps(s2, Access(t), s3);
    assert Steps(s3, Access(t), s4);
    TraceLeads([s, s1, s2, s3, s4], [CallUnlock(t), Access(t), Access(t), Access(t)]);
    var opening := OpensAtLast(s, t);
    events := [CallUnlock(t), Access(t), Access(t), Access(t)] + opening;
    LeadsOn(s, [CallUnlock(t), Access(t), Access(t), Access(t)], s4, opening,
            State(false, INVALID_ID, 0, s.pcs, s.log + [Unlocked(t)]));
  }

  lemma OpensAtLast(s: State, t: nat) returns (events: seq<Event>)
    requires t in s.pcs && s.pcs[t] == Outside && s.flag
    ensures Leads(Go(s, t, UnlockOwner), events, State(false, INVALID_ID, 0, s.pcs, s.log + [Unlocked(t)]))
    ensures AllBy(events, t) && NoneOverflows(Go(s, t, UnlockOwner), events)
  {
    var s4 := Go(s, t, UnlockOwner);
    var s5 := Go(s.(owner := INVALID_ID), t, UnlockCount);
    var s6 := Go(s.(owner := INVALID_ID, count := 0), t, UnlockOpen);
    var s7 := State(false, INVALID_ID, 0, s.pcs, s.log + [Unlocked(t)]);
    assert Steps(s4, Access(t), s5);
    assert Steps(s5, Access(t), s6);
    BackOutside(s, t, UnlockOpen);
    assert Steps(s6, Access(t), s7);
    events := [Access(t), Access(t), Access(t)];
    TraceLeads([s4, s5, s6, s7], events);
  }

  /** The write that overflows leaves a count of 0 to a task that is inside 2^32 times. */
  lemma OverflowLosesDepth(s: State, h: nat, e: Event)
    requires Inv(s, h) && Enabled(s, e) && Overflows(s, e)
    ensures e.task == h
    ensures var s' := Step(s, e); s' == State(true, h, 0, s.pcs[h := Outside], s.log + [Locked(h)])
                                  && Depth(s'.log, h) == DWORD
  {
    DepthAfter(s.log, Locked(h), h);
  }

  /**
   Then the holder's next unlock call opens the mutex although all but one of its lock calls are not undone, and
   any other task that calls can get in beside it.
   */
  lemma OverflowBreaksExclusion(s: State, h: nat, e: Event, t: nat) returns (unlock: seq<Event>, lock: seq<Event>)
    requires Inv(s, h) && Enabled(s, e) && Overflows(s, e) && t in s.pcs && t != h && s.pcs[t] == Outside
    ensures AllEnabled(Step(s, e), unlock) && AllBy(unlock, h)
    ensures var s1 := Run(Step(s, e), unlock);
            && !s1.flag && Depth(s1.log, h) == DWORD - 1 && AllEnabled(s1, lock)
            && !Exclusive(Run(s1, lock).log)
    ensures |lock| == 4 && AllBy(lock, t)
  {
    OverflowLosesDepth(s, h, e);
    var s0 := Step(s, e);
    unlock := UnlockOpens(s0, h);
    var s1 := Run(s0, unlock);
    DepthAfter(s0.log, Unlocked(h), h);
    lock := LockOpen(s1, t);
    DepthAfter(s1.log, Locked(t), h);
    DepthAfter(s1.log, Locked(t), t);
  }

  /** Every depth that the count can express is reached by nested lock calls, with no overflow on the way. */
  lemma {:induction false} DepthReached(tasks: set<nat>, t: nat, n: nat) returns (events: seq<Event>)
    requires t in tasks && 0 < n < DWORD
    ensures AllEnabled(Initial(tasks), events) && NoneOverflows(Initial(tasks), events)
    ensures var s := Run(Initial(tasks), events);
            s == State(true, t, n, Initial(tasks).pcs, s.log) && Depth(s.log, t) == n
  {
    var s0 := Initial(tasks);
    if n == 1 {
      events := LockOpen(s0, t);
      DepthAfter(s0.log, Locked(t), t);
    } else {
      var before := DepthReached(tasks, t, n - 1);
      var s := Run(s0, before);
      var again := LockAgain(s, t);
      var s1 := Go(s, t, LockWriteCount(n - 1));
      var s2 := State(true, t, n, s.pcs, s.log + [Locked(t)]);
      LeadsOn(s0, before, s, again, s1);
      BackOutside(s, t, LockWriteCount(n - 1));
      assert Steps(s1, Access(t), s2);
      TraceLeads([s1, s2], [Access(t)]);
      events := before + again + [Access(t)];
      LeadsOn(s0, before + again, s1, [Access(t)], s2);
      DepthAfter(s.log, Locked(t), t);
    }
  }

  /** So the count does overflow, in a run of any one task. */
  lemma OverflowReached(tasks: set<nat>, t: nat) returns (events: seq<Event>)
    requires t in tasks
    ensures AllEnabled(Initial(tasks), events) && NoneOverflows(Initial(tasks), events)
    ensures var s := Run(Initial(tasks), events); Enabled(s, Access(t)) && Overflows(s, Access(t))
  {
    var before := DepthReached(tasks, t, DWORD - 1);
    var s := Run(Initial(tasks), before);
    var again := LockAgain(s, t);
    LeadsOn(Initial(tasks), before, s, again, Go(s, t, LockWriteCount(s.count)));
    events := before + again;
  }

  // ----- nesting undone

  /** An unlock call of the task that holds the mutex with a count above 1, with nothing in between. */
  lemma UnlockNested(s: State, t: nat) returns (events: seq<Event>)
    requires t in s.pcs && s.pcs[t] == Outside && s.flag && s.owner == t && s.count > 1
    ensures Leads(s, events, State(true, t, s.count - 1, s.pcs, s.log + [Unlocked(t)])) && NoneOverflows(s, events)
  {
    var s1, s2, s3 := Go(s, t, UnlockFlag), Go(s, t, UnlockCompare), Go(s, t, UnlockReadCount);
    var s4, s5 := Go(s, t, UnlockRereadCount), Go(s, t, UnlockWriteCount(s.count));
    var s6 := State(true, t, s.count - 1, s.pcs, s.log + [Unlocked(t)]);
    assert Steps(s, CallUnlock(t), s1);
    assert Steps(s1, Access(t), s2);
    assert Steps(s2, Access(t), s3);
    assert Steps(s3, Access(t), s4);
    assert Steps(s4, Access(t), s5);
    BackOutside(s, t, UnlockWriteCount(s.count));
    assert Steps(s5, Access(t), s6);
    events := [CallUnlock(t), Access(t), Access(t), Access(t), Access(t), Access(t)];
    TraceLeads([s, s1, s2, s3, s4, s5, s6], events);
  }

  lemma {:induction false} AllUndone(s: State, t: nat, n: nat) returns (events: seq<Event>)
    requires t in s.pcs && s.pcs[t] == Outside && s.flag && s.owner == t && s.count == n == Depth(s.log, t) && n > 0
    ensures AllEnabled(s, events) && NoneOverflows(s, events)
    ensures var s' := Run(s, events); s' == State(false, INVALID_ID, 0, s.pcs, s'.log) && Depth(s'.log, t) == 0
    decreases n
  {
    DepthAfter(s.log, Unlocked(t), t);
    if n == 1 {
      events := UnlockOpens(s, t);
    } else {
      var first := UnlockNested(s, t);
      var s1 := State(true, t, n - 1, s.pcs, s.log + [Unlocked(t)]);
      var rest := AllUndone(s1, t, n - 1);
      LeadsOn(s, first, s1, rest, Run(s1, rest));
      events := first + rest;
    }
  }

  /** As many unlock calls as nested lock calls leave the mutex open, at every depth that the count can express. */
  lemma NestingUndone(tasks: set<nat>, t: nat, n: nat) returns (locks: seq<Event>, unlocks: seq<Event>)
    requires t in tasks && 0 < n < DWORD
    ensures AllEnabled(Initial(tasks), locks) && NoneOverflows(Initial(tasks), locks)
    ensures var s := Run(Initial(tasks), locks);
            && s.flag && s.owner == t && s.count == n == Depth(s.log, t)
            && AllEnabled(s, unlocks) && NoneOverflows(s, unlocks)
            && Run(s, unlocks) == Initial(tasks).(log := Run(s, unlocks).log) && Depth(Run(s, unlocks).log, t) == 0
  {
    locks := DepthReached(tasks, t, n);
    unlocks := AllUndone(Run(Initial(tasks), locks), t, n);
  }
}
