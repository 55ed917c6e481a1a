/**
 No starvation: while no task is created, ended or given another priority, every ready task runs after a
 number of switches that depends only on its level, its place in its list and the number of ready tasks.
 */
module Fairness {
  import opened Scheduling
  import opened Placement

  function Pow(b: nat, e: nat): nat {
    if e == 0 then 1 else b * Pow(b, e - 1)
  }

  /** The tasks stay as they are: none that runs or is ready has ended, and the running one has a level. */
  ghost predicate Steady(s: Sched) {
    && Sized(s)
    && Goes(s.flags, s.running)
    && AllGo(s.lists, s.flags)
  }

  ghost predicate AllGo(lists: seq<seq<nat>>, flags: seq<Flags>) {
    forall l, k :: 0 <= l < LEVELS && l < |lists| && 0 <= k < |lists[l]| ==> Goes(flags, lists[l][k])
  }

  ghost predicate Goes(flags: seq<Flags>, t: nat) {
    t < |flags| && !flags[t].ended && flags[t].priority < LEVELS
  }

  function ReadyCount(lists: seq<seq<nat>>): nat
    requires |lists| == LEVELS + 1
  {
    |lists[0]| + |lists[1]| + |lists[2]| + |lists[3]| + |lists[4]|
  }

  // ----- one switch

  lemma Picked(lists: seq<seq<nat>>, executed: seq<nat>, p: nat)
    requires |lists| == LEVELS + 1 && |executed| == LEVELS && p < LEVELS && lists[p] != []
    ensures var j, e := NextLevel(lists, executed), NextExecuted(lists, executed);
            && j < LEVELS && lists[j] != []
            && (j == p || PassedOver(lists, executed, j, e, p) || Counted(lists, executed, j, e, p))
  {
    NoneFoundIffNoneReady(lists, executed);
    EligibleIsLeast(lists, executed, 0);
    EligibleIsLeast(lists, CLEARED, 0);
    var i := Eligible(lists, executed, 0);
    if i == LEVELS {
      assert CLEARED[p] < |lists[p]|;
    }
  }

  /** Level `p` had had its share, and its counter starts again. */
  ghost predicate PassedOver(lists: seq<seq<nat>>, executed: seq<nat>, j: nat, e: seq<nat>, p: nat)
    requires p < |lists| && p < |executed| && p < |e|
  {
    j != p && executed[p] >= |lists[p]| && e[p] == 0
  }

  /** A higher level `j` is picked and counted, and the levels from there to `p` are not touched. */
  ghost predicate Counted(lists: seq<seq<nat>>, executed: seq<nat>, j: nat, e: seq<nat>, p: nat)
    requires p < |lists| && p < |executed| && |e| == |executed|
  {
    && j < p && executed[j] < |lists[j]| && e[j] == executed[j] + 1
    && (forall i :: j < i <= p ==> e[i] == executed[i])
  }

  function Moved(lists: seq<seq<nat>>, j: nat, q: nat, r: nat): seq<seq<nat>>
    requires j < |lists| && q < |lists| && lists[j] != []
  {
    Append(Drop(lists, j, 0), q, r)
  }

  lemma SwitchMoves(s: Sched)
    requires Steady(s) && !NoneReady(s.lists)
    ensures var j := NextLevel(s.lists, s.executed);
            && j < LEVELS && s.lists[j] != []
            && Switch(s) == s.(lists := Moved(s.lists, j, s.flags[s.running].priority, s.running),
                               executed := NextExecuted(s.lists, s.executed), running := s.lists[j][0])
  {
    NoneFoundIffNoneReady(s.lists, s.executed);
  }

  lemma MovedCount(lists: seq<seq<nat>>, j: nat, q: nat, r: nat)
    requires |lists| == LEVELS + 1 && j < LEVELS && q < LEVELS && lists[j] != []
    ensures |Moved(lists, j, q, r)| == |lists| && ReadyCount(Moved(lists, j, q, r)) == ReadyCount(lists)
  {
    var dropped := Drop(lists, j, 0);
    assert |dropped[j]| == |lists[j]| - 1;
    assert ReadyCount(dropped) == ReadyCount(lists) - 1;
  }

  lemma MovedGoes(lists: seq<seq<nat>>, flags: seq<Flags>, j: nat, q: nat, r: nat)
    requires |lists| == LEVELS + 1 && j < LEVELS && q < LEVELS && lists[j] != [] && Goes(flags, r)
    requires AllGo(lists, flags)
    ensures Goes(flags, lists[j][0]) && AllGo(Moved(lists, j, q, r), flags)
  {
    var dropped := Drop(lists, j, 0);
    forall l, k | 0 <= l < LEVELS && 0 <= k < |dropped[l]| ensures Goes(flags, dropped[l][k]) {
      assert Goes(flags, lists[l][if l == j then k + 1 else k]);
    }
  }

  /** The tasks stay steady over a switch, and as many are ready as before. */
  lemma SwitchSteady(s: Sched)
    requires Steady(s)
    ensures Steady(Switch(s)) && ReadyCount(Switch(s).lists) == ReadyCount(s.lists)
  {
    if NoneReady(s.lists) {
      NoneFoundIffNoneReady(s.lists, s.executed);
    } else {
      SwitchMoves(s);
      var j, q := NextLevel(s.lists, s.executed), s.flags[s.running].priority;
      MovedCount(s.lists, j, q, s.running);
      MovedGoes(s.lists, s.flags, j, q, s.running);
    }
  }

  // ----- the measure

  function Left(n: nat, executed: nat): nat {
    if executed <= n then n - executed else 0
  }

  /** The counters of the levels above `p` as digits, that of the level next to `p` leading. */
  function Digits(executed: seq<nat>, n: nat, p: nat): nat
    requires p <= |executed|
  {
    if p == 0 then 0 else Left(n, executed[p - 1]) * Pow(n + 1, p - 1) + Digits(executed, n, p - 1)
  }

  lemma {:induction false} DigitsBound(executed: seq<nat>, n: nat, p: nat)
    requires p <= |executed|
    ensures Digits(executed, n, p) < Pow(n + 1, p)
  {
    if p > 0 {
      DigitsBound(executed, n, p - 1);
      Carry(Left(n, executed[p - 1]), n, Pow(n + 1, p - 1));
    }
  }

  lemma Carry(d: nat, n: nat, w: nat)
    requires d <= n
    ensures d * w + w <= (n + 1) * w
  {
    assert (n - d) * w >= 0;
    assert (n + 1) * w == d * w + w + (n - d) * w;
  }

  lemma {:induction false} DigitsDrop(e: seq<nat>, e': seq<nat>, n: nat, j: nat, p: nat)
    requires |e| == |e'| >= p > j && e[j] < n && e'[j] == e[j] + 1
    requires forall i :: j < i < p ==> e'[i] == e[i]
    ensures Digits(e', n, p) < Digits(e, n, p)
  {
    DigitsBound(e', n, p - 1);
    if p > j + 1 {
      DigitsDrop(e, e', n, j, p - 1);
    }
    Lexicographic(Left(n, e'[p - 1]), Digits(e', n, p - 1), Left(n, e[p - 1]), Digits(e, n, p - 1), Pow(n + 1, p - 1));
  }

  function Spent(lists: seq<seq<nat>>, executed: seq<nat>, p: nat): nat
    requires p < |executed| && p < |lists|
  {
    if executed[p] >= |lists[p]| then 1 else 0
  }

  /** What the task at position `k` of level `p` still has to wait for, most important first. */
  function Waiting(lists: seq<seq<nat>>, executed: seq<nat>, p: nat, k: nat): nat
    requires |lists| == LEVELS + 1 && |executed| == LEVELS && p < LEVELS
  {
    Weigh(2 * k + Spent(lists, executed, p), Digits(executed, ReadyCount(lists), p), Pow(ReadyCount(lists) + 1, p))
  }

  function Weigh(leading: nat, rest: nat, weight: nat): nat {
    leading * weight + rest
  }

  lemma Scaled(a': nat, a: nat, w: nat)
    requires a' < a
    ensures a' * w + w <= a * w
  {
    var k := a - a' - 1;
    assert k * w >= 0;
    assert a * w == (a' + 1 + k) * w == a' * w + w + k * w;
  }

  lemma Lexicographic(a': nat, d': nat, a: nat, d: nat, w: nat)
    requires d' < w && (a' < a || (a' <= a && d' < d))
    ensures Weigh(a', d', w) < Weigh(a, d, w)
  {
    if a' < a {
      Scaled(a', a, w);
    }
  }

  lemma WaitingBound(lists: seq<seq<nat>>, executed: seq<nat>, p: nat, k: nat)
    requires |lists| == LEVELS + 1 && |executed| == LEVELS && p < LEVELS
    ensures Waiting(lists, executed, p, k) < (2 * k + 2) * Pow(ReadyCount(lists) + 1, p)
  {
    DigitsBound(executed, ReadyCount(lists), p);
    Scaled(2 * k + Spent(lists, executed, p), 2 * k + 2, Pow(ReadyCount(lists) + 1, p));
  }

  function NextPlace(j: nat, p: nat, k: nat): int {
    if j == p then k - 1 else k
  }

  /** However the head of a list is moved behind another one, what is left to wait for shrinks. */
  lemma MeasureDrops(lists: seq<seq<nat>>, executed: seq<nat>, lists': seq<seq<nat>>, e: seq<nat>,
                     j: nat, p: nat, k: nat)
    requires |lists| == |lists'| == LEVELS + 1 && |executed| == |e| == LEVELS && ReadyCount(lists') == ReadyCount(lists)
    requires j < LEVELS && p < LEVELS && (if j == p then k > 0 else |lists'[p]| >= |lists[p]| > 0)
    requires j == p || PassedOver(lists, executed, j, e, p) || Counted(lists, executed, j, e, p)
    ensures NextPlace(j, p, k) >= 0 && Waiting(lists', e, p, NextPlace(j, p, k)) < Waiting(lists, executed, p, k)
  {
    var n := ReadyCount(lists);
    DigitsBound(e, n, p);
    if j != p && !PassedOver(lists, executed, j, e, p) {
      ListShort(lists, j);
      DigitsDrop(executed, e, n, j, p);
    }
    Lexicographic(2 * NextPlace(j, p, k) + Spent(lists', e, p), Digits(e, n, p),
                  2 * k + Spent(lists, executed, p), Digits(executed, n, p), Pow(n + 1, p));
  }

  lemma MoveBringsNearer(lists: seq<seq<nat>>, executed: seq<nat>, j: nat, q: nat, r: nat, p: nat, k: nat)
    requires |lists| == LEVELS + 1 && |executed| == LEVELS && q < LEVELS
    requires p < LEVELS && k < |lists[p]| && j == NextLevel(lists, executed)
    requires j == p ==> k > 0
    ensures j < LEVELS && lists[j] != [] && NextPlace(j, p, k) >= 0 && |Moved(lists, j, q, r)| == LEVELS + 1
    ensures Waiting(Moved(lists, j, q, r), NextExecuted(lists, executed), p, NextPlace(j, p, k))
            < Waiting(lists, executed, p, k)
  {
    Picked(lists, executed, p);
    MovedCount(lists, j, q, r);
    MeasureDrops(lists, executed, Moved(lists, j, q, r), NextExecuted(lists, executed), j, p, k);
  }

  lemma ListShort(lists: seq<seq<nat>>, j: nat)
    requires |lists| == LEVELS + 1 && j < LEVELS
    ensures |lists[j]| <= ReadyCount(lists)
  {
  }

  // ----- runs of switches

  ghost predicate Follows(s: Sched, s': Sched) {
    Steady(s) && Steady(s') && s' == Switch(s)
  }

  ghost predicate FollowsAt(run: seq<Sched>, i: int) {
    0 <= i < |run| - 1 && Follows(run[i], run[i + 1])
  }

  /** The states met from `s` on, one switch after the other. */
  ghost predicate IsRun(s: Sched, run: seq<Sched>) {
    run != [] && run[0] == s && forall i :: 0 <= i < |run| - 1 ==> FollowsAt(run, i)
  }

  lemma RunPrepended(s: Sched, s': Sched, run: seq<Sched>)
    requires Follows(s, s') && IsRun(s', run)
    ensures IsRun(s, [s] + run)
  {
    forall i | 0 <= i < |run| ensures FollowsAt([s] + run, i) {
      if i > 0 {
        assert FollowsAt(run, i - 1);
      }
    }
  }

  /** Every switch either runs the task or brings it nearer. */
  lemma SwitchBringsNearer(s: Sched, p: nat, k: nat)
    requires Steady(s) && p < LEVELS && k < |s.lists[p]|
    ensures var j := NextLevel(s.lists, s.executed);
            if j == p && k == 0 then Switch(s).running == s.lists[p][k]
            else NextPlace(j, p, k) >= 0 && Nearer(s, Switch(s), p, k, NextPlace(j, p, k))
  {
    SwitchMoves(s);
    var j, q := NextLevel(s.lists, s.executed), s.flags[s.running].priority;
    if j != p || k > 0 {
      MoveBringsNearer(s.lists, s.executed, j, q, s.running, p, k);
    }
  }

  ghost predicate Nearer(s: Sched, s': Sched, p: nat, k: nat, k': nat)
    requires Sized(s) && p < LEVELS && k < |s.lists[p]|
  {
    && Sized(s')
    && k' < |s'.lists[p]| && s'.lists[p][k'] == s.lists[p][k]
    && StateWait(s', p, k') < StateWait(s, p, k)
  }

  ghost function StateWait(s: Sched, p: nat, k: nat): nat
    requires Sized(s) && p < LEVELS
  {
    Waiting(s.lists, s.executed, p, k)
  }

  /** One switch on the way: either the task runs, or it stands at `k'` with less to wait for. */
  lemma Advance(s: Sched, p: nat, k: nat) returns (s': Sched, k': nat)
    requires Steady(s) && p < LEVELS && k < |s.lists[p]|
    ensures Follows(s, s')
    ensures s'.running == s.lists[p][k] || Nearer(s, s', p, k, k')
  {
    SwitchBringsNearer(s, p, k);
    SwitchSteady(s);
    s' := Switch(s);
    k' := if s'.running == s.lists[p][k] then 0 else NextPlace(NextLevel(s.lists, s.executed), p, k);
  }

  lemma {:induction false} RunsWithin(s: Sched, p: nat, k: nat, t: nat) returns (run: seq<Sched>)
    requires Steady(s) && p < LEVELS && k < |s.lists[p]| && t == s.lists[p][k]
    ensures IsRun(s, run) && 1 < |run| <= StateWait(s, p, k) + 2
    ensures run[|run| - 1].running == t
    decreases StateWait(s, p, k)
  {
    var s', k' := Advance(s, p, k);
    if s'.running == t {
      run := [s'];
    } else {
      run := RunsWithin(s', p, k', t);
    }
    RunPrepended(s, s', run);
    run := [s] + run;
  }

  lemma PowerMeans(b: nat)
    ensures Pow(b, 0) == 1 && Pow(b, 1) == b && Pow(b, 2) == b * b
    ensures Pow(b, 3) == b * b * b && Pow(b, 4) == b * b * b * b
  {
    assert b * (b * b) == b * b * b;
    assert b * (b * b * b) == b * b * b * b;
  }

  /**
   Every ready task runs within a bounded number of switches. With `n` tasks ready, one at position `k` of
   level `p` waits for at most (2k + 2)(n + 1)^p switches, and so for at most 2n(n + 1)^p.
   */
  lemma NoStarvation(s: Sched, p: nat, k: nat) returns (run: seq<Sched>)
    requires Steady(s) && p < LEVELS && k < |s.lists[p]|
    ensures IsRun(s, run) && run[|run| - 1].running == s.lists[p][k]
    ensures 1 <= |run| - 1 <= (2 * k + 2) * Pow(ReadyCount(s.lists) + 1, p)
    ensures |run| - 1 <= 2 * ReadyCount(s.lists) * Pow(ReadyCount(s.lists) + 1, p)
  {
    run := RunsWithin(s, p, k, s.lists[p][k]);
    WaitingBound(s.lists, s.executed, p, k);
    ListShort(s.lists, p);
    if k + 1 < ReadyCount(s.lists) {
      Scaled(2 * k + 2, 2 * ReadyCount(s.lists), Pow(ReadyCount(s.lists) + 1, p));
    }
  }

  /** In a placed state, every live task that neither runs nor waits gets to run. */
  lemma EveryReadyTaskRuns(s: Sched, spots: Spots, t: nat) returns (run: seq<Sched>)
    requires Placed(s, spots) && Steady(s) && Live(s.ids, t) && t != s.running && t !in s.lists[WAIT]
    ensures t < MAXCOUNT && s.flags[t].priority < LEVELS && ReadyCount(s.lists) > 0
    ensures IsRun(s, run) && run[|run| - 1].running == t
    ensures 1 <= |run| - 1 <= 2 * ReadyCount(s.lists) * Pow(ReadyCount(s.lists) + 1, s.flags[t].priority)
  {
    var p, k := ReadyTaskAt(s, spots, t);
    run := NoStarvation(s, p, k);
  }

  lemma ReadyTaskAt(s: Sched, spots: Spots, t: nat) returns (p: nat, k: nat)
    requires Placed(s, spots) && Live(s.ids, t) && t != s.running && t !in s.lists[WAIT]
    ensures t < MAXCOUNT && p == s.flags[t].priority < LEVELS
    ensures k < |s.lists[p]| && s.lists[p][k] == t && ReadyCount(s.lists) > 0
  {
    assert t in LiveTasks(s.ids);
    p, k := spots[t].list, spots[t].position;
    assert At(s.lists, spots[t], t);
    assert Suits(s.flags, p, s.lists[p][k]);
    ListShort(s.lists, p);
  }
}
