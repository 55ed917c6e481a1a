/**
 Runs of operations on the scheduler's links. The lists hold, and a lost task stays lost, exactly as long as no
 operation finds its task behind the tail of a list; with every operation proper, every live task is in exactly
 one place.
 */
module TaskRuns {
  import opened LinkedLists
  import opened Scheduling
  import opened Placement
  import opened TaskSteps
  import opened TaskLinks

  /** Each operation can be carried out in the state in which the run meets it, as long as the links show lists. */
  ghost predicate AllEnabled(m: Machine, ops: seq<Op>)
    decreases |ops|
  {
    ops == []
    || (IsSound(m) ==> Ready(m) && LinkEnabled(m, ops[0]) && AllEnabled(LinkStep(m, ops[0]), ops[1..]))
  }

  /** Moreover, none of them finds its task behind the tail of a list. */
  ghost predicate NoneBehind(m: Machine, ops: seq<Op>)
    decreases |ops|
  {
    ops == []
    || (Ready(m) && LinkEnabled(m, ops[0]) && !FindsBehind(m, ops[0]) && NoneBehind(LinkStep(m, ops[0]), ops[1..]))
  }

  ghost function Run(m: Machine, ops: seq<Op>): Machine
    requires NoneBehind(m, ops)
    decreases |ops|
  {
    if ops == [] then m else Run(LinkStep(m, ops[0]), ops[1..])
  }

  /** In each state of the run the links show lists, no task is in two places, and only live tasks are anywhere. */
  ghost predicate AllHeld(m: Machine, ops: seq<Op>)
    decreases |ops|
  {
    IsHeld(m)
    && (ops == [] || (Ready(m) && LinkEnabled(m, ops[0]) && AllHeld(LinkStep(m, ops[0]), ops[1..])))
  }

  lemma SoundIsHeld(m: Machine)
    requires IsSound(m)
    ensures IsHeld(m) && Ready(m) && Shows(m.links, m.s.lists)
  {
    var spots :| Sound(m, spots);
    assert m.s.(lists := m.s.lists) == m.s;
  }

  /** The lists hold throughout a run exactly if no operation finds its task behind the tail of a list. */
  lemma {:induction false} RunHeldIff(m: Machine, ops: seq<Op>)
    requires IsSound(m) && AllEnabled(m, ops)
    ensures AllHeld(m, ops) <==> NoneBehind(m, ops)
    decreases |ops|
  {
    SoundIsHeld(m);
    if ops != [] {
      StepHeldIff(m, ops[0]);
      if !FindsBehind(m, ops[0]) {
        RunHeldIff(LinkStep(m, ops[0]), ops[1..]);
      }
    }
  }

  /** Then the task count is at most the use count, and they agree exactly as long as no task is lost. */
  lemma {:induction false} RunHeld(m: Machine, ops: seq<Op>)
    requires IsSound(m) && NoneBehind(m, ops)
    ensures var m' := Run(m, ops);
            && IsSound(m') && Shape(m'.s) && TaskCount(m'.s) <= m'.s.used
            && (TaskCount(m'.s) == m'.s.used <==> NoneLost(m'.s))
    decreases |ops|
  {
    if ops == [] {
      var spots :| Sound(m, spots);
      TaskCountIsUseCount(m.s, spots);
      NoneLostMeans(m.s, spots);
    } else {
      StepHeldIff(m, ops[0]);
      RunHeld(LinkStep(m, ops[0]), ops[1..]);
    }
  }

  // ----- lost tasks

  /** No operation finds another task than `t` behind the tail of a list. */
  ghost predicate NoneOther(m: Machine, ops: seq<Op>, t: nat)
    decreases |ops|
  {
    ops == []
    || (Ready(m) && LinkEnabled(m, ops[0]) ==>
          !FindsOther(m, ops[0], t) && (IsSound(m) ==> NoneOther(LinkStep(m, ops[0]), ops[1..], t)))
  }

  /** No operation finds the task behind the tail of a list and puts it on one. */
  ghost predicate NoneRevives(m: Machine, ops: seq<Op>, t: nat)
    decreases |ops|
  {
    ops == []
    || (IsSound(m) && Ready(m) && LinkEnabled(m, ops[0]) ==>
          !Revives(m, ops[0], t) && NoneRevives(LinkStep(m, ops[0]), ops[1..], t))
  }

  /** In each state of the run the task is live, does not run, and is on no list. */
  ghost predicate StaysLost(m: Machine, ops: seq<Op>, t: nat)
    decreases |ops|
  {
    LostAt(m, t)
    && (ops == [] || (IsSound(m) && Ready(m) && LinkEnabled(m, ops[0]) ==> StaysLost(LinkStep(m, ops[0]), ops[1..], t)))
  }

  /**
   A lost task stays lost throughout a run, as long as the links show lists, exactly if no operation finds it
   behind the tail of a list and puts it on one.
   */
  lemma {:induction false} StaysLostIff(m: Machine, ops: seq<Op>, t: nat)
    requires IsSound(m) && AllEnabled(m, ops) && Lost(m.s, t) && NoneOther(m, ops, t)
    ensures StaysLost(m, ops, t) <==> NoneRevives(m, ops, t)
    decreases |ops|
  {
    SoundIsHeld(m);
    LostIff(m, t);
    if ops != [] {
      var m' := LinkStep(m, ops[0]);
      var spots :| Sound(m, spots);
      LostUnlessRevived(m, spots, ops[0], t);
      StepHeldIff(m, ops[0]);
      if IsSound(m') {
        SoundIsHeld(m');
        LostIff(m', t);
        if LostAt(m', t) {
          StaysLostIff(m', ops[1..], t);
        }
      }
    }
  }

  /** So, with nothing found behind a tail, a lost task keeps its slot and its identity, and never runs again. */
  lemma {:induction false} LostForGood(m: Machine, ops: seq<Op>, t: nat)
    requires IsSound(m) && NoneBehind(m, ops) && Lost(m.s, t)
    ensures Lost(Run(m, ops).s, t)
    ensures t < |m.s.ids| && t < |Run(m, ops).s.ids| && Run(m, ops).s.ids[t] == m.s.ids[t]
    decreases |ops|
  {
    if ops != [] {
      var m' := LinkStep(m, ops[0]);
      var spots :| Sound(m, spots);
      LostUnlessRevived(m, spots, ops[0], t);
      StepHeldIff(m, ops[0]);
      SoundIsHeld(m');
      LostIff(m', t);
      LostForGood(m', ops[1..], t);
    }
  }

  // ----- proper operations

  /** A proper operation can be carried out, and its search, if it makes one, finds the task on the list. */
  lemma ProperFindsListed(m: Machine, op: Op)
    requires IsSound(m) && IsPlaced(m.s) && Proper(m.s, op)
    ensures Ready(m) && LinkEnabled(m, op) && !FindsBehind(m, op)
  {
    var spots :| Sound(m, spots);
    PlacedHow(m.s, spots);
    ProperIsEnabled(m.s, op);
    if op.OpChangePriority? || op.OpEnd? {
      var id := if op.OpEnd? then op.endId else op.id;
      AddressedIsListed(m.s, spots, id);
      if Listed(m.s, id) {
        ListedFound(m, spots, id);
      }
    }
  }

  /** Each operation is proper in the state in which the run meets it. */
  ghost predicate AllProper(m: Machine, ops: seq<Op>)
    decreases |ops|
  {
    ops == []
    || (Ready(m) ==> Proper(m.s, ops[0]) && (LinkEnabled(m, ops[0]) ==> AllProper(LinkStep(m, ops[0]), ops[1..])))
  }

  /** Over any run of proper operations, every live task is in exactly one place and the counts are equal. */
  lemma {:induction false} RunPlaced(m: Machine, ops: seq<Op>)
    requires IsSound(m) && IsPlaced(m.s) && AllProper(m, ops)
    ensures NoneBehind(m, ops)
    ensures var m' := Run(m, ops); IsSound(m') && IsPlaced(m'.s) && TaskCount(m'.s) == m'.s.used
    decreases |ops|
  {
    if ops == [] {
      var spots :| Placed(m.s, spots);
      TaskCountIsUseCount(m.s, spots);
    } else {
      ProperFindsListed(m, ops[0]);
      StepHeldIff(m, ops[0]);
      StepPlacedIff(m, ops[0]);
      RunPlaced(LinkStep(m, ops[0]), ops[1..]);
    }
  }

  // ----- the start

  /** At start no control block has a link and all lists are empty. */
  function Start(): Machine {
    Machine(Initial(), Links(seq(MAXCOUNT, _ => NULL), seq(LEVELS + 1, _ => Anchor(NULL, NULL, 0))))
  }

  lemma StartPlaced()
    ensures IsSound(Start()) && IsPlaced(Start().s)
  {
    InitialPlaced();
    var m := Start();
    forall l | 0 <= l < LEVELS + 1 ensures ShowsList(m.links, l, m.s.lists[l]) {
      assert m.s.lists[l] == [];
    }
    assert Sound(m, map[]);
  }
}
