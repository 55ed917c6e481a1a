/**
 What the write-back cache promises, on values: an area of the disk, the cached lines by tag, and the
 cached tags from least to most recently used. Each operation is a function of the outcome of the
 disk calls it may make.
 */
module CacheModel {
  import opened Sequences

  type Data = seq<bv8>

  datatype Line = Line(changed: bool, data: Data)

  datatype Area = Area(disk: seq<Data>, lines: map<nat, Line>, order: seq<nat>, capacity: nat)

  datatype Outcome = Failed | Read(data: Data) | Written

  // ----- recency

  function Without(s: seq<nat>, t: nat): seq<nat> {
    if s == [] then [] else (if s[0] == t then [] else [s[0]]) + Without(s[1..], t)
  }

  /** `t` becomes the most recently used. */
  function Touch(s: seq<nat>, t: nat): seq<nat> {
    Without(s, t) + [t]
  }

  // ----- invariant and meaning

  ghost predicate Inv(a: Area) {
    && a.capacity > 0
    && Distinct(a.order) && |a.order| <= a.capacity
    && (forall t :: t in a.order <==> t in a.lines)
    && (a.order != [] ==> a.order[0] in a.lines)
    && (forall t :: t in a.lines ==> t < |a.disk|)
    && (forall t :: t in a.lines && !a.lines[t].changed ==> a.lines[t].data == a.disk[t])
  }

  /** The contents of the area as its users see it. */
  function Logical(a: Area): seq<Data> {
    seq(|a.disk|, i requires 0 <= i < |a.disk| => if i in a.lines then a.lines[i].data else a.disk[i])
  }

  function Empty(disk: seq<Data>, capacity: nat): Area {
    Area(disk, map[], [], capacity)
  }

  // ----- operations

  /** The line of tag `t` has been written back. */
  function Cleaned(a: Area, t: nat): Area
    requires t in a.lines && t < |a.disk|
  {
    a.(disk := a.disk[t := a.lines[t].data], lines := a.lines[t := Line(false, a.lines[t].data)])
  }

  function Evicted(a: Area, t: nat): Area {
    a.(lines := a.lines - {t}, order := Without(a.order, t))
  }

  /** Makes room for one more line; fails, losing nothing, when the victim cannot be written back. */
  function MakeRoom(a: Area, writeOk: bool): (Area, bool)
    requires a.order != [] ==> a.order[0] in a.lines && a.order[0] < |a.disk|
    requires a.capacity > 0
  {
    if |a.order| < a.capacity then (a, true)
    else
      var v := a.order[0];
      if a.lines[v].changed && !writeOk then (a.(order := Touch(a.order, v)), false)
      else
        (Evicted(if a.lines[v].changed then Cleaned(a, v) else a, v), true)
  }

  function Install(a: Area, t: nat, line: Line): Area {
    a.(lines := a.lines[t := line], order := a.order + [t])
  }

  predicate Ready(a: Area, t: nat) {
    && a.capacity > 0
    && (a.order != [] ==> a.order[0] in a.lines && a.order[0] < |a.disk|)
    && t < |a.disk|
  }

  function ReadSpec(a: Area, t: nat, readOk: bool, writeOk: bool): (Area, Outcome)
    requires Ready(a, t)
  {
    if t in a.lines then (a.(order := Touch(a.order, t)), Read(a.lines[t].data))
    else if !readOk then (a, Failed)
    else
      var (b, ok) := MakeRoom(a, writeOk);
      if !ok then (b, Failed) else (Install(b, t, Line(false, a.disk[t])), Read(a.disk[t]))
  }

  function WriteSpec(a: Area, t: nat, d: Data, writeOk: bool): (Area, Outcome)
    requires Ready(a, t)
  {
    if t in a.lines then (a.(lines := a.lines[t := Line(true, d)], order := Touch(a.order, t)), Written)
    else
      var (b, ok) := MakeRoom(a, writeOk);
      if !ok then (b, Failed) else (Install(b, t, Line(true, d)), Written)
  }

  // ----- facts about recency

  lemma {:induction false} WithoutMembers(s: seq<nat>, t: nat)
    requires Distinct(s)
    ensures Distinct(Without(s, t))
    ensures forall x :: x in Without(s, t) <==> x in s && x != t
    ensures |Without(s, t)| == if t in s then |s| - 1 else |s|
  {
    if s != [] {
      assert forall i, j :: 0 <= i < j < |s[1..]| ==> s[1..][i] == s[i + 1] && s[1..][j] == s[j + 1];
      WithoutMembers(s[1..], t);
      assert s == [s[0]] + s[1..];
      assert s[0] !in s[1..];
    }
  }

  lemma {:induction false} WithoutAbsent(s: seq<nat>, t: nat)
    requires t !in s
    ensures Without(s, t) == s
  {
    if s != [] {
      WithoutAbsent(s[1..], t);
    }
  }

  lemma {:induction false} WithoutConcat(a: seq<nat>, b: seq<nat>, t: nat)
    ensures Without(a + b, t) == Without(a, t) + Without(b, t)
  {
    if a == [] {
      assert a + b == b;
    } else {
      assert (a + b)[1..] == a[1..] + b;
      WithoutConcat(a[1..], b, t);
    }
  }

  lemma WithoutHead(s: seq<nat>)
    requires Distinct(s) && s != []
    ensures Without(s, s[0]) == s[1..]
  {
    assert s[0] !in s[1..];
    WithoutAbsent(s[1..], s[0]);
  }

  lemma TouchMembers(s: seq<nat>, t: nat)
    requires Distinct(s)
    ensures Distinct(Touch(s, t))
    ensures forall x :: x in Touch(s, t) <==> x in s || x == t
    ensures |Touch(s, t)| == if t in s then |s| else |s| + 1
  {
    WithoutMembers(s, t);
  }

  // ----- the cache refines the disk

  lemma TouchKeeps(a: Area, t: nat)
    requires Inv(a) && t in a.lines
    ensures Inv(a.(order := Touch(a.order, t))) && Logical(a.(order := Touch(a.order, t))) == Logical(a)
  {
    TouchMembers(a.order, t);
    assert Touch(a.order, t)[0] in Touch(a.order, t);
  }

  /** Taking out a line whose data the disk holds. */
  lemma EvictKeeps(a: Area, v: nat)
    requires Inv(a) && v in a.lines && !a.lines[v].changed
    ensures Inv(Evicted(a, v)) && Logical(Evicted(a, v)) == Logical(a)
    ensures |Evicted(a, v).order| == |a.order| - 1
  {
    WithoutMembers(a.order, v);
    assert Without(a.order, v) != [] ==> Without(a.order, v)[0] in Without(a.order, v);
  }

  lemma MakeRoomKeeps(a: Area, writeOk: bool)
    requires Inv(a)
    ensures var (b, ok) := MakeRoom(a, writeOk);
            && Inv(b) && Logical(b) == Logical(a)
            && b.lines.Keys <= a.lines.Keys && b.capacity == a.capacity
            && (ok ==> |b.order| < b.capacity)
            && (forall t :: 0 <= t < |a.disk| && t !in a.lines ==> b.disk[t] == a.disk[t])
  {
    if |a.order| == a.capacity {
      var v := a.order[0];
      TouchKeeps(a, v);
      if a.lines[v].changed {
        CleanedKeeps(a, v);
        EvictKeeps(Cleaned(a, v), v);
      } else {
        EvictKeeps(a, v);
      }
    }
  }

  lemma InstallKeeps(a: Area, t: nat, line: Line)
    requires Inv(a) && |a.order| < a.capacity
    requires t < |a.disk| && t !in a.lines && (!line.changed ==> line.data == a.disk[t])
    ensures Inv(Install(a, t, line))
    ensures Logical(Install(a, t, line)) == Logical(a)[t := line.data]
  {
  }

  /** A read never changes the logical contents, and what it returns is what they hold. */
  lemma ReadRefines(a: Area, t: nat, readOk: bool, writeOk: bool)
    requires Inv(a) && t < |a.disk|
    ensures var (b, r) := ReadSpec(a, t, readOk, writeOk);
            && Inv(b) && Logical(b) == Logical(a) && b.capacity == a.capacity
            && (r != Failed ==> r == Read(Logical(a)[t]))
            && ((t in a.lines || readOk) && writeOk ==> r != Failed)
  {
    if t in a.lines {
      TouchMembers(a.order, t);
    } else if readOk {
      MakeRoomKeeps(a, writeOk);
      var (b, ok) := MakeRoom(a, writeOk);
      if ok {
        InstallKeeps(b, t, Line(false, a.disk[t]));
        assert Logical(b)[t] == a.disk[t];
      }
    }
  }

  /** A successful write replaces exactly one sector; a failed one changes nothing. */
  lemma WriteRefines(a: Area, t: nat, d: Data, writeOk: bool)
    requires Inv(a) && t < |a.disk|
    ensures var (b, r) := WriteSpec(a, t, d, writeOk);
            && Inv(b) && b.capacity == a.capacity
            && Logical(b) == (if r == Failed then Logical(a) else Logical(a)[t := d])
            && (t in a.lines || writeOk ==> r != Failed)
  {
    if t in a.lines {
      TouchMembers(a.order, t);
    } else {
      MakeRoomKeeps(a, writeOk);
      var (b, ok) := MakeRoom(a, writeOk);
      if ok {
        InstallKeeps(b, t, Line(true, d));
      }
    }
  }

  lemma CleanedKeeps(a: Area, t: nat)
    requires Inv(a) && t in a.lines
    ensures Inv(Cleaned(a, t)) && Logical(Cleaned(a, t)) == Logical(a)
  {
  }

  /** The lines of the given tags have been written back one after the other. */
  function CleanedAll(a: Area, ts: seq<nat>): Area {
    if ts == [] then a
    else
      var b := CleanedAll(a, ts[..|ts| - 1]);
      var t := ts[|ts| - 1];
      if t in b.lines && t < |b.disk| then Cleaned(b, t) else b
  }

  ghost predicate AllCached(a: Area, ts: seq<nat>) {
    forall k :: 0 <= k < |ts| ==> ts[k] in a.lines
  }

  lemma CleanedNext(a: Area, ts: seq<nat>, t: nat)
    requires t in CleanedAll(a, ts).lines && t < |CleanedAll(a, ts).disk|
    ensures CleanedAll(a, ts + [t]) == Cleaned(CleanedAll(a, ts), t)
    ensures AllCached(a, ts) && t in a.lines ==> AllCached(a, ts + [t])
  {
    assert (ts + [t])[..|ts|] == ts;
  }

  lemma CleanedNextArea(a: Area, ts: seq<nat>, t: nat, b: Area, c: Area)
    requires AllCached(a, ts) && b == CleanedAll(a, ts) && b.lines.Keys == a.lines.Keys
    requires t in b.lines && t < |b.disk| && c == Cleaned(b, t)
    ensures AllCached(a, ts + [t]) && c == CleanedAll(a, ts + [t]) && c.lines.Keys == a.lines.Keys
  {
    CleanedNext(a, ts, t);
  }

  /** With every line clean, the disk holds the logical contents. */
  lemma CleanMeansFlushed(a: Area)
    requires Inv(a) && forall t :: t in a.lines ==> !a.lines[t].changed
    ensures a.disk == Logical(a)
  {
  }

  // ----- every run

  datatype Op =
    | ReadOp(tag: nat, readOk: bool, writeOk: bool)
    | WriteOp(tag: nat, data: Data, writeOk: bool)
    | CleanOp(tag: nat)

  ghost predicate Allowed(a: Area, op: Op) {
    op.tag < |a.disk| && (op.CleanOp? ==> op.tag in a.lines)
  }

  ghost function Do(a: Area, op: Op): (Area, Outcome)
    requires Inv(a) && Allowed(a, op)
  {
    match op
    case ReadOp(t, r, w) => ReadSpec(a, t, r, w)
    case WriteOp(t, d, w) => WriteSpec(a, t, d, w)
    case CleanOp(t) => (Cleaned(a, t), Written)
  }

  ghost predicate Stepped(a: Area, op: Op, b: Area, r: Outcome) {
    Inv(a) && Allowed(a, op) && Do(a, op) == (b, r)
  }

  /** A run from an empty cache: `areas[i]` turns into `areas[i + 1]` by `ops[i]`, with `results[i]`. */
  ghost predicate Run(areas: seq<Area>, ops: seq<Op>, results: seq<Outcome>) {
    && |areas| == |ops| + 1 && |results| == |ops|
    && areas[0].capacity > 0 && areas[0] == Empty(areas[0].disk, areas[0].capacity)
    && forall i :: 0 <= i < |ops| ==> Stepped(areas[i], ops[i], areas[i + 1], results[i])
  }

  /** What an operation means for the logical contents. */
  ghost predicate Effect(l: seq<Data>, op: Op, l': seq<Data>, r: Outcome) {
    && op.tag < |l|
    && l' == (if op.WriteOp? && r != Failed then l[op.tag := op.data] else l)
    && (op.ReadOp? && r != Failed ==> r == Read(l[op.tag]))
  }

  /** Every operation on the cached area is that operation on the plain sectors, or fails harmlessly. */
  lemma StepRefines(a: Area, op: Op, b: Area, r: Outcome)
    requires Stepped(a, op, b, r)
    ensures Inv(b) && Effect(Logical(a), op, Logical(b), r)
  {
    match op
    case ReadOp(t, r, w) => ReadRefines(a, t, r, w);
    case WriteOp(t, d, w) => WriteRefines(a, t, d, w);
    case CleanOp(t) => CleanedKeeps(a, t);
  }

  lemma {:induction false} CleanedAllInv(a: Area, ts: seq<nat>)
    requires Inv(a) && AllCached(a, ts)
    ensures Inv(CleanedAll(a, ts)) && CleanedAll(a, ts).lines.Keys == a.lines.Keys
    ensures Logical(CleanedAll(a, ts)) == Logical(a) && |CleanedAll(a, ts).disk| == |a.disk|
  {
    if ts != [] {
      CleanedAllInv(a, ts[..|ts| - 1]);
      var b := CleanedAll(a, ts[..|ts| - 1]);
      if ts[|ts| - 1] in b.lines {
        CleanedKeeps(b, ts[|ts| - 1]);
      }
    }
  }

  /** Writing lines back one after the other is a run of cleaning steps, so what holds of runs holds of it. */
  lemma CleanedAllSteps(a: Area, ts: seq<nat>, i: nat)
    requires Inv(a) && AllCached(a, ts) && i < |ts|
    ensures Stepped(CleanedAll(a, ts[..i]), CleanOp(ts[i]), CleanedAll(a, ts[..i + 1]), Written)
  {
    CleanedAllInv(a, ts[..i]);
    assert ts[..i + 1] == ts[..i] + [ts[i]];
    CleanedNext(a, ts[..i], ts[i]);
  }

  /** The data last written to a sector by the operations so far, or what the disk first held. */
  function LastWritten(disk: seq<Data>, ops: seq<Op>, results: seq<Outcome>, t: nat): Data
    requires |ops| == |results| && t < |disk|
  {
    if ops == [] then disk[t]
    else
      var n := |ops| - 1;
      if ops[n].WriteOp? && ops[n].tag == t && results[n] != Failed then ops[n].data
      else LastWritten(disk, ops[..n], results[..n], t)
  }

  lemma {:induction false} EffectsHoldLastWritten(ls: seq<seq<Data>>, ops: seq<Op>, results: seq<Outcome>,
                                                  i: nat, t: nat)
    requires |ls| == |ops| + 1 && |results| == |ops|
    requires forall k :: 0 <= k < |ops| ==> Effect(ls[k], ops[k], ls[k + 1], results[k])
    requires i <= |ops| && t < |ls[0]|
    ensures |ls[i]| == |ls[0]| && ls[i][t] == LastWritten(ls[0], ops[..i], results[..i], t)
  {
    if i > 0 {
      EffectsHoldLastWritten(ls, ops, results, i - 1, t);
      assert Effect(ls[i - 1], ops[i - 1], ls[i - 1 + 1], results[i - 1]);
      assert ops[..i][..i - 1] == ops[..i - 1] && results[..i][..i - 1] == results[..i - 1];
    }
  }

  /** In every run the logical contents are the data last written. */
  lemma RunHoldsLastWritten(areas: seq<Area>, ops: seq<Op>, results: seq<Outcome>, i: nat, t: nat)
    requires Run(areas, ops, results)
    requires i < |areas| && t < |areas[0].disk|
    ensures |Logical(areas[i])| == |areas[0].disk|
    ensures Logical(areas[i])[t] == LastWritten(areas[0].disk, ops[..i], results[..i], t)
  {
    var ls := RunEffects(areas, ops, results);
    EffectsHoldLastWritten(ls, ops, results, i, t);
  }

  /** In every run a read that succeeds returns the data last written to its sector. */
  lemma ReadsReturnLastWritten(areas: seq<Area>, ops: seq<Op>, results: seq<Outcome>, i: nat)
    requires Run(areas, ops, results)
    requires i < |ops| && ops[i].ReadOp? && results[i] != Failed
    ensures ops[i].tag < |areas[0].disk|
    ensures results[i] == Read(LastWritten(areas[0].disk, ops[..i], results[..i], ops[i].tag))
  {
    var ls := RunEffects(areas, ops, results);
    assert Effect(ls[i], ops[i], ls[i + 1], results[i]);
    EffectsHoldLength(ls, ops, results, i);
    EffectsHoldLastWritten(ls, ops, results, i, ops[i].tag);
  }

  lemma {:induction false} EffectsHoldLength(ls: seq<seq<Data>>, ops: seq<Op>, results: seq<Outcome>, i: nat)
    requires |ls| == |ops| + 1 && |results| == |ops|
    requires forall k :: 0 <= k < |ops| ==> Effect(ls[k], ops[k], ls[k + 1], results[k])
    requires i <= |ops|
    ensures |ls[i]| == |ls[0]|
  {
    if i > 0 {
      EffectsHoldLength(ls, ops, results, i - 1);
      assert Effect(ls[i - 1], ops[i - 1], ls[i - 1 + 1], results[i - 1]);
    }
  }

  lemma RunEffects(areas: seq<Area>, ops: seq<Op>, results: seq<Outcome>) returns (ls: seq<seq<Data>>)
    requires Run(areas, ops, results)
    ensures |ls| == |areas| && ls[0] == areas[0].disk
    ensures forall k :: 0 <= k < |areas| ==> ls[k] == Logical(areas[k])
    ensures forall k :: 0 <= k < |ops| ==> Effect(ls[k], ops[k], ls[k + 1], results[k])
  {
    ls := seq(|areas|, k requires 0 <= k < |areas| => Logical(areas[k]));
    forall k | 0 <= k < |ops| ensures Effect(ls[k], ops[k], ls[k + 1], results[k]) {
      StepRefines(areas[k], ops[k], areas[k + 1], results[k]);
    }
    assert Logical(areas[0]) == areas[0].disk;
  }

  // ----- true least-recently-used order

  /** All tags ever used, each once, by last use. */
  function Recency(history: seq<nat>): seq<nat> {
    if history == [] then [] else Touch(Recency(history[..|history| - 1]), history[|history| - 1])
  }

  /** The order after a use of `t` that succeeds. */
  function Access(order: seq<nat>, t: nat, capacity: nat): seq<nat>
    requires capacity > 0
  {
    if t in order || |order| < capacity then Touch(order, t) else order[1..] + [t]
  }

  function AccessAll(history: seq<nat>, capacity: nat): seq<nat>
    requires capacity > 0
  {
    if history == [] then []
    else Access(AccessAll(history[..|history| - 1], capacity), history[|history| - 1], capacity)
  }

  function Last(s: seq<nat>, k: nat): seq<nat> {
    if |s| <= k then s else s[|s| - k..]
  }

  lemma {:induction false} RecencyDistinct(history: seq<nat>)
    ensures Distinct(Recency(history))
  {
    if history != [] {
      RecencyDistinct(history[..|history| - 1]);
      TouchMembers(Recency(history[..|history| - 1]), history[|history| - 1]);
    }
  }

  lemma AccessHit(p: seq<nat>, o: seq<nat>, t: nat, k: nat)
    requires k > 0 && Distinct(p + o) && t in o
    requires |o| == k || (|o| < k && p == [])
    ensures Access(o, t, k) == Last(Touch(p + o, t), k)
  {
    DistinctParts(p, o);
    WithoutConcat(p, o, t);
    WithoutMembers(o, t);
    OnlyInSecond(p, o, t);
    WithoutAbsent(p, t);
    assert Touch(p + o, t) == p + Touch(o, t);
  }

  lemma AccessMiss(p: seq<nat>, o: seq<nat>, t: nat, k: nat)
    requires k > 0 && Distinct(p + o) && t !in o
    requires |o| == k || (|o| < k && p == [])
    ensures Access(o, t, k) == Last(Touch(p + o, t), k)
  {
    WithoutConcat(p, o, t);
    WithoutAbsent(o, t);
    LastOfJoin(Without(p, t), o, t, k);
    assert Touch(p + o, t) == Without(p, t) + o + [t];
  }

  /** The last `k` of a sequence that ends in `o` and one more. */
  lemma LastOfJoin(q: seq<nat>, o: seq<nat>, t: nat, k: nat)
    requires k > 0 && (|o| == k || (|o| < k && q == []))
    ensures Last(q + o + [t], k) == if |o| == k then o[1..] + [t] else o + [t]
  {
    var s := q + o + [t];
    if |o| == k {
      assert s[|s| - k..] == o[1..] + [t];
    } else {
      assert s == o + [t];
    }
  }

  /** One use moves a window of the recency list to a window of the new one. */
  lemma AccessWindow(p: seq<nat>, o: seq<nat>, t: nat, k: nat)
    requires k > 0 && Distinct(p + o)
    requires |o| == k || (|o| < k && p == [])
    ensures Access(o, t, k) == Last(Touch(p + o, t), k)
  {
    if t in o {
      AccessHit(p, o, t, k);
    } else {
      AccessMiss(p, o, t, k);
    }
  }

  lemma OnlyInSecond(p: seq<nat>, o: seq<nat>, t: nat)
    requires Distinct(p + o) && t in o
    ensures t !in p
  {
    var i :| 0 <= i < |o| && o[i] == t;
    assert (p + o)[|p| + i] == t;
    assert forall j :: 0 <= j < |p| ==> (p + o)[j] == p[j];
  }

  lemma DistinctParts(p: seq<nat>, o: seq<nat>)
    requires Distinct(p + o)
    ensures Distinct(p) && Distinct(o)
  {
    assert forall i :: 0 <= i < |p| ==> p[i] == (p + o)[i];
    assert forall i :: 0 <= i < |o| ==> o[i] == (p + o)[|p| + i];
  }

  /** The cached tags are exactly the most recently used ones, oldest first. */
  lemma {:induction false} CacheHoldsMostRecent(history: seq<nat>, capacity: nat)
    requires capacity > 0
    ensures AccessAll(history, capacity) == Last(Recency(history), capacity)
  {
    if history != [] {
      var before := history[..|history| - 1];
      CacheHoldsMostRecent(before, capacity);
      RecencyDistinct(before);
      var r, o := Recency(before), Last(Recency(before), capacity);
      var p := r[..|r| - |o|];
      assert r == p + o;
      AccessWindow(p, o, history[|history| - 1], capacity);
    }
  }

  /**
   The tag that an operation uses: its own if it succeeds, the victim's if no room could be made because the
   victim was not written back, and none if the sector could not be read or a line is only written back.
   */
  ghost function Uses(a: Area, op: Op): seq<nat>
    requires Inv(a) && Allowed(a, op)
  {
    match op
    case CleanOp(_) => []
    case ReadOp(t, readOk, writeOk) =>
      if Do(a, op).1 != Failed then [t] else if !readOk then [] else [a.order[0]]
    case WriteOp(t, _, _) =>
      if Do(a, op).1 != Failed then [t] else [a.order[0]]
  }

  /** Every operation orders the tags by that rule, whether it succeeds or fails. */
  lemma OperationsAreAccesses(a: Area, op: Op)
    requires Inv(a) && Allowed(a, op)
    ensures Do(a, op).0.capacity == a.capacity
    ensures Do(a, op).0.order == if Uses(a, op) == [] then a.order else Access(a.order, Uses(a, op)[0], a.capacity)
  {
    if !op.CleanOp? && op.tag !in a.lines {
      WithoutAbsent(a.order, op.tag);
      RoomOrder(a, op.writeOk);
    }
  }

  /** The tags used by the first `i` operations of a run. */
  ghost function History(areas: seq<Area>, ops: seq<Op>, results: seq<Outcome>, i: nat): seq<nat>
    requires Run(areas, ops, results) && i <= |ops|
  {
    if i == 0 then []
    else
      assert Stepped(areas[i - 1], ops[i - 1], areas[i - 1 + 1], results[i - 1]);
      History(areas, ops, results, i - 1) + Uses(areas[i - 1], ops[i - 1])
  }

  /** In every run, at every moment, the cached tags are the most recently used ones, in order of use. */
  lemma RunHoldsMostRecent(areas: seq<Area>, ops: seq<Op>, results: seq<Outcome>, i: nat)
    requires Run(areas, ops, results) && i <= |ops|
    ensures areas[i].capacity == areas[0].capacity
    ensures areas[i].order == Last(Recency(History(areas, ops, results, i)), areas[0].capacity)
  {
    RunIsAccesses(areas, ops, results, i);
    CacheHoldsMostRecent(History(areas, ops, results, i), areas[0].capacity);
  }

  lemma {:induction false} RunIsAccesses(areas: seq<Area>, ops: seq<Op>, results: seq<Outcome>, i: nat)
    requires Run(areas, ops, results) && i <= |ops|
    ensures areas[i].capacity == areas[0].capacity
    ensures areas[i].order == AccessAll(History(areas, ops, results, i), areas[0].capacity)
  {
    if i > 0 {
      RunIsAccesses(areas, ops, results, i - 1);
      assert Stepped(areas[i - 1], ops[i - 1], areas[i - 1 + 1], results[i - 1]);
      StepAccesses(areas[i - 1], ops[i - 1], areas[i], results[i - 1], History(areas, ops, results, i - 1));
    }
  }

  lemma StepAccesses(a: Area, op: Op, b: Area, r: Outcome, history: seq<nat>)
    requires Stepped(a, op, b, r) && a.order == AccessAll(history, a.capacity)
    ensures b.capacity == a.capacity && b.order == AccessAll(history + Uses(a, op), a.capacity)
  {
    OperationsAreAccesses(a, op);
    AccessesGrow(history, Uses(a, op), a.capacity);
  }

  lemma AccessesGrow(history: seq<nat>, uses: seq<nat>, capacity: nat)
    requires capacity > 0 && |uses| <= 1
    ensures AccessAll(history + uses, capacity)
            == if uses == [] then AccessAll(history, capacity)
               else Access(AccessAll(history, capacity), uses[0], capacity)
  {
    if uses == [] {
      assert history + uses == history;
    } else {
      assert (history + uses)[..|history|] == history && (history + uses)[|history|] == uses[0];
    }
  }

  /** The victim is the least recently used line; one that cannot be written back becomes the most recently used. */
  lemma RoomOrder(a: Area, writeOk: bool)
    requires Inv(a)
    ensures MakeRoom(a, writeOk).1 ==>
              MakeRoom(a, writeOk).0.order == if |a.order| < a.capacity then a.order else a.order[1..]
    ensures !MakeRoom(a, writeOk).1 ==>
              a.order != [] && MakeRoom(a, writeOk).0.order == Access(a.order, a.order[0], a.capacity)
  {
    if |a.order| == a.capacity {
      WithoutHead(a.order);
    }
  }
}
