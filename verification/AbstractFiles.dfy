/**
 What a user sees of the file system: files as byte sequences, and handles as places in files. Every run is
 compared with a record of what was written: each byte of a file is the one written there last.
 */
module AbstractFiles {
  import opened FileImage
  import opened Bytes

  datatype Pointer = Pointer(file: nat, offset: nat)

  /** The files by directory entry, and the handles in use by their place in the pool. */
  datatype Files = Files(contents: map<nat, seq<byte>>, handles: map<nat, Pointer>)

  datatype Op =
    | Created(file: nat)
    | Emptied(file: nat)
    | Opened(handle: nat, file: nat, offset: nat)
    | Closed(handle: nat)
    | Took(handle: nat, taken: seq<byte>)
    | Put(handle: nat, data: seq<byte>)
    | Sought(handle: nat, target: nat, zeros: nat)
    | Removed(file: nat)

  /** Every handle stands in a file, not past its end. */
  ghost predicate InOrder(a: Files) {
    forall h :: h in a.handles ==>
      a.handles[h].file in a.contents && a.handles[h].offset <= |a.contents[a.handles[h].file]|
  }

  predicate HasHandle(a: Files, f: nat) {
    exists h :: h in a.handles && a.handles[h].file == f
  }

  /** No other handle stands in the file of handle `h`. */
  predicate Alone(a: Files, h: nat)
    requires h in a.handles
  {
    forall g :: g in a.handles && g != h ==> a.handles[g].file != a.handles[h].file
  }

  ghost predicate Enabled(a: Files, op: Op) {
    && InOrder(a)
    && match op
       case Created(f) => f !in a.contents
       case Emptied(f) => f in a.contents && (HasHandle(a, f) ==> a.contents[f] == [])
       case Opened(h, f, at) => h !in a.handles && f in a.contents && at <= |a.contents[f]|
       case Closed(h) => h in a.handles
       case Took(h, d) => h in a.handles && Reads(a.contents[a.handles[h].file], a.handles[h].offset, d)
       case Put(h, d) => h in a.handles && (Alone(a, h) || a.handles[h].offset + |d| <= |a.contents[a.handles[h].file]|)
       case Sought(h, t, z) =>
         h in a.handles && t <= |a.contents[a.handles[h].file]| + z && (Alone(a, h) || z == 0)
       case Removed(f) => f in a.contents && !HasHandle(a, f)
  }

  ghost predicate Reads(content: seq<byte>, at: nat, d: seq<byte>) {
    at + |d| <= |content| && content[at..at + |d|] == d
  }

  function Moved(a: Files, h: nat, offset: nat): map<nat, Pointer>
    requires h in a.handles
  {
    a.handles[h := Pointer(a.handles[h].file, offset)]
  }

  ghost function Step(a: Files, op: Op): Files
    requires Enabled(a, op)
  {
    match op
    case Created(f) => a.(contents := a.contents[f := []])
    case Emptied(f) => a.(contents := a.contents[f := []])
    case Opened(h, f, at) => a.(handles := a.handles[h := Pointer(f, at)])
    case Closed(h) => a.(handles := a.handles - {h})
    case Took(h, d) => a.(handles := Moved(a, h, a.handles[h].offset + |d|))
    case Put(h, d) =>
      var p := a.handles[h];
      Files(a.contents[p.file := Splice(a.contents[p.file], p.offset, d)], Moved(a, h, p.offset + |d|))
    case Sought(h, t, z) =>
      var f := a.handles[h].file;
      Files(a.contents[f := a.contents[f] + Zeros(z)], Moved(a, h, t))
    case Removed(f) => a.(contents := a.contents - {f})
  }

  lemma StepInOrder(a: Files, op: Op)
    requires Enabled(a, op)
    ensures InOrder(Step(a, op))
  {
  }

  /** A seek keeps what the file holds and adds bytes that are zero. */
  lemma SoughtAddsZeros(a: Files, h: nat, t: nat, z: nat)
    requires Enabled(a, Sought(h, t, z))
    ensures var f := a.handles[h].file;
            var content, content' := a.contents[f], Step(a, Sought(h, t, z)).contents[f];
            && |content'| == |content| + z && content'[..|content|] == content && ZeroFrom(content', |content|, z)
  {
    ZerosSpliced(a.contents[a.handles[h].file], 0, z);
  }

  // ----- the record of what was written

  datatype Event = Cleared(file: nat) | Wrote(file: nat, at: nat, data: seq<byte>)

  /** What an operation adds to the record. */
  ghost function Recorded(a: Files, op: Op): seq<Event>
    requires Enabled(a, op)
  {
    match op
    case Created(f) => [Cleared(f)]
    case Emptied(f) => [Cleared(f)]
    case Removed(f) => [Cleared(f)]
    case Put(h, d) => [Wrote(a.handles[h].file, a.handles[h].offset, d)]
    case Sought(h, t, z) => [Wrote(a.handles[h].file, |a.contents[a.handles[h].file]|, Zeros(z))]
    case _ => []
  }

  /** How far a file has been written since it was last cleared. */
  function Extent(record: seq<Event>, f: nat): nat {
    if record == [] then 0
    else
      var before := Extent(record[..|record| - 1], f);
      match record[|record| - 1]
      case Cleared(g) => if g == f then 0 else before
      case Wrote(g, at, d) => if g == f && before < at + |d| then at + |d| else before
  }

  /** The byte last written at place `i` of a file. */
  function LastWritten(record: seq<Event>, f: nat, i: nat): byte {
    if record == [] then 0 as byte
    else
      match record[|record| - 1]
      case Cleared(g) => LastWritten(record[..|record| - 1], f, i)
      case Wrote(g, at, d) =>
        if g == f && at <= i < at + |d| then d[i - at] else LastWritten(record[..|record| - 1], f, i)
  }

  /** A file holds exactly what the record says. */
  ghost predicate Matches(content: seq<byte>, record: seq<Event>, f: nat) {
    |content| == Extent(record, f) && forall i :: 0 <= i < |content| ==> content[i] == LastWritten(record, f, i)
  }

  lemma OneMore(record: seq<Event>, e: Event)
    ensures (record + [e])[..|record|] == record && (record + [e])[|record|] == e
  {
  }

  lemma SpliceMatches(content: seq<byte>, record: seq<Event>, f: nat, at: nat, d: seq<byte>)
    requires Matches(content, record, f) && at <= |content|
    ensures Matches(Splice(content, at, d), record + [Wrote(f, at, d)], f)
  {
    OneMore(record, Wrote(f, at, d));
  }

  lemma OtherMatches(content: seq<byte>, record: seq<Event>, f: nat, e: Event)
    requires Matches(content, record, f) && e.file != f
    ensures Matches(content, record + [e], f)
  {
    OneMore(record, e);
  }

  lemma ClearedMatches(record: seq<Event>, f: nat)
    ensures Matches([], record + [Cleared(f)], f)
  {
    OneMore(record, Cleared(f));
  }

  ghost predicate AllMatch(a: Files, record: seq<Event>) {
    forall f :: f in a.contents ==> Matches(a.contents[f], record, f)
  }

  lemma StepMatches(a: Files, op: Op, record: seq<Event>)
    requires Enabled(a, op) && AllMatch(a, record)
    ensures AllMatch(Step(a, op), record + Recorded(a, op))
  {
    var events := Recorded(a, op);
    if events == [] {
      assert record + events == record;
      return;
    }
    var e := events[0];
    forall f | f in Step(a, op).contents ensures Matches(Step(a, op).contents[f], record + [e], f) {
      if f != e.file {
        OtherMatches(a.contents[f], record, f, e);
      } else {
        match e
        case Cleared(g) => ClearedMatches(record, f);
        case Wrote(g, at, d) =>
          SpliceMatches(a.contents[f], record, f, at, d);
          assert op.Sought? ==> Splice(a.contents[f], at, d) == a.contents[f] + d;
      }
    }
    assert record + events == record + [e];
  }

  // ----- runs

  ghost predicate AllEnabled(a: Files, ops: seq<Op>)
    decreases |ops|
  {
    ops == [] || (Enabled(a, ops[0]) && AllEnabled(Step(a, ops[0]), ops[1..]))
  }

  ghost function Run(a: Files, ops: seq<Op>): Files
    requires AllEnabled(a, ops)
    decreases |ops|
  {
    if ops == [] then a else Run(Step(a, ops[0]), ops[1..])
  }

  ghost function Record(a: Files, ops: seq<Op>): seq<Event>
    requires AllEnabled(a, ops)
    decreases |ops|
  {
    if ops == [] then [] else Recorded(a, ops[0]) + Record(Step(a, ops[0]), ops[1..])
  }

  lemma {:induction false} RunMatches(a: Files, ops: seq<Op>, record: seq<Event>)
    requires InOrder(a) && AllEnabled(a, ops) && AllMatch(a, record)
    ensures InOrder(Run(a, ops)) && AllMatch(Run(a, ops), record + Record(a, ops))
    decreases |ops|
  {
    if ops == [] {
      assert record + [] == record;
    } else {
      StepInOrder(a, ops[0]);
      StepMatches(a, ops[0], record);
      RunMatches(Step(a, ops[0]), ops[1..], record + Recorded(a, ops[0]));
      assert record + Recorded(a, ops[0]) + Record(Step(a, ops[0]), ops[1..])
          == record + (Recorded(a, ops[0]) + Record(Step(a, ops[0]), ops[1..]));
    }
  }

  /**
   Over every run from a freshly formatted disk, every handle stands in a file and not past its end, and each
   file is as long as it was written since it was created or emptied, each byte the one last written there.
   */
  lemma RunsHoldLastWritten(ops: seq<Op>)
    requires AllEnabled(Files(map[], map[]), ops)
    ensures var a := Run(Files(map[], map[]), ops);
            InOrder(a) && AllMatch(a, Record(Files(map[], map[]), ops))
  {
    var empty := Files(map[], map[]);
    RunMatches(empty, ops, []);
    assert [] + Record(empty, ops) == Record(empty, ops);
  }
}
