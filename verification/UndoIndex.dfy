/** The undo machinery of a chainbase index, on values: an undo record, the state
    of an index, and one function per operation. Object ids are natural numbers and
    `V` is the rest of an object. */
module UndoIndex {
  import opened Options

  /** What one open session remembers: the first value of every object it changed,
      the first value of every object it deleted, and the ids it created. */
  datatype UndoState<V> = UndoState(
    oldValues: map<nat, V>,
    removedValues: map<nat, V>,
    newIds: set<nat>,
    oldNextId: nat,
    revision: int)

  datatype Index<V> = Index(
    stack: seq<UndoState<V>>,
    revision: int,
    nextId: nat,
    rows: map<nat, V>)

  datatype Op<V> =
    | Create(v: V)
    | Update(id: nat, v: V)
    | Delete(id: nat)
    | Start
    | Revert
    | Absorb
    | Discard(upTo: int)
    | Renumber(to: nat)

  // ----- bookkeeping done before a row changes

  function OnModify<V>(u: UndoState<V>, id: nat, v: V): UndoState<V> {
    if id in u.newIds || id in u.oldValues then u
    else u.(oldValues := u.oldValues[id := v])
  }

  function OnRemove<V>(u: UndoState<V>, id: nat, v: V): UndoState<V> {
    if id in u.newIds then u.(newIds := u.newIds - {id})
    else if id in u.oldValues then
      u.(removedValues := u.removedValues[id := u.oldValues[id]], oldValues := u.oldValues - {id})
    else if id in u.removedValues then u
    else u.(removedValues := u.removedValues[id := v])
  }

  function OnCreate<V>(u: UndoState<V>, id: nat): UndoState<V> {
    u.(newIds := u.newIds + {id})
  }

  function Top<V>(stack: seq<UndoState<V>>): UndoState<V>
    requires stack != []
  {
    stack[|stack| - 1]
  }

  function SetTop<V>(stack: seq<UndoState<V>>, u: UndoState<V>): seq<UndoState<V>>
    requires stack != []
  {
    stack[..|stack| - 1] + [u]
  }

  // ----- operations

  /** An operation on one row that finds its row. */
  predicate RowOp<V>(s: Index<V>, op: Op<V>) {
    op.Create? || ((op.Update? || op.Delete?) && op.id in s.rows)
  }

  /** The record of an open session after a row operation on `s`. */
  function Record<V>(u: UndoState<V>, s: Index<V>, op: Op<V>): UndoState<V>
    requires RowOp(s, op)
  {
    match op
    case Create(_) => OnCreate(u, s.nextId)
    case Update(id, _) => OnModify(u, id, s.rows[id])
    case Delete(id) => OnRemove(u, id, s.rows[id])
  }

  function NextRows<V>(s: Index<V>, op: Op<V>): map<nat, V>
    requires RowOp(s, op)
  {
    match op
    case Create(v) => s.rows[s.nextId := v]
    case Update(id, v) => s.rows[id := v]
    case Delete(id) => s.rows - {id}
  }

  /** Construct, change or delete one row, recording it in the youngest open session. */
  function RowStep<V>(s: Index<V>, op: Op<V>): Index<V>
    requires RowOp(s, op)
  {
    Index(if s.stack == [] then [] else SetTop(s.stack, Record(Top(s.stack), s, op)),
          s.revision,
          if op.Create? then s.nextId + 1 else s.nextId,
          NextRows(s, op))
  }

  function StartUndoSession<V>(s: Index<V>): Index<V> {
    s.(revision := s.revision + 1,
       stack := s.stack + [UndoState(map[], map[], {}, s.nextId, s.revision + 1)])
  }

  /** The rows with the changes recorded in `u` reverted. */
  function Restore<V>(rows: map<nat, V>, u: UndoState<V>): map<nat, V> {
    ((rows - u.newIds) + u.oldValues) + u.removedValues
  }

  function Undo<V>(s: Index<V>): Index<V> {
    if s.stack == [] then s
    else Index(s.stack[..|s.stack| - 1], s.revision - 1, Top(s.stack).oldNextId, Restore(s.rows, Top(s.stack)))
  }

  /** The record of a session `prev` that has absorbed its child session `u`. */
  function Merge<V>(prev: UndoState<V>, u: UndoState<V>): UndoState<V> {
    UndoState(
      ((u.oldValues - prev.newIds) + prev.oldValues) - u.removedValues.Keys,
      prev.removedValues
        + (map id | id in u.removedValues && id !in prev.newIds
             :: if id in prev.oldValues then prev.oldValues[id] else u.removedValues[id]),
      (prev.newIds + u.newIds) - u.removedValues.Keys,
      prev.oldNextId,
      prev.revision)
  }

  function SquashTop<V>(stack: seq<UndoState<V>>): seq<UndoState<V>>
    requires |stack| >= 2
  {
    var n := |stack|;
    stack[..n - 2] + [Merge(stack[n - 2], stack[n - 1])]
  }

  function Squash<V>(s: Index<V>): Index<V> {
    if s.stack == [] then s
    else if |s.stack| == 1 then s.(stack := [], revision := s.revision - 1)
    else s.(stack := SquashTop(s.stack), revision := s.revision - 1)
  }

  function DropCommitted<V>(stack: seq<UndoState<V>>, revision: int): seq<UndoState<V>> {
    if stack != [] && stack[0].revision <= revision then DropCommitted(stack[1..], revision) else stack
  }

  function Commit<V>(s: Index<V>, revision: int): Index<V> {
    s.(stack := DropCommitted(s.stack, revision))
  }

  function UndoAll<V>(s: Index<V>): Index<V>
    decreases |s.stack|
  {
    if s.stack == [] then s else UndoAll(Undo(s))
  }

  // ----- well-formed states

  /** `u` describes a way from an earlier state (next id `u.oldNextId`) to `rows`. */
  ghost predicate Describes<V>(u: UndoState<V>, rows: map<nat, V>, nextId: nat) {
    && u.oldNextId <= nextId
    && (forall id :: id in rows ==> id < nextId && (id in u.newIds <==> u.oldNextId <= id))
    && (forall id :: id in u.newIds ==> id in rows)
    && (forall id :: id in u.oldValues ==> id in rows && id !in u.newIds)
    && (forall id :: id in u.removedValues ==> id !in rows && id < u.oldNextId)
  }

  ghost predicate StackValid<V>(stack: seq<UndoState<V>>, rows: map<nat, V>, nextId: nat, revision: int) {
    if stack == [] then forall id :: id in rows ==> id < nextId
    else
      && Describes(Top(stack), rows, nextId)
      && Top(stack).revision == revision
      && StackValid(stack[..|stack| - 1], Restore(rows, Top(stack)), Top(stack).oldNextId, revision - 1)
  }

  ghost predicate Valid<V>(s: Index<V>) {
    StackValid(s.stack, s.rows, s.nextId, s.revision)
  }

  // ----- the reference machine: a stack of complete copies

  datatype Copy<V> = Copy(rows: map<nat, V>, nextId: nat)

  datatype Snapshots<V> = Snapshots(current: Copy<V>, saved: seq<Copy<V>>, revision: int)

  ghost function Saved<V>(stack: seq<UndoState<V>>, rows: map<nat, V>): (saved: seq<Copy<V>>)
    ensures |saved| == |stack|
  {
    if stack == [] then []
    else
      var before := Restore(rows, Top(stack));
      Saved(stack[..|stack| - 1], before) + [Copy(before, Top(stack).oldNextId)]
  }

  ghost function View<V>(s: Index<V>): Snapshots<V> {
    Snapshots(Copy(s.rows, s.nextId), Saved(s.stack, s.rows), s.revision)
  }

  const MAX_REVISION: nat := 0x7FFF_FFFF_FFFF_FFFF

  /** One operation. A lookup of a missing id and a renumbering that the code refuses
      leave the index alone (the code throws before touching it). */
  function Step<V>(s: Index<V>, op: Op<V>): Index<V> {
    match op
    case Create(_) => RowStep(s, op)
    case Update(id, _) => if id in s.rows then RowStep(s, op) else s
    case Delete(id) => if id in s.rows then RowStep(s, op) else s
    case Start => StartUndoSession(s)
    case Revert => Undo(s)
    case Absorb => Squash(s)
    case Discard(r) => Commit(s, r)
    case Renumber(r) => if s.stack == [] && r <= MAX_REVISION then s.(revision := r) else s
  }

  function Max(a: int, b: int): int { if a < b then b else a }
  function Min(a: int, b: int): int { if a < b then a else b }

  /** The same operation when every session keeps a complete copy. */
  ghost function SnapshotStep<V>(a: Snapshots<V>, op: Op<V>): Snapshots<V> {
    var n := |a.saved|;
    match op
    case Create(v) =>
      a.(current := Copy(a.current.rows[a.current.nextId := v], a.current.nextId + 1))
    case Update(id, v) =>
      if id in a.current.rows then a.(current := a.current.(rows := a.current.rows[id := v])) else a
    case Delete(id) => a.(current := a.current.(rows := a.current.rows - {id}))
    case Start => a.(saved := a.saved + [a.current], revision := a.revision + 1)
    case Revert =>
      if n == 0 then a else Snapshots(a.saved[n - 1], a.saved[..n - 1], a.revision - 1)
    case Absorb => if n == 0 then a else a.(saved := a.saved[..n - 1], revision := a.revision - 1)
    case Discard(r) => a.(saved := a.saved[Max(0, Min(n, r - (a.revision - n)))..])
    case Renumber(r) => if n == 0 && r <= MAX_REVISION then a.(revision := r) else a
  }

  function Run<V>(s: Index<V>, ops: seq<Op<V>>): Index<V>
    decreases |ops|
  {
    if ops == [] then s else Run(Step(s, ops[0]), ops[1..])
  }

  ghost function SnapshotRun<V>(a: Snapshots<V>, ops: seq<Op<V>>): Snapshots<V>
    decreases |ops|
  {
    if ops == [] then a else SnapshotRun(SnapshotStep(a, ops[0]), ops[1..])
  }

  // ----- one row change under an open session

  lemma RestoreAfterCreate<V>(u: UndoState<V>, rows: map<nat, V>, nextId: nat, v: V)
    requires Describes(u, rows, nextId)
    ensures Describes(OnCreate(u, nextId), rows[nextId := v], nextId + 1)
    ensures Restore(rows[nextId := v], OnCreate(u, nextId)) == Restore(rows, u)
  {}

  lemma RestoreAfterModify<V>(u: UndoState<V>, rows: map<nat, V>, nextId: nat, id: nat, v: V)
    requires Describes(u, rows, nextId) && id in rows
    ensures Describes(OnModify(u, id, rows[id]), rows[id := v], nextId)
    ensures Restore(rows[id := v], OnModify(u, id, rows[id])) == Restore(rows, u)
  {
    var a, b := Restore(rows[id := v], OnModify(u, id, rows[id])), Restore(rows, u);
    forall k: nat
      ensures k in a <==> k in b
      ensures k in a ==> a[k] == b[k]
    {
      if k == id {
        assert id !in u.removedValues;
      }
    }
  }

  lemma RestoreAfterRemove<V>(u: UndoState<V>, rows: map<nat, V>, nextId: nat, id: nat)
    requires Describes(u, rows, nextId) && id in rows
    ensures Describes(OnRemove(u, id, rows[id]), rows - {id}, nextId)
    ensures Restore(rows - {id}, OnRemove(u, id, rows[id])) == Restore(rows, u)
  {
    var a, b := Restore(rows - {id}, OnRemove(u, id, rows[id])), Restore(rows, u);
    forall k: nat
      ensures k in a <==> k in b
      ensures k in a ==> a[k] == b[k]
    {
      if id in u.newIds {
      } else if id in u.oldValues {
      } else {
      }
    }
    assert a == b;
  }

  /** How a merged record classifies one id: the table in the comment of `squash`. */
  lemma MergedAt<V>(prev: UndoState<V>, u: UndoState<V>, rows: map<nat, V>, nextId: nat, id: nat)
    requires Describes(u, rows, nextId)
    requires Describes(prev, Restore(rows, u), u.oldNextId)
    ensures var m := Merge(prev, u);
            && (id in m.newIds <==> id in rows && prev.oldNextId <= id)
            && (id in m.oldValues ==> id in rows && id < prev.oldNextId)
            && (id in m.removedValues ==> id !in rows && id < prev.oldNextId)
  {
    var before := Restore(rows, u);
    assert id in before <==> (id in rows && id !in u.newIds) || id in u.removedValues;
  }

  /** Undoing the child and then the parent is undoing the merged record. */
  lemma RestoreMerged<V>(prev: UndoState<V>, u: UndoState<V>, rows: map<nat, V>, nextId: nat)
    requires Describes(u, rows, nextId)
    requires Describes(prev, Restore(rows, u), u.oldNextId)
    ensures Describes(Merge(prev, u), rows, nextId)
    ensures Restore(rows, Merge(prev, u)) == Restore(Restore(rows, u), prev)
  {
    var m := Merge(prev, u);
    assert Describes(m, rows, nextId) by {
      forall id: nat {
        MergedAt(prev, u, rows, nextId, id);
      }
    }
    var a, b := Restore(rows, m), Restore(Restore(rows, u), prev);
    forall id: nat
      ensures id in a <==> id in b
      ensures id in a ==> a[id] == b[id]
    {
      RestoreMergedAt(prev, u, rows, nextId, id);
    }
    assert a == b;
  }

  lemma RestoreMergedAt<V>(prev: UndoState<V>, u: UndoState<V>, rows: map<nat, V>, nextId: nat, id: nat)
    requires Describes(u, rows, nextId)
    requires Describes(prev, Restore(rows, u), u.oldNextId)
    ensures var a, b := Restore(rows, Merge(prev, u)), Restore(Restore(rows, u), prev);
            (id in a <==> id in b) && (id in a ==> a[id] == b[id])
  {
    var m, before := Merge(prev, u), Restore(rows, u);
    RestoreAt(rows, u, id);
    RestoreAt(rows, m, id);
    RestoreAt(before, prev, id);
  }

  function Lookup<V>(rows: map<nat, V>, id: nat): Option<V> {
    if id in rows then Some(rows[id]) else None
  }

  lemma RestoreAt<V>(rows: map<nat, V>, u: UndoState<V>, id: nat)
    ensures Lookup(Restore(rows, u), id) ==
            if id in u.removedValues then Some(u.removedValues[id])
            else if id in u.oldValues then Some(u.oldValues[id])
            else if id in u.newIds then None
            else Lookup(rows, id)
  {}

  // ----- every operation against the reference machine

  /** Replacing the top record by one that restores the same rows changes no snapshot. */
  lemma ChangeTop<V>(s: Index<V>, t: Index<V>, u: UndoState<V>)
    requires Valid(s) && s.stack != []
    requires t.stack == SetTop(s.stack, u) && t.revision == s.revision
    requires Describes(u, t.rows, t.nextId)
    requires Restore(t.rows, u) == Restore(s.rows, Top(s.stack))
    requires u.oldNextId == Top(s.stack).oldNextId && u.revision == Top(s.stack).revision
    ensures Valid(t) && Saved(t.stack, t.rows) == Saved(s.stack, s.rows)
  {
    assert t.stack[..|t.stack| - 1] == s.stack[..|s.stack| - 1];
  }

  lemma StepRowRefines<V>(s: Index<V>, op: Op<V>)
    requires Valid(s) && (op.Create? || op.Update? || op.Delete?)
    ensures Valid(Step(s, op)) && View(Step(s, op)) == SnapshotStep(View(s), op)
  {
    var t := Step(s, op);
    if op.Delete? && op.id !in s.rows {
      assert s.rows - {op.id} == s.rows;
    }
    if s.stack != [] {
      var u := Top(s.stack);
      match op
      case Create(v) =>
        RestoreAfterCreate(u, s.rows, s.nextId, v);
        ChangeTop(s, t, OnCreate(u, s.nextId));
      case Update(id, v) =>
        if id in s.rows {
          RestoreAfterModify(u, s.rows, s.nextId, id, v);
          ChangeTop(s, t, OnModify(u, id, s.rows[id]));
        }
      case Delete(id) =>
        if id in s.rows {
          RestoreAfterRemove(u, s.rows, s.nextId, id);
          ChangeTop(s, t, OnRemove(u, id, s.rows[id]));
        }
    }
  }

  lemma StartRefines<V>(s: Index<V>)
    requires Valid(s)
    ensures Valid(StartUndoSession(s))
    ensures View(StartUndoSession(s)) == SnapshotStep(View(s), Start)
  {
    var t := StartUndoSession(s);
    assert t.stack[..|t.stack| - 1] == s.stack;
    assert Restore(t.rows, Top(t.stack)) == s.rows;
  }

  /** The two youngest records of a valid stack, and what each describes. */
  lemma TopTwo<V>(s: Index<V>)
    requires Valid(s) && |s.stack| >= 2
    ensures var n := |s.stack|;
            var u, prev := s.stack[n - 1], s.stack[n - 2];
            var before := Restore(s.rows, u);
            && Describes(u, s.rows, s.nextId) && Describes(prev, before, u.oldNextId)
            && prev.revision == s.revision - 1
            && StackValid(s.stack[..n - 2], Restore(before, prev), prev.oldNextId, s.revision - 2)
            && Saved(s.stack, s.rows)[..n - 1] ==
                 Saved(s.stack[..n - 2], Restore(before, prev)) + [Copy(Restore(before, prev), prev.oldNextId)]
  {
    var n := |s.stack|;
    var rest := s.stack[..n - 1];
    assert StackValid(rest, Restore(s.rows, s.stack[n - 1]), s.stack[n - 1].oldNextId, s.revision - 1);
    assert Top(rest) == s.stack[n - 2] && rest[..n - 2] == s.stack[..n - 2];
  }

  lemma SquashTopRefines<V>(s: Index<V>)
    requires Valid(s) && |s.stack| >= 2
    ensures StackValid(SquashTop(s.stack), s.rows, s.nextId, s.revision - 1)
    ensures Saved(SquashTop(s.stack), s.rows) == Saved(s.stack, s.rows)[..|s.stack| - 1]
  {
    var n, stack := |s.stack|, SquashTop(s.stack);
    TopTwo(s);
    RestoreMerged(s.stack[n - 2], s.stack[n - 1], s.rows, s.nextId);
    assert stack[..n - 2] == s.stack[..n - 2];
    assert Top(stack) == Merge(s.stack[n - 2], s.stack[n - 1]);
  }

  lemma SquashRefines<V>(s: Index<V>)
    requires Valid(s)
    ensures Valid(Squash(s)) && View(Squash(s)) == SnapshotStep(View(s), Absorb)
  {
    if |s.stack| >= 2 {
      SquashTopRefines(s);
    } else if |s.stack| == 1 {
      assert Describes(Top(s.stack), s.rows, s.nextId);
    }
  }

  /** Revisions along a valid stack are consecutive and end at the current revision. */
  lemma {:induction false} RevisionAt<V>(s: Index<V>, i: nat)
    requires Valid(s) && i < |s.stack|
    ensures s.stack[i].revision == s.revision - (|s.stack| - 1 - i)
    decreases |s.stack|
  {
    if i < |s.stack| - 1 {
      RevisionAt(Undo(s), i);
    }
  }

  /** Forgetting the oldest record forgets exactly the oldest copy. */
  lemma {:induction false} DropOldest<V>(stack: seq<UndoState<V>>, rows: map<nat, V>, nextId: nat, revision: int)
    requires stack != [] && StackValid(stack, rows, nextId, revision)
    ensures StackValid(stack[1..], rows, nextId, revision)
    ensures Saved(stack[1..], rows) == Saved(stack, rows)[1..]
    decreases |stack|
  {
    var n := |stack|;
    var rest, before := stack[..n - 1], Restore(rows, Top(stack));
    if n > 1 {
      DropOldest(rest, before, Top(stack).oldNextId, revision - 1);
      assert stack[1..][..n - 2] == rest[1..];
      assert Top(stack[1..]) == Top(stack);
    }
  }

  lemma {:induction false} DropOldestMany<V>(s: Index<V>, k: nat)
    requires Valid(s) && k <= |s.stack|
    ensures StackValid(s.stack[k..], s.rows, s.nextId, s.revision)
    ensures Saved(s.stack[k..], s.rows) == Saved(s.stack, s.rows)[k..]
    decreases k
  {
    if k == 0 {
      assert s.stack[0..] == s.stack;
      assert Saved(s.stack, s.rows)[0..] == Saved(s.stack, s.rows);
    } else {
      DropOldestMany(s, k - 1);
      DropOldest(s.stack[k - 1..], s.rows, s.nextId, s.revision);
      assert s.stack[k - 1..][1..] == s.stack[k..];
      assert Saved(s.stack, s.rows)[k - 1..][1..] == Saved(s.stack, s.rows)[k..];
    }
  }

  /** How many records a commit up to `r` drops. */
  function Dropped<V>(s: Index<V>, r: int): nat {
    var n := |s.stack|;
    Max(0, Min(n, r - (s.revision - n)))
  }

  /** With consecutive revisions, the records numbered up to `r` are a prefix of the stack. */
  lemma {:induction false} DroppedPrefix<V>(stack: seq<UndoState<V>>, last: int, r: int)
    requires forall i :: 0 <= i < |stack| ==> stack[i].revision == last - (|stack| - 1 - i)
    ensures DropCommitted(stack, r) == stack[Max(0, Min(|stack|, r - (last - |stack|)))..]
    decreases |stack|
  {
    if stack != [] && stack[0].revision <= r {
      DroppedPrefix(stack[1..], last, r);
    }
  }

  lemma CommitDrops<V>(s: Index<V>, r: int)
    requires Valid(s)
    ensures Commit(s, r).stack == s.stack[Dropped(s, r)..]
  {
    forall i | 0 <= i < |s.stack|
      ensures s.stack[i].revision == s.revision - (|s.stack| - 1 - i)
    {
      RevisionAt(s, i);
    }
    DroppedPrefix(s.stack, s.revision, r);
  }

  lemma CommitRefines<V>(s: Index<V>, r: int)
    requires Valid(s)
    ensures Valid(Commit(s, r)) && View(Commit(s, r)) == SnapshotStep(View(s), Discard(r))
  {
    CommitDrops(s, r);
    DropOldestMany(s, Dropped(s, r));
  }

  lemma StepRefines<V>(s: Index<V>, op: Op<V>)
    requires Valid(s)
    ensures Valid(Step(s, op)) && View(Step(s, op)) == SnapshotStep(View(s), op)
  {
    match op
    case Create(_) => StepRowRefines(s, op);
    case Update(_, _) => StepRowRefines(s, op);
    case Delete(_) => StepRowRefines(s, op);
    case Start => StartRefines(s);
    case Revert =>
    case Absorb => SquashRefines(s);
    case Discard(r) => CommitRefines(s, r);
    case Renumber(_) =>
  }

  /** Every run of an index, from any valid state, is a run of the machine that keeps a
      complete copy per open session. */
  lemma {:induction false} RunRefines<V>(s: Index<V>, ops: seq<Op<V>>)
    requires Valid(s)
    ensures Valid(Run(s, ops)) && View(Run(s, ops)) == SnapshotRun(View(s), ops)
    decreases |ops|
  {
    if ops != [] {
      StepRefines(s, ops[0]);
      RunRefines(Step(s, ops[0]), ops[1..]);
    }
  }

  lemma {:induction false} UndoAllRestoresOldest<V>(s: Index<V>)
    requires Valid(s)
    ensures var t := UndoAll(s);
            && t.stack == [] && t.revision == s.revision - |s.stack|
            && Copy(t.rows, t.nextId) == if s.stack == [] then Copy(s.rows, s.nextId) else Saved(s.stack, s.rows)[0]
    decreases |s.stack|
  {
    if s.stack != [] {
      UndoAllRestoresOldest(Undo(s));
    }
  }

  // ----- whole sessions

  /** The number of sessions open after `ops`, counted from `depth`; none when `ops` closes
      a session it did not open, or commits. */
  function OpenAfter<V>(ops: seq<Op<V>>, depth: nat): Option<nat>
    decreases |ops|
  {
    if ops == [] then Some(depth)
    else
      match ops[0]
      case Start => OpenAfter(ops[1..], depth + 1)
      case Revert => if depth == 0 then None else OpenAfter(ops[1..], depth - 1)
      case Absorb => if depth == 0 then None else OpenAfter(ops[1..], depth - 1)
      case Discard(_) => None
      case _ => OpenAfter(ops[1..], depth)
  }

  /** A run that closes exactly the sessions it opens. */
  predicate Nested<V>(ops: seq<Op<V>>) {
    OpenAfter(ops, 0) == Some(0)
  }

  lemma {:induction false} RunAppend<V>(s: Index<V>, a: seq<Op<V>>, b: seq<Op<V>>)
    ensures Run(s, a + b) == Run(Run(s, a), b)
    decreases |a|
  {
    if a == [] {
      assert a + b == b;
    } else {
      assert (a + b)[0] == a[0] && (a + b)[1..] == a[1..] + b;
      RunAppend(Step(s, a[0]), a[1..], b);
    }
  }

  function DepthAfter<V>(op: Op<V>, depth: nat): nat
    requires op.Revert? || op.Absorb? ==> depth > 0
  {
    match op case Start => depth + 1 case Revert => depth - 1 case Absorb => depth - 1 case _ => depth
  }

  lemma StepKeepsBelow<V>(s: Index<V>, op: Op<V>, base: nat, depth: nat)
    requires Valid(s) && |s.stack| == base + 1 + depth
    requires !op.Discard? && (op.Revert? || op.Absorb? ==> depth > 0)
    ensures var t := Step(s, op);
            && Valid(t) && |t.stack| == base + 1 + DepthAfter(op, depth)
            && t.stack[..base] == s.stack[..base]
            && t.revision - |t.stack| == s.revision - |s.stack|
            && Saved(t.stack, t.rows)[base] == Saved(s.stack, s.rows)[base]
  {
    StepRefines(s, op);
    var t := Step(s, op);
    assert View(t).saved == SnapshotStep(View(s), op).saved;
  }

  /** Work above level `base` leaves the records below it, and the copy it stands for, alone. */
  lemma {:induction false} RunKeepsBelow<V>(s: Index<V>, ops: seq<Op<V>>, base: nat, depth: nat)
    requires Valid(s) && |s.stack| == base + 1 + depth
    requires OpenAfter(ops, depth).Some?
    ensures var t := Run(s, ops);
            && Valid(t) && |t.stack| == base + 1 + OpenAfter(ops, depth).value
            && t.stack[..base] == s.stack[..base]
            && t.revision - |t.stack| == s.revision - |s.stack|
            && Saved(t.stack, t.rows)[base] == Saved(s.stack, s.rows)[base]
    decreases |ops|
  {
    if ops != [] {
      StepKeepsBelow(s, ops[0], base, depth);
      RunKeepsBelow(Step(s, ops[0]), ops[1..], base, DepthAfter(ops[0], depth));
    }
  }

  /** Reverting a session restores the whole index, history and numbering included,
      whatever was done and whatever sessions were nested inside it. */
  lemma RevertedSessionIsIdentity<V>(s: Index<V>, ops: seq<Op<V>>)
    requires Valid(s) && Nested(ops)
    ensures Run(s, [Start] + ops + [Revert]) == s
  {
    var a, base := Step(s, Start), |s.stack|;
    StartRefines(s);
    RunKeepsBelow(a, ops, base, 0);
    var b := Run(a, ops);
    SessionRun(s, ops, Revert);
    assert b.stack[..|b.stack| - 1] == s.stack;
  }

  // ----- squashing, id by id

  /** How a session's record treats one id. */
  datatype Entry<V> = New | Upd(was: V) | Del(was: V) | Nop

  function EntryOf<V>(u: UndoState<V>, id: nat): Entry<V> {
    if id in u.newIds then New
    else if id in u.oldValues then Upd(u.oldValues[id])
    else if id in u.removedValues then Del(u.removedValues[id])
    else Nop
  }

  /** The pairs of entries that respect time: nothing is created twice or touched after deletion. */
  predicate Causal<V>(a: Entry<V>, b: Entry<V>) {
    (b.New? ==> a.Nop?) && (a.Del? ==> b.Nop? || b.New?)
  }

  /** The 4x4 table of the comment in `squash`. */
  function Table<V>(a: Entry<V>, b: Entry<V>): Entry<V>
    requires Causal(a, b)
  {
    match a
    case Nop => b
    case New => if b.Del? then Nop else New
    case Upd(x) => if b.Del? then Del(x) else Upd(x)
    case Del(x) => Del(x)
  }

  ghost predicate Disjoint<V>(u: UndoState<V>) {
    u.newIds !! u.oldValues.Keys && u.newIds !! u.removedValues.Keys && u.oldValues.Keys !! u.removedValues.Keys
  }

  lemma SameEntries<V>(a: UndoState<V>, b: UndoState<V>)
    requires Disjoint(a) && Disjoint(b)
    requires a.oldNextId == b.oldNextId && a.revision == b.revision
    requires forall id: nat :: EntryOf(a, id) == EntryOf(b, id)
    ensures a == b
  {
    assert forall id: nat :: id in a.newIds <==> EntryOf(a, id).New?;
    assert forall id: nat :: id in b.newIds <==> EntryOf(b, id).New?;
    assert a.newIds == b.newIds;
    forall id: nat
      ensures id in a.oldValues <==> id in b.oldValues
      ensures id in a.oldValues ==> a.oldValues[id] == b.oldValues[id]
      ensures id in a.removedValues <==> id in b.removedValues
      ensures id in a.removedValues ==> a.removedValues[id] == b.removedValues[id]
    {
      assert EntryOf(a, id) == EntryOf(b, id);
    }
    assert a.oldValues == b.oldValues;
    assert a.removedValues == b.removedValues;
  }

  /** `Merge` is the table, and the cells marked N/A do not occur. */
  lemma MergeTable<V>(prev: UndoState<V>, u: UndoState<V>, rows: map<nat, V>, nextId: nat, id: nat)
    requires Describes(u, rows, nextId)
    requires Describes(prev, Restore(rows, u), u.oldNextId)
    ensures Causal(EntryOf(prev, id), EntryOf(u, id))
    ensures EntryOf(Merge(prev, u), id) == Table(EntryOf(prev, id), EntryOf(u, id))
  {
    RestoreAt(rows, u, id);
    MergedAt(prev, u, rows, nextId, id);
  }

  lemma DescribedIsDisjoint<V>(u: UndoState<V>, rows: map<nat, V>, nextId: nat)
    requires Describes(u, rows, nextId)
    ensures Disjoint(u)
  {}

  lemma TableAssociative<V>(a: Entry<V>, b: Entry<V>, c: Entry<V>)
    requires Causal(a, b) && Causal(b, c) && Causal(Table(a, b), c) && Causal(a, Table(b, c))
    ensures Table(Table(a, b), c) == Table(a, Table(b, c))
  {}

  /** Squashing is associative: three nested sessions merge to one record in either order. */
  lemma MergeAssociative<V>(p: UndoState<V>, q: UndoState<V>, u: UndoState<V>, rows: map<nat, V>, nextId: nat)
    requires Describes(u, rows, nextId)
    requires Describes(q, Restore(rows, u), u.oldNextId)
    requires Describes(p, Restore(Restore(rows, u), q), q.oldNextId)
    ensures Merge(Merge(p, q), u) == Merge(p, Merge(q, u))
  {
    var before, pq, qu := Restore(rows, u), Merge(p, q), Merge(q, u);
    RestoreMerged(q, u, rows, nextId);
    RestoreMerged(p, q, before, u.oldNextId);
    assert Disjoint(Merge(pq, u)) by {
      RestoreMerged(pq, u, rows, nextId);
      DescribedIsDisjoint(Merge(pq, u), rows, nextId);
    }
    assert Disjoint(Merge(p, qu)) by {
      RestoreMerged(p, qu, rows, nextId);
      DescribedIsDisjoint(Merge(p, qu), rows, nextId);
    }
    forall id: nat
      ensures EntryOf(Merge(pq, u), id) == EntryOf(Merge(p, qu), id)
    {
      MergeTable(q, u, rows, nextId, id);
      MergeTable(p, q, before, u.oldNextId, id);
      MergeTable(pq, u, rows, nextId, id);
      MergeTable(p, qu, rows, nextId, id);
      TableAssociative(EntryOf(p, id), EntryOf(q, id), EntryOf(u, id));
    }
    SameEntries(Merge(pq, u), Merge(p, qu));
  }

  /** The record of a session that does nothing but `op`. */
  function Single<V>(s: Index<V>, op: Op<V>): UndoState<V>
    requires RowOp(s, op)
  {
    Record(UndoState(map[], map[], {}, s.nextId, 0), s, op)
  }

  lemma SingleDescribes<V>(s: Index<V>, op: Op<V>)
    requires RowOp(s, op) && forall id :: id in s.rows ==> id < s.nextId
    ensures Describes(Single(s, op), NextRows(s, op), if op.Create? then s.nextId + 1 else s.nextId)
    ensures Restore(NextRows(s, op), Single(s, op)) == s.rows
  {}

  lemma RemoveIsMerge<V>(u: UndoState<V>, s: Index<V>, id: nat)
    requires id in s.rows && Describes(u, s.rows, s.nextId)
    ensures OnRemove(u, id, s.rows[id]) == Merge(u, UndoState(map[], map[id := s.rows[id]], {}, s.nextId, 0))
  {
    var m := Merge(u, UndoState(map[], map[id := s.rows[id]], {}, s.nextId, 0));
    var r := OnRemove(u, id, s.rows[id]);
    assert m.oldValues == r.oldValues && m.newIds == r.newIds;
    assert m.removedValues == r.removedValues;
  }

  /** Every row operation records itself as the squash of a one-operation session. */
  lemma RecordIsMerge<V>(u: UndoState<V>, s: Index<V>, op: Op<V>)
    requires RowOp(s, op) && Describes(u, s.rows, s.nextId)
    ensures Record(u, s, op) == Merge(u, Single(s, op))
  {
    var m := Merge(u, Single(s, op));
    match op {
      case Create(_) =>
        assert m.oldValues == u.oldValues && m.removedValues == u.removedValues;
      case Update(id, _) =>
        assert m.removedValues == u.removedValues && m.newIds == u.newIds;
        assert m.oldValues == OnModify(u, id, s.rows[id]).oldValues;
      case Delete(id) =>
        RemoveIsMerge(u, s, id);
    }
  }

  /** Recording a change in the child and then merging is merging and then recording it. */
  lemma RecordThenMerge<V>(p: UndoState<V>, u: UndoState<V>, s: Index<V>, op: Op<V>)
    requires Describes(u, s.rows, s.nextId) && Describes(p, Restore(s.rows, u), u.oldNextId)
    requires RowOp(s, op)
    ensures Record(Merge(p, u), s, op) == Merge(p, Record(u, s, op))
  {
    SingleDescribes(s, op);
    RestoreMerged(p, u, s.rows, s.nextId);
    RecordIsMerge(u, s, op);
    RecordIsMerge(Merge(p, u), s, op);
    MergeAssociative(p, u, Single(s, op), NextRows(s, op), if op.Create? then s.nextId + 1 else s.nextId);
  }

  // ----- an absorbed session leaves no trace

  function OneLess<V>(u: UndoState<V>): UndoState<V> {
    u.(revision := u.revision - 1)
  }

  function FoldStack<V>(stack: seq<UndoState<V>>, k: nat): seq<UndoState<V>>
    requires 1 <= k < |stack|
  {
    stack[..k - 1] + [Merge(stack[k - 1], stack[k])]
      + seq(|stack| - k - 1, i requires 0 <= i < |stack| - k - 1 => OneLess(stack[k + 1 + i]))
  }

  /** `s` with record `k` absorbed by the one below it and the younger ones renumbered. */
  function Fold<V>(s: Index<V>, k: nat): Index<V>
    requires 1 <= k < |s.stack|
  {
    s.(stack := FoldStack(s.stack, k), revision := s.revision - 1)
  }

  lemma FoldSetTop<V>(stack: seq<UndoState<V>>, k: nat, u: UndoState<V>)
    requires 1 <= k < |stack|
    ensures FoldStack(SetTop(stack, u), k) ==
            SetTop(FoldStack(stack, k), if k == |stack| - 1 then Merge(stack[k - 1], u) else OneLess(u))
    ensures Top(FoldStack(stack, k)) ==
            if k == |stack| - 1 then Merge(stack[k - 1], stack[k]) else OneLess(Top(stack))
  {}

  lemma RecordAtTop<V>(s: Index<V>, op: Op<V>)
    requires Valid(s) && |s.stack| >= 2 && RowOp(s, op)
    ensures var n := |s.stack|;
            Record(Merge(s.stack[n - 2], s.stack[n - 1]), s, op) == Merge(s.stack[n - 2], Record(s.stack[n - 1], s, op))
  {
    TopTwo(s);
    RecordThenMerge(s.stack[|s.stack| - 2], s.stack[|s.stack| - 1], s, op);
  }

  /** The record on top of the folded stack takes a change as the folded top takes it. */
  lemma RecordOnFolded<V>(s: Index<V>, k: nat, op: Op<V>)
    requires Valid(s) && 1 <= k < |s.stack| && RowOp(s, op)
    ensures Record(Top(FoldStack(s.stack, k)), s, op) ==
            if k == |s.stack| - 1 then Merge(s.stack[k - 1], Record(Top(s.stack), s, op))
            else OneLess(Record(Top(s.stack), s, op))
  {
    FoldSetTop(s.stack, k, Top(s.stack));
    if k == |s.stack| - 1 {
      RecordAtTop(s, op);
    } else {
      RecordOneLess(Top(s.stack), s, op);
    }
  }

  lemma RecordOneLess<V>(u: UndoState<V>, s: Index<V>, op: Op<V>)
    requires RowOp(s, op)
    ensures Record(OneLess(u), s, op) == OneLess(Record(u, s, op))
  {}

  lemma RowStepOnFolded<V>(s: Index<V>, k: nat, op: Op<V>)
    requires 1 <= k < |s.stack| && RowOp(s, op)
    ensures RowStep(Fold(s, k), op).stack ==
            SetTop(FoldStack(s.stack, k), Record(Top(FoldStack(s.stack, k)), s, op))
    ensures RowStep(Fold(s, k), op).(stack := []) == Fold(RowStep(s, op), k).(stack := [])
    ensures Fold(RowStep(s, op), k).stack == FoldStack(SetTop(s.stack, Record(Top(s.stack), s, op)), k)
  {}

  lemma FoldRowStep<V>(s: Index<V>, k: nat, op: Op<V>)
    requires Valid(s) && 1 <= k < |s.stack| && RowOp(s, op)
    ensures RowStep(Fold(s, k), op) == Fold(RowStep(s, op), k)
  {
    RecordOnFolded(s, k, op);
    RowStepOnFolded(s, k, op);
    FoldSetTop(s.stack, k, Record(Top(s.stack), s, op));
  }

  lemma FoldPush<V>(stack: seq<UndoState<V>>, k: nat, u: UndoState<V>)
    requires 1 <= k < |stack|
    ensures FoldStack(stack + [u], k) == FoldStack(stack, k) + [OneLess(u)]
  {
    assert (stack + [u])[..k - 1] == stack[..k - 1];
  }

  lemma MergeIgnoresRevision<V>(q: UndoState<V>, u: UndoState<V>)
    ensures Merge(q, OneLess(u)) == Merge(q, u)
  {}

  lemma FoldAtTop<V>(stack: seq<UndoState<V>>, merged: UndoState<V>)
    requires |stack| >= 3 && merged == Merge(stack[|stack| - 3], stack[|stack| - 2])
    ensures var k, u := |stack| - 2, stack[|stack| - 1];
            && FoldStack(stack, k) == stack[..k - 1] + [merged, OneLess(u)]
            && SquashTop(FoldStack(stack, k)) == stack[..k - 1] + [Merge(merged, u)]
  {
    var k, u := |stack| - 2, stack[|stack| - 1];
    var folded := stack[..k - 1] + [merged, OneLess(u)];
    assert FoldStack(stack, k) == folded;
    assert folded[..|folded| - 2] == stack[..k - 1];
    MergeIgnoresRevision(merged, u);
  }

  lemma FoldSquashTop<V>(stack: seq<UndoState<V>>, k: nat)
    requires 1 <= k < |stack| - 1
    requires k == |stack| - 2 ==>
               Merge(Merge(stack[k - 1], stack[k]), stack[k + 1]) == Merge(stack[k - 1], Merge(stack[k], stack[k + 1]))
    ensures SquashTop(FoldStack(stack, k)) == FoldStack(SquashTop(stack), k)
  {
    var n := |stack|;
    var u, q, rest := stack[n - 1], stack[n - 2], stack[..n - 2];
    MergeIgnoresRevision(q, u);
    if k == n - 2 {
      FoldAtTop(stack, Merge(stack[k - 1], q));
      assert FoldStack(SquashTop(stack), k) == stack[..k - 1] + [Merge(stack[k - 1], Merge(q, u))];
    } else {
      assert stack == rest + [q] + [u];
      FoldPush(rest + [q], k, u);
      FoldPush(rest, k, q);
      FoldPush(rest, k, Merge(q, u));
      assert FoldStack(stack, k) == FoldStack(rest, k) + [OneLess(q), OneLess(u)];
    }
  }

  lemma FoldSquash<V>(s: Index<V>, k: nat)
    requires Valid(s) && 1 <= k < |s.stack| - 1
    ensures Squash(Fold(s, k)) == Fold(Squash(s), k)
  {
    if k == |s.stack| - 2 {
      TopTwo(s);
      TopTwo(Undo(s));
      MergeAssociative(s.stack[k - 1], s.stack[k], s.stack[k + 1], s.rows, s.nextId);
    }
    FoldSquashTop(s.stack, k);
  }

  lemma FoldStep<V>(s: Index<V>, k: nat, op: Op<V>)
    requires Valid(s) && 1 <= k < |s.stack|
    requires !op.Discard? && (op.Revert? || op.Absorb? ==> k < |s.stack| - 1)
    ensures k < |Step(s, op).stack| && Step(Fold(s, k), op) == Fold(Step(s, op), k)
  {
    if RowOp(s, op) {
      FoldRowStep(s, k, op);
    } else {
      match op
      case Start => FoldPush(s.stack, k, Top(Step(s, Start).stack));
      case Revert =>
        var rest := s.stack[..|s.stack| - 1];
        assert s.stack == rest + [Top(s.stack)];
        FoldPush(rest, k, Top(s.stack));
      case Absorb => FoldSquash(s, k);
      case _ =>
    }
  }

  lemma {:induction false} FoldRun<V>(s: Index<V>, k: nat, ops: seq<Op<V>>, depth: nat)
    requires Valid(s) && 1 <= k && |s.stack| == k + 1 + depth && OpenAfter(ops, depth).Some?
    ensures k < |Run(s, ops).stack| && Run(Fold(s, k), ops) == Fold(Run(s, ops), k)
    decreases |ops|
  {
    if ops != [] {
      FoldStep(s, k, ops[0]);
      StepKeepsBelow(s, ops[0], k, depth);
      FoldRun(Step(s, ops[0]), k, ops[1..], DepthAfter(ops[0], depth));
    }
  }

  /** A session just opened folds away. */
  lemma FoldStart<V>(s: Index<V>)
    requires Valid(s) && s.stack != []
    ensures Fold(StartUndoSession(s), |s.stack|) == s
  {
    MergeNothing(Top(s.stack), s);
    assert FoldStack(StartUndoSession(s).stack, |s.stack|) == s.stack;
  }

  /** Inside an enclosing session, a session that is squashed is the same as no session:
      the rows, every undo record, the numbering and the next id all agree. */
  lemma EnclosedSessionIsTransparent<V>(s: Index<V>, ops: seq<Op<V>>)
    requires Valid(s) && s.stack != [] && Nested(ops)
    ensures Run(s, [Start] + ops + [Absorb]) == Run(s, ops)
  {
    var k, a := |s.stack|, Step(s, Start);
    StartRefines(s);
    FoldStart(s);
    FoldRun(a, k, ops, 0);
    RunKeepsBelow(a, ops, k, 0);
    var b := Run(a, ops);
    assert Squash(b) == Fold(b, k);
    SessionRun(s, ops, Absorb);
  }

  ghost predicate SameRecord<V>(a: UndoState<V>, b: UndoState<V>) {
    a == b.(revision := a.revision)
  }

  /** `w` is `v` with one more record below all others, up to the numbering. */
  ghost predicate Inside<V>(w: Index<V>, v: Index<V>) {
    && |w.stack| == |v.stack| + 1 && w.rows == v.rows && w.nextId == v.nextId
    && forall i :: 0 <= i < |v.stack| ==> SameRecord(w.stack[i + 1], v.stack[i])
  }

  /** The revision below all sessions after one operation with `depth` sessions open. */
  function RenumberedBy<V>(op: Op<V>, depth: nat, revision: int): int {
    if op.Renumber? && depth == 0 && op.to <= MAX_REVISION then op.to else revision
  }

  /** The revision below all sessions after `ops`, read off the operations alone. */
  function Renumbered<V>(ops: seq<Op<V>>, depth: nat, revision: int): int
    requires OpenAfter(ops, depth).Some?
    decreases |ops|
  {
    if ops == [] then revision
    else Renumbered(ops[1..], DepthAfter(ops[0], depth), RenumberedBy(ops[0], depth, revision))
  }

  lemma {:induction false} NeverRenumbered<V>(ops: seq<Op<V>>, depth: nat, revision: int)
    requires OpenAfter(ops, depth).Some? && forall op :: op in ops ==> !op.Renumber?
    ensures Renumbered(ops, depth, revision) == revision
    decreases |ops|
  {
    if ops != [] {
      NeverRenumbered(ops[1..], DepthAfter(ops[0], depth), revision);
    }
  }

  lemma RecordSame<V>(a: UndoState<V>, b: UndoState<V>, w: Index<V>, v: Index<V>, op: Op<V>)
    requires SameRecord(a, b) && w.rows == v.rows && w.nextId == v.nextId && RowOp(w, op)
    ensures SameRecord(Record(a, w, op), Record(b, v, op))
  {}

  lemma MergeSame<V>(p: UndoState<V>, u: UndoState<V>, q: UndoState<V>, x: UndoState<V>)
    requires SameRecord(p, q) && SameRecord(u, x)
    ensures SameRecord(Merge(p, u), Merge(q, x))
  {}

  lemma InsideRowStep<V>(w: Index<V>, v: Index<V>, op: Op<V>)
    requires Inside(w, v) && RowOp(w, op)
    ensures Inside(RowStep(w, op), RowStep(v, op))
  {
    if v.stack != [] {
      RecordSame(Top(w.stack), Top(v.stack), w, v, op);
    }
  }

  lemma InsideSquash<V>(w: Index<V>, v: Index<V>)
    requires Inside(w, v) && v.stack != []
    ensures Inside(Squash(w), Squash(v))
  {
    var n := |v.stack|;
    if n >= 2 {
      MergeSame(w.stack[n - 1], w.stack[n], v.stack[n - 2], v.stack[n - 1]);
    }
  }

  lemma InsideStep<V>(w: Index<V>, v: Index<V>, op: Op<V>)
    requires Inside(w, v) && !op.Discard? && (op.Revert? || op.Absorb? ==> v.stack != [])
    ensures Inside(Step(w, op), Step(v, op)) && |Step(v, op).stack| == DepthAfter(op, |v.stack|)
    ensures Step(w, op).revision - |Step(w, op).stack| == w.revision - |w.stack|
    ensures Step(v, op).revision - |Step(v, op).stack| == RenumberedBy(op, |v.stack|, v.revision - |v.stack|)
  {
    if RowOp(w, op) {
      InsideRowStep(w, v, op);
    } else if op.Absorb? {
      InsideSquash(w, v);
    }
  }

  lemma {:induction false} InsideRun<V>(w: Index<V>, v: Index<V>, ops: seq<Op<V>>)
    requires Inside(w, v) && OpenAfter(ops, |v.stack|).Some?
    ensures Inside(Run(w, ops), Run(v, ops)) && |Run(v, ops).stack| == OpenAfter(ops, |v.stack|).value
    ensures Run(w, ops).revision - |Run(w, ops).stack| == w.revision - |w.stack|
    ensures Run(v, ops).revision - |Run(v, ops).stack| == Renumbered(ops, |v.stack|, v.revision - |v.stack|)
    decreases |ops|
  {
    if ops != [] {
      InsideStep(w, v, ops[0]);
      InsideRun(Step(w, ops[0]), Step(v, ops[0]), ops[1..]);
    }
  }

  lemma OutermostSession<V>(s: Index<V>, ops: seq<Op<V>>)
    requires s.stack == [] && Nested(ops)
    ensures Run(s, [Start] + ops + [Absorb]) == Run(s, ops).(revision := s.revision)
    ensures Run(s, ops).revision == Renumbered(ops, 0, s.revision)
  {
    var a := Step(s, Start);
    InsideRun(a, s, ops);
    SessionRun(s, ops, Absorb);
    OnlySession(Run(a, ops), Run(s, ops), s.revision);
  }

  lemma OnlySession<V>(w: Index<V>, v: Index<V>, revision: int)
    requires Inside(w, v) && v.stack == [] && w.revision - |w.stack| == revision
    ensures Step(w, Absorb) == v.(revision := revision)
  {}

  /** A session that is squashed is the same as no session. Only an outermost session can show:
      while it is open the index refuses to be renumbered, so what differs is the revision, and
      exactly when the last renumbering outside every session of `ops` gives another one. */
  lemma AbsorbedSessionIsTransparent<V>(s: Index<V>, ops: seq<Op<V>>)
    requires Valid(s) && Nested(ops)
    ensures var absorbed, plain := Run(s, [Start] + ops + [Absorb]), Run(s, ops);
            && absorbed == (if s.stack == [] then plain.(revision := s.revision) else plain)
            && (absorbed == plain <==> s.stack != [] || Renumbered(ops, 0, s.revision) == s.revision)
            && ((forall op :: op in ops ==> !op.Renumber?) ==> absorbed == plain)
  {
    if s.stack != [] {
      EnclosedSessionIsTransparent(s, ops);
    } else {
      OutermostSession(s, ops);
      if forall op :: op in ops ==> !op.Renumber? {
        NeverRenumbered(ops, 0, s.revision);
      }
    }
  }

  /** Renumbering inside an outermost session is refused, and outside it is not. */
  lemma RenumberedSessionShows<V>(s: Index<V>)
    requires s == Index([], 0, 0, map[])
    ensures Valid(s) && Run(s, [Start, Renumber(5), Absorb]).revision == 0 && Run(s, [Renumber(5)]).revision == 5
  {
    var ops: seq<Op<V>> := [Renumber(5)];
    assert ops[1..] == [];
    assert Run(s, ops) == Run(Step(s, ops[0]), []);
    AbsorbedSessionIsTransparent(s, ops);
    assert [Start] + ops + [Absorb] == [Start, Renumber(5), Absorb];
  }

  lemma SessionRun<V>(s: Index<V>, ops: seq<Op<V>>, close: Op<V>)
    ensures Run(s, [Start] + ops + [close]) == Step(Run(Step(s, Start), ops), close)
  {
    RunAppend(s, [Start] + ops, [close]);
    RunAppend(s, [Start], ops);
    assert Run(s, [Start]) == Step(s, Start);
    var b := Run(Step(s, Start), ops);
    assert Run(b, [close]) == Step(b, close);
  }

  lemma MergeNothing<V>(u: UndoState<V>, s: Index<V>)
    requires Describes(u, s.rows, s.nextId)
    ensures Merge(u, UndoState(map[], map[], {}, s.nextId, s.revision + 1)) == u
  {
    var m := Merge(u, UndoState(map[], map[], {}, s.nextId, s.revision + 1));
    assert m.oldValues == u.oldValues && m.removedValues == u.removedValues && m.newIds == u.newIds;
  }

  // ----- squashing, step by step

  predicate CausalAt<V>(prev: UndoState<V>, u: UndoState<V>, id: nat) {
    Causal(EntryOf(prev, id), EntryOf(u, id))
  }

  /** No cell of the squash table marked N/A occurs between these two records. */
  ghost predicate Chronological<V>(prev: UndoState<V>, u: UndoState<V>) {
    forall id: nat :: CausalAt(prev, u, id)
  }

  /** `u` before it deletes the ids in `todo`. */
  ghost function Without<V>(u: UndoState<V>, todo: set<nat>): UndoState<V> {
    u.(removedValues := u.removedValues - todo)
  }

  lemma NothingDeletedYet<V>(prev: UndoState<V>, u: UndoState<V>)
    ensures Merge(prev, Without(u, u.removedValues.Keys)) ==
            prev.(oldValues := (u.oldValues - prev.newIds) + prev.oldValues, newIds := prev.newIds + u.newIds)
  {
    var m := Merge(prev, Without(u, u.removedValues.Keys));
    assert Without(u, u.removedValues.Keys).removedValues == map[];
    assert m.removedValues == prev.removedValues;
    assert m.oldValues == (u.oldValues - prev.newIds) + prev.oldValues;
  }

  /** One deletion of the child, folded into the merged record. */
  lemma DeletionStep<V>(prev: UndoState<V>, u: UndoState<V>, todo: set<nat>, id: nat)
    requires CausalAt(prev, u, id) && Disjoint(prev) && Disjoint(u)
    requires todo <= u.removedValues.Keys && id in todo
    ensures var m := Merge(prev, Without(u, todo));
            && id !in m.removedValues
            && OnRemove(m, id, u.removedValues[id]) == Merge(prev, Without(u, todo - {id}))
  {
    var d := u.removedValues - todo;
    var e := u.removedValues - (todo - {id});
    assert e == d[id := u.removedValues[id]];
    MergeOneMore(prev, u.(removedValues := d), id, u.removedValues[id]);
  }

  lemma MergeOneMore<V>(prev: UndoState<V>, u: UndoState<V>, id: nat, v: V)
    requires id !in u.newIds && id !in u.oldValues && id !in u.removedValues && id !in prev.removedValues
    requires Disjoint(prev)
    ensures id !in Merge(prev, u).removedValues
    ensures OnRemove(Merge(prev, u), id, v) == Merge(prev, u.(removedValues := u.removedValues[id := v]))
  {
    var r, t := OnRemove(Merge(prev, u), id, v), Merge(prev, u.(removedValues := u.removedValues[id := v]));
    forall k: nat
      ensures k in r.newIds <==> k in t.newIds
      ensures Lookup(r.oldValues, k) == Lookup(t.oldValues, k)
      ensures Lookup(r.removedValues, k) == Lookup(t.removedValues, k)
    {
      MergeOneMoreAt(prev, u, id, v, k);
    }
    assert r.newIds == t.newIds;
    SameLookups(r.oldValues, t.oldValues);
    SameLookups(r.removedValues, t.removedValues);
  }

  lemma SameLookups<V>(a: map<nat, V>, b: map<nat, V>)
    requires forall k: nat :: Lookup(a, k) == Lookup(b, k)
    ensures a == b
  {
    forall k: nat
      ensures k in a <==> k in b
      ensures k in a ==> a[k] == b[k]
    {
      assert Lookup(a, k) == Lookup(b, k);
    }
    assert a == b;
  }

  lemma MergeLookups<V>(prev: UndoState<V>, u: UndoState<V>, k: nat)
    ensures var m := Merge(prev, u);
            && (k in m.newIds <==> (k in prev.newIds || k in u.newIds) && k !in u.removedValues)
            && Lookup(m.oldValues, k) ==
                 (if k in u.removedValues then None
                  else if k in prev.oldValues then Some(prev.oldValues[k])
                  else if k in prev.newIds then None
                  else Lookup(u.oldValues, k))
            && Lookup(m.removedValues, k) ==
                 (if k in u.removedValues && k !in prev.newIds
                  then Some(if k in prev.oldValues then prev.oldValues[k] else u.removedValues[k])
                  else Lookup(prev.removedValues, k))
  {}

  lemma OnRemoveLookups<V>(m: UndoState<V>, id: nat, v: V, k: nat)
    requires id !in m.removedValues
    ensures var r := OnRemove(m, id, v);
            && (k in r.newIds <==> k in m.newIds && k != id)
            && (k != id || id !in m.newIds ==>
                  Lookup(r.oldValues, k) == if k == id then None else Lookup(m.oldValues, k))
            && (k == id && id in m.newIds ==> Lookup(r.oldValues, k) == Lookup(m.oldValues, k))
            && Lookup(r.removedValues, k) ==
                 (if k == id && id !in m.newIds then Some(if id in m.oldValues then m.oldValues[id] else v)
                  else Lookup(m.removedValues, k))
  {}

  lemma MergeOneMoreAt<V>(prev: UndoState<V>, u: UndoState<V>, id: nat, v: V, k: nat)
    requires id !in u.newIds && id !in u.oldValues && id !in u.removedValues && id !in prev.removedValues
    requires Disjoint(prev)
    ensures var r, t := OnRemove(Merge(prev, u), id, v), Merge(prev, u.(removedValues := u.removedValues[id := v]));
            && (k in r.newIds <==> k in t.newIds)
            && Lookup(r.oldValues, k) == Lookup(t.oldValues, k)
            && Lookup(r.removedValues, k) == Lookup(t.removedValues, k)
  {
    MergeLookups(prev, u, id);
    MergeLookups(prev, u, k);
    MergeLookups(prev, u.(removedValues := u.removedValues[id := v]), k);
    OnRemoveLookups(Merge(prev, u), id, v, k);
  }

  lemma TopTwoChronological<V>(s: Index<V>)
    requires Valid(s) && |s.stack| >= 2
    ensures Chronological(s.stack[|s.stack| - 2], s.stack[|s.stack| - 1])
    ensures Disjoint(s.stack[|s.stack| - 2]) && Disjoint(s.stack[|s.stack| - 1])
  {
    var n := |s.stack|;
    TopTwo(s);
    forall id: nat {:trigger CausalAt(s.stack[n - 2], s.stack[n - 1], id)}
      ensures CausalAt(s.stack[n - 2], s.stack[n - 1], id)
    {
      MergeTable(s.stack[n - 2], s.stack[n - 1], s.rows, s.nextId, id);
    }
  }
}
