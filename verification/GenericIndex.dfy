/** The index object itself: fields updated in place, record by record and row by row,
    each method proved to be one step of `UndoIndex`. */
module GenericIndexModel {
  import opened UndoIndex

  class GenericIndex<V> {
    var stack: seq<UndoState<V>>
    var revision: int
    var nextId: nat
    var rows: map<nat, V>

    ghost function State(): Index<V>
      reads this
    {
      Index(stack, revision, nextId, rows)
    }

    constructor ()
      ensures State() == Index([], 0, 0, map[]) && Valid(State())
    {
      stack, revision, nextId, rows := [], 0, 0, map[];
    }

    method Emplace(v: V) returns (id: nat)
      requires Valid(State())
      modifies this
      ensures Valid(State()) && State() == Step(old(State()), Create(v))
      ensures id == old(nextId) && id !in old(rows)
    {
      StepRefines(State(), Create(v));
      id := nextId;
      rows := rows[id := v];
      nextId := nextId + 1;
      if stack != [] {
        stack := SetTop(stack, OnCreate(Top(stack), id));
      }
    }

    method Change(id: nat, v: V)
      requires Valid(State()) && id in rows
      modifies this
      ensures Valid(State()) && State() == Step(old(State()), Update(id, v))
    {
      StepRefines(State(), Update(id, v));
      if stack != [] {
        stack := SetTop(stack, OnModify(Top(stack), id, rows[id]));
      }
      rows := rows[id := v];
    }

    method RemoveObject(id: nat) returns (found: bool)
      requires Valid(State())
      modifies this
      ensures Valid(State()) && State() == Step(old(State()), Delete(id))
      ensures found <==> id in old(rows)
    {
      StepRefines(State(), Delete(id));
      found := id in rows;
      if found {
        if stack != [] {
          stack := SetTop(stack, OnRemove(Top(stack), id, rows[id]));
        }
        rows := rows - {id};
      }
    }

    /** The revision of the new session, or -1 when no session was asked for. */
    method StartUndoSession(enabled: bool) returns (session: int)
      requires Valid(State())
      modifies this
      ensures Valid(State())
      ensures State() == if enabled then Step(old(State()), Start) else old(State())
      ensures session == if enabled then revision else -1
    {
      StepRefines(State(), Start);
      session := -1;
      if enabled {
        revision := revision + 1;
        stack := stack + [UndoState(map[], map[], {}, nextId, revision)];
        session := revision;
      }
    }

    /** Erases the created rows, puts changed rows back, then re-inserts deleted ones. */
    method Undo()
      requires Valid(State())
      modifies this
      ensures Valid(State()) && State() == Step(old(State()), Revert)
    {
      StepRefines(State(), Revert);
      if stack == [] {
        return;
      }
      var head := Top(stack);
      rows := EraseRows(rows, head.newIds);
      nextId := head.oldNextId;
      rows := OverwriteRows(rows, head.oldValues);
      rows := InsertRows(rows, head.removedValues);
      stack := stack[..|stack| - 1];
      revision := revision - 1;
    }

    static method EraseRows(before: map<nat, V>, ids: set<nat>) returns (rows: map<nat, V>)
      requires ids <= before.Keys
      ensures rows == before - ids
    {
      rows := before;
      var todo := ids;
      while todo != {}
        invariant todo <= ids && todo <= rows.Keys
        invariant rows == before - (ids - todo)
        decreases todo
      {
        var id :| id in todo;
        rows, todo := rows - {id}, todo - {id};
      }
      assert ids - todo == ids;
    }

    static method OverwriteRows(before: map<nat, V>, values: map<nat, V>) returns (rows: map<nat, V>)
      requires values.Keys <= before.Keys
      ensures rows == before + values
    {
      rows := before;
      var todo := values.Keys;
      while todo != {}
        invariant todo <= values.Keys && rows.Keys == before.Keys
        invariant forall id :: id in rows ==>
                    rows[id] == if id in values && id !in todo then values[id] else before[id]
        decreases todo
      {
        var id :| id in todo;
        assert id in rows;
        rows, todo := rows[id := values[id]], todo - {id};
      }
    }

    static method InsertRows(before: map<nat, V>, values: map<nat, V>) returns (rows: map<nat, V>)
      requires values.Keys !! before.Keys
      ensures rows == before + values
    {
      rows := before;
      var todo := values.Keys;
      while todo != {}
        invariant todo <= values.Keys
        invariant forall id :: id in rows <==> id in before || (id in values && id !in todo)
        invariant forall id :: id in rows ==> rows[id] == if id in values then values[id] else before[id]
        decreases todo
      {
        var id :| id in todo;
        assert id !in rows;
        rows, todo := rows[id := values[id]], todo - {id};
      }
    }

    /** Folds the youngest record into the one below it; the rows do not change. */
    method Squash()
      requires Valid(State())
      modifies this
      ensures Valid(State()) && State() == Step(old(State()), Absorb)
    {
      StepRefines(State(), Absorb);
      if stack == [] {
        return;
      }
      if |stack| == 1 {
        stack, revision := stack[1..], revision - 1;
        return;
      }
      var n := |stack|;
      var prev, u := stack[n - 2], stack[n - 1];
      TopTwoChronological(State());
      var merged := MergeUpdates(prev, u);
      merged := MergeCreations(merged, u);
      merged := MergeDeletions(prev, merged, u);
      stack := stack[..n - 2] + [merged];
      revision := revision - 1;
    }

    /** nop+upd becomes upd; everything else keeps what `prev` has. */
    static method MergeUpdates(prev: UndoState<V>, u: UndoState<V>) returns (merged: UndoState<V>)
      requires Chronological(prev, u) && Disjoint(prev) && Disjoint(u)
      ensures merged == prev.(oldValues := (u.oldValues - prev.newIds) + prev.oldValues)
    {
      merged := prev;
      var todo := u.oldValues.Keys;
      while todo != {}
        invariant todo <= u.oldValues.Keys
        invariant merged == prev.(oldValues := merged.oldValues)
        invariant forall id :: id in merged.oldValues <==>
                    id in prev.oldValues || (id in u.oldValues && id !in todo && id !in prev.newIds)
        invariant forall id :: id in merged.oldValues ==>
                    merged.oldValues[id] == if id in prev.oldValues then prev.oldValues[id] else u.oldValues[id]
        decreases todo
      {
        var id :| id in todo;
        todo := todo - {id};
        if id in merged.newIds || id in merged.oldValues {
          continue;
        }
        assert id !in merged.removedValues by { assert CausalAt(prev, u, id); }
        merged := merged.(oldValues := merged.oldValues[id := u.oldValues[id]]);
      }
    }

    static method MergeCreations(prev: UndoState<V>, u: UndoState<V>) returns (merged: UndoState<V>)
      ensures merged == prev.(newIds := prev.newIds + u.newIds)
    {
      merged := prev;
      var todo := u.newIds;
      while todo != {}
        invariant todo <= u.newIds
        invariant merged == prev.(newIds := prev.newIds + (u.newIds - todo))
        decreases todo
      {
        var id :| id in todo;
        merged, todo := merged.(newIds := merged.newIds + {id}), todo - {id};
      }
    }

    /** new+del becomes nop, upd+del and nop+del become del. */
    static method MergeDeletions(ghost prev: UndoState<V>, partial: UndoState<V>, u: UndoState<V>)
      returns (merged: UndoState<V>)
      requires Chronological(prev, u) && Disjoint(prev) && Disjoint(u)
      requires partial == prev.(oldValues := (u.oldValues - prev.newIds) + prev.oldValues,
                                newIds := prev.newIds + u.newIds)
      ensures merged == Merge(prev, u)
    {
      merged := partial;
      var todo := u.removedValues.Keys;
      assert merged == Merge(prev, Without(u, todo)) by { NothingDeletedYet(prev, u); }
      while todo != {}
        invariant todo <= u.removedValues.Keys
        invariant merged == Merge(prev, Without(u, todo))
        decreases todo
      {
        var id :| id in todo;
        DeletionStep(prev, u, todo, id);
        todo := todo - {id};
        if id in merged.newIds {
          merged := merged.(newIds := merged.newIds - {id});
        } else if id in merged.oldValues {
          merged := merged.(removedValues := merged.removedValues[id := merged.oldValues[id]],
                            oldValues := merged.oldValues - {id});
        } else {
          assert id !in merged.removedValues;
          merged := merged.(removedValues := merged.removedValues[id := u.removedValues[id]]);
        }
      }
      assert Without(u, todo).removedValues == u.removedValues;
    }

    method CommitTo(to: int)
      requires Valid(State())
      modifies this
      ensures Valid(State()) && State() == Step(old(State()), Discard(to))
    {
      StepRefines(State(), Discard(to));
      while stack != [] && stack[0].revision <= to
        invariant DropCommitted(stack, to) == DropCommitted(old(stack), to)
        invariant revision == old(revision) && nextId == old(nextId) && rows == old(rows)
        decreases |stack|
      {
        stack := stack[1..];
      }
    }

    /** Unwinds every session: back to the oldest copy, with no history left. */
    method UnwindAll()
      requires Valid(State())
      modifies this
      ensures Valid(State()) && State() == UndoAll(old(State()))
      ensures stack == [] && (old(stack) != [] ==> rows == Saved(old(stack), old(rows))[0].rows)
    {
      UndoAllRestoresOldest(State());
      while stack != []
        invariant Valid(State()) && UndoAll(State()) == UndoAll(old(State()))
        decreases |stack|
      {
        Undo();
      }
    }

    method SetRevision(to: nat) returns (ok: bool)
      requires Valid(State())
      modifies this
      ensures Valid(State()) && State() == Step(old(State()), Renumber(to))
      ensures ok <==> old(stack) == [] && to <= 0x7FFF_FFFF_FFFF_FFFF
      ensures stack == old(stack) && nextId == old(nextId) && rows == old(rows) && revision == if ok then to else old(revision)
    {
      StepRefines(State(), Renumber(to));
      ok := stack == [] && to <= MAX_REVISION;
      if ok {
        revision := to;
      }
    }
  }
}
