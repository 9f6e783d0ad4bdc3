/** `TablePatcher`: the in-memory key index over a table's rows, `add`,
    the batch scope `process` and the driver `update`. */
module Patcher {
  import opened Wrappers
  import opened Values
  import opened Seqs
  import opened Store
  import opened Reconcile
  import opened Flushing

  /** A mapped row object; `fields` holds the attributes `setattr` has given
      it. A row the model has just constructed has none. */
  class Row {
    var fields: Fields

    constructor ()
      ensures fields == map[]
    {
      fields := map[];
    }

    /** The comparison loop of `add`: does any field of the record differ
        from the row's attribute of that name? */
    method DiffersFrom(record: Fields) returns (changed: bool)
      ensures changed <==> Differs(fields, record)
    {
      changed := false;
      var unseen := record.Keys;
      while unseen != {}
        invariant unseen <= record.Keys
        invariant forall k | k in record && k !in unseen :: Get(fields, k) == record[k]
      {
        var k :| k in unseen;
        if Get(fields, k) != record[k] {
          return true;
        }
        unseen := unseen - {k};
      }
    }

    /** The `setattr` loop of `add`: copy every field of the record onto the row. */
    method Assign(record: Fields)
      modifies this
      ensures fields == Overwrite(old(fields), record)
    {
      var unwritten := record.Keys;
      while unwritten != {}
        invariant unwritten <= record.Keys
        invariant forall k | k in record && k !in unwritten :: k in fields && fields[k] == record[k]
        invariant forall k | k !in record || k in unwritten ::
          (k in fields <==> k in old(fields)) && (k in fields ==> fields[k] == old(fields)[k])
      {
        var k :| k in unwritten;
        fields := fields[k := record[k]];
        unwritten := unwritten - {k};
      }
    }
  }

  /** `AddResult(row, is_new, is_changed)`. */
  datatype AddResult = AddResult(row: Row, isNew: bool, isChanged: bool)

  /** The index built from `rows` in order: a later row with the same key
      replaces an earlier one, as in a dict comprehension. */
  function IndexRows(rows: seq<Row>, keyColumns: seq<string>): map<Key, Row>
    reads rows
  {
    if rows == [] then map[]
    else
      var last := rows[|rows| - 1];
      IndexRows(rows[..|rows| - 1], keyColumns)[KeyOf(last.fields, keyColumns) := last]
  }

  /** Every row is reachable by its key, and the index holds only rows of
      `rows`, each filed under its own key. */
  lemma {:induction false} IndexRowsCovers(rows: seq<Row>, keyColumns: seq<string>)
    ensures forall i | 0 <= i < |rows| :: KeyOf(rows[i].fields, keyColumns) in IndexRows(rows, keyColumns)
    ensures var m := IndexRows(rows, keyColumns);
      forall k | k in m :: m[k] in rows && KeyOf(m[k].fields, keyColumns) == k
  {
    if rows != [] {
      var init := rows[..|rows| - 1];
      var last := rows[|rows| - 1];
      var m := IndexRows(rows, keyColumns);
      IndexRowsCovers(init, keyColumns);
      assert m == IndexRows(init, keyColumns)[KeyOf(last.fields, keyColumns) := last];
      forall i | 0 <= i < |rows|
        ensures KeyOf(rows[i].fields, keyColumns) in m
      {
        if i < |init| {
          assert init[i] == rows[i];
        }
      }
      forall k | k in m
        ensures m[k] in rows && KeyOf(m[k].fields, keyColumns) == k
      {
        if k != KeyOf(last.fields, keyColumns) {
          var j :| 0 <= j < |init| && init[j] == m[k];
          assert rows[j] == m[k];
        }
      }
    }
  }

  /** A row that no later row shares a key with is the one filed under
      that key. */
  lemma {:induction false} IndexRowsLastWins(rows: seq<Row>, keyColumns: seq<string>, i: nat)
    requires i < |rows|
    requires forall j | i < j < |rows| :: KeyOf(rows[j].fields, keyColumns) != KeyOf(rows[i].fields, keyColumns)
    ensures var m := IndexRows(rows, keyColumns);
      KeyOf(rows[i].fields, keyColumns) in m && m[KeyOf(rows[i].fields, keyColumns)] == rows[i]
  {
    if i < |rows| - 1 {
      var init := rows[..|rows| - 1];
      assert init[i] == rows[i];
      IndexRowsLastWins(init, keyColumns, i);
    }
  }

  class TablePatcher {
    const keyColumns: seq<string>
    const session: Session
    var existing: map<Key, Row>
    /** The index seen as values: each key with its row's current attributes. */
    ghost var table: map<Key, Fields>
    /** The rows the patcher may change. */
    ghost var Repr: set<Row>

    /** `table` mirrors the rows, and every row is filed under its own
        current key. */
    ghost predicate Valid()
      reads this, Repr
    {
      && existing.Keys == table.Keys
      && (forall k | k in existing :: existing[k] in Repr && existing[k].fields == table[k])
      && Consistent(table, keyColumns)
    }

    /** `__init__`: index every row the table's query returns. A row that a
        later row of the query shadows is not filed and not owned. */
    constructor (session: Session, keyColumns: seq<string>, query: seq<Row>)
      ensures Valid()
      ensures this.session == session && this.keyColumns == keyColumns
      ensures existing == IndexRows(query, keyColumns)
      ensures Repr == existing.Values && forall row | row in Repr :: row in query
    {
      this.session := session;
      this.keyColumns := keyColumns;
      var index: map<Key, Row> := map[];
      ghost var rows: map<Key, Fields> := map[];
      for i := 0 to |query|
        invariant index == IndexRows(query[..i], keyColumns)
        invariant index.Keys == rows.Keys
        invariant forall k | k in index :: index[k].fields == rows[k] && index[k] in query[..i]
        invariant Consistent(rows, keyColumns)
      {
        assert query[..i + 1][..i] == query[..i];
        var key := KeyOf(query[i].fields, keyColumns);
        index := index[key := query[i]];
        rows := rows[key := query[i].fields];
      }
      assert query[..|query|] == query;
      existing := index;
      table := rows;
      Repr := index.Values;
    }

    /** A row of the index is the only one filed under its key. */
    lemma RowsDistinct(key: Key)
      requires Valid() && key in existing
      ensures forall k | k in existing && k != key :: existing[k] != existing[key]
    {
    }

    /** The `create` branch of `add`: a new row, registered with the session
        and the index, then given the record's fields. */
    method Insert(record: Fields) returns (row: Row)
      requires Valid() && KeyOf(record, keyColumns) !in existing
      modifies this, session
      ensures Valid()
      ensures fresh(row) && existing == old(existing)[KeyOf(record, keyColumns) := row]
      ensures Repr == old(Repr) + {row}
      ensures table == old(table)[KeyOf(record, keyColumns) := Overwrite(map[], record)]
      ensures session.added == old(session.added) + [row]
      ensures session.flushes == old(session.flushes) && session.commits == old(session.commits)
    {
      var key := KeyOf(record, keyColumns);
      row := new Row();
      row.Assign(record);
      OverwriteEmptyKey(record, keyColumns);
      ConsistentFile(table, keyColumns, row.fields);
      session.Add(row);
      existing := existing[key := row];
      table := table[key := row.fields];
      Repr := Repr + {row};
      forall k | k in existing
        ensures existing[k] in Repr && existing[k].fields == table[k]
      {
        if k != key {
          assert old(existing)[k] in old(Repr);
        }
      }
    }

    /** The known-key branch of `add`: overwrite the row only when a field differs. */
    method Refresh(record: Fields) returns (changed: bool)
      requires Valid() && KeyOf(record, keyColumns) in existing
      modifies existing[KeyOf(record, keyColumns)], this`table
      ensures Valid()
      ensures changed <==> Differs(old(table)[KeyOf(record, keyColumns)], record)
      ensures table == if changed then old(table)[KeyOf(record, keyColumns) := Overwrite(old(table)[KeyOf(record, keyColumns)], record)]
                       else old(table)
    {
      var key := KeyOf(record, keyColumns);
      var row := existing[key];
      RowsDistinct(key);
      changed := row.DiffersFrom(record);
      if changed {
        OverwriteKeepsKey(table[key], record, keyColumns);
        row.Assign(record);
        table := table[key := row.fields];
      }
    }

    /** `add(record, create)`: find the row by the record's key, create it or
        fail when it is unknown, and overwrite every field of the record when
        any of them differs. */
    method Add(record: Fields, create: bool) returns (r: Result<AddResult, PatchError>)
      requires Valid()
      modifies this, session, Repr
      ensures Valid()
      ensures var spec := AddSpec(old(table), keyColumns, record, create);
        && r.Success? == spec.Success?
        && (r.Failure? ==> r.error == spec.error && table == old(table) && existing == old(existing))
        && (r.Success? ==> table == spec.value.index
                           && r.value.isNew == spec.value.isNew
                           && r.value.isChanged == spec.value.isChanged)
      ensures r.Success? ==> var key := KeyOf(record, keyColumns);
        key in existing && existing[key] == r.value.row
      ensures r.Success? && r.value.isNew ==> fresh(r.value.row)
      ensures session.added == old(session.added) + if r.Success? && r.value.isNew then [r.value.row] else []
      ensures session.flushes == old(session.flushes) && session.commits == old(session.commits)
      ensures r.Success? ==> forall k | k in old(existing) && k != KeyOf(record, keyColumns) :: existing[k] == old(existing)[k]
      ensures forall row | row in old(Repr) && !(KeyOf(record, keyColumns) in old(existing) && row == old(existing)[KeyOf(record, keyColumns)]) ::
        row.fields == old(row.fields)
      ensures Repr == old(Repr) + if r.Success? && r.value.isNew then {r.value.row} else {}
      ensures fresh(Repr - old(Repr))
    {
      var key := KeyOf(record, keyColumns);
      if key !in existing {
        if !create {
          return Failure(RowNotFound(key));
        }
        var row := Insert(record);
        r := Success(AddResult(row, true, true));
      } else {
        var changed := Refresh(record);
        r := Success(AddResult(existing[key], false, changed));
      }
    }

    /** `update(data, create)` as written: every record through the scope's
        `add` with a flush interval of 1000 and a `total` counter that never
        grows, so every successful add flushes. The first error ends the
        batch without a commit; otherwise the batch commits once. */
    method Update(data: seq<Fields>, create: bool) returns (r: Result<Counts, PatchError>)
      requires Valid()
      modifies this, session, Repr
      ensures Valid()
      ensures var run := Replay(old(table), keyColumns, data, create);
        && table == run.index
        && (r.Success? <==> run.error.None?)
        && (r.Failure? ==> Some(r.error) == run.error)
        && (r.Success? ==> r.value == run.counts)
        && session.flushes == old(session.flushes) + run.done
        && |session.added| == |old(session.added)| + run.counts.created
      ensures session.commits == old(session.commits) + if r.Success? then 1 else 0
      ensures fresh(Repr - old(Repr))
    {
      r := Batched(data, create, 0);
      FlushCountAsWritten(Replay(old(table), keyColumns, data, create).done, 1000);
    }

    /** `update` with the counter growing by one per add, as intended: one
        flush per 1000 successful adds. */
    method UpdateIntended(data: seq<Fields>, create: bool) returns (r: Result<Counts, PatchError>)
      requires Valid()
      modifies this, session, Repr
      ensures Valid()
      ensures var run := Replay(old(table), keyColumns, data, create);
        && table == run.index
        && (r.Success? <==> run.error.None?)
        && (r.Failure? ==> Some(r.error) == run.error)
        && (r.Success? ==> r.value == run.counts)
        && session.flushes == old(session.flushes) + run.done / 1000
        && |session.added| == |old(session.added)| + run.counts.created
      ensures session.commits == old(session.commits) + if r.Success? then 1 else 0
      ensures fresh(Repr - old(Repr))
    {
      r := Batched(data, create, 1);
      FlushCountEveryInterval(Replay(old(table), keyColumns, data, create).done, 1000);
    }

    /** The body of `update` for a given growth of the `total` counter. */
    method Batched(data: seq<Fields>, create: bool, step: nat) returns (r: Result<Counts, PatchError>)
      requires Valid()
      modifies this, session, Repr
      ensures Valid()
      ensures var run := Replay(old(table), keyColumns, data, create);
        && table == run.index
        && (r.Success? <==> run.error.None?)
        && (r.Failure? ==> Some(r.error) == run.error)
        && (r.Success? ==> r.value == run.counts)
        && session.flushes == old(session.flushes) + FlushCount(run.done, step, Some(1000))
        && |session.added| == |old(session.added)| + run.counts.created
      ensures session.commits == old(session.commits) + if r.Success? then 1 else 0
      ensures fresh(Repr - old(Repr))
    {
      var batch := new Batch(this, Some(1000), step);
      var failed := batch.AddAll(data, create);
      if failed.Some? {
        return Failure(failed.value);
      }
      var counts := batch.Close();
      r := Success(counts);
    }
  }

  /** The scope `process(autoflush)` opens: its counters and the `add` it
      hands out. Closing the scope normally commits; leaving it by an error
      does not, which the caller models by not calling `Close`. Each
      successful add grows `total` by `step`: 0 as the source is written,
      1 as intended. */
  class Batch {
    const patcher: TablePatcher
    const autoflush: Option<int>
    const step: nat
    var total: nat
    var counts: Counts
    /** The batch so far, as a value. */
    ghost var run: Run

    /** The counters are those of `run`, which has not failed, and `total`
        has grown by `step` per successful add. */
    ghost predicate Tracks()
      reads this
    {
      run.error.None? && counts == run.counts && total == run.done * step
    }

    constructor (patcher: TablePatcher, autoflush: Option<int>, step: nat)
      requires patcher.Valid()
      ensures this.patcher == patcher && this.autoflush == autoflush && this.step == step
      ensures Tracks() && run == Run(patcher.table, Counts(0, 0, 0), 0, None)
    {
      this.patcher := patcher;
      this.autoflush := autoflush;
      this.step := step;
      total := 0;
      counts := Counts(0, 0, 0);
      run := Run(patcher.table, Counts(0, 0, 0), 0, None);
    }

    /** The scope's `add`: the patcher's `add`, then the counter for the
        outcome and the flush test. An error leaves the counters alone and
        propagates. */
    method Add(record: Fields, create: bool) returns (r: Result<AddResult, PatchError>)
      requires Tracks() && patcher.Valid() && patcher.table == run.index
      modifies this, patcher, patcher.session, patcher.Repr
      ensures run == Advance(old(run), patcher.keyColumns, record, create)
      ensures patcher.Valid() && patcher.table == run.index
      ensures r.Success? <==> run.error.None?
      ensures r.Failure? ==> Some(r.error) == run.error
      ensures r.Success? ==> Tracks()
      ensures r.Failure? ==> counts == old(counts) && total == old(total)
      ensures r.Success? ==> var spec := AddSpec(old(run).index, patcher.keyColumns, record, create);
        spec.Success? && r.value.isNew == spec.value.isNew && r.value.isChanged == spec.value.isChanged
      ensures r.Success? ==> var key := KeyOf(record, patcher.keyColumns);
        key in patcher.existing && patcher.existing[key] == r.value.row
      ensures patcher.session.added == old(patcher.session.added) + if r.Success? && r.value.isNew then [r.value.row] else []
      ensures patcher.session.flushes == old(patcher.session.flushes) + if r.Success? && ShouldFlush(total, autoflush) then 1 else 0
      ensures patcher.session.commits == old(patcher.session.commits)
      ensures fresh(patcher.Repr - old(patcher.Repr))
    {
      r := Apply(record, create);
      if r.Success? {
        Record(r.value);
      }
    }

    /** The body of `update`: the scope's `add` for each record in turn,
        until one fails. */
    method AddAll(data: seq<Fields>, create: bool) returns (failed: Option<PatchError>)
      requires autoflush == Some(1000)
      requires Tracks() && run.done == 0 && patcher.Valid() && patcher.table == run.index
      modifies this, patcher, patcher.session, patcher.Repr
      ensures run == ReplayFrom(old(run), patcher.keyColumns, data, create)
      ensures patcher.Valid() && patcher.table == run.index
      ensures failed == run.error && (failed.None? ==> Tracks())
      ensures |patcher.session.added| == |old(patcher.session.added)| + run.counts.created - old(run.counts.created)
      ensures patcher.session.flushes == old(patcher.session.flushes) + FlushCount(run.done, step, autoflush)
      ensures patcher.session.commits == old(patcher.session.commits)
      ensures fresh(patcher.Repr - old(patcher.Repr))
    {
      ghost var final := ReplayFrom(run, patcher.keyColumns, data, create);
      assert data[0..] == data;
      for i := 0 to |data|
        invariant Tracks() && run.done == i && patcher.Valid() && patcher.table == run.index
        invariant ReplayFrom(run, patcher.keyColumns, data[i..], create) == final
        invariant patcher.session.flushes == old(patcher.session.flushes) + FlushCount(i, step, autoflush)
        invariant patcher.session.commits == old(patcher.session.commits)
        invariant |patcher.session.added| == |old(patcher.session.added)| + run.counts.created - old(run.counts.created)
        invariant fresh(patcher.Repr - old(patcher.Repr))
      {
        failed := Feed(data, i, create, final, old(patcher.session.flushes));
        if failed.Some? {
          return;
        }
      }
      return None;
    }

    /** One turn of the loop of `update`: the scope's `add` for record `i`,
        which either moves the batch on to record `i + 1` or ends it. */
    method Feed(data: seq<Fields>, i: nat, create: bool, ghost final: Run, ghost flushes0: int)
      returns (failed: Option<PatchError>)
      requires autoflush == Some(1000) && i < |data|
      requires Tracks() && run.done == i && patcher.Valid() && patcher.table == run.index
      requires ReplayFrom(run, patcher.keyColumns, data[i..], create) == final
      requires patcher.session.flushes == flushes0 + FlushCount(i, step, autoflush)
      modifies this, patcher, patcher.session, patcher.Repr
      ensures patcher.Valid() && patcher.table == run.index
      ensures patcher.session.commits == old(patcher.session.commits)
      ensures |patcher.session.added| == |old(patcher.session.added)| + run.counts.created - old(run.counts.created)
      ensures failed.None? ==>
        && Tracks() && run.done == i + 1
        && ReplayFrom(run, patcher.keyColumns, data[i + 1..], create) == final
        && patcher.session.flushes == flushes0 + FlushCount(i + 1, step, autoflush)
      ensures failed.Some? ==>
        && run == final && failed == run.error
        && patcher.session.flushes == flushes0 + FlushCount(run.done, step, autoflush)
      ensures fresh(patcher.Repr - old(patcher.Repr))
    {
      ReplayFromStep(run, patcher.keyColumns, data, i, create);
      FlushCountStep(i, step, autoflush);
      var added := Add(data[i], create);
      if added.Failure? {
        ReplayFromDone(run, patcher.keyColumns, data[i + 1..], create);
        return Some(added.error);
      }
      return None;
    }

    /** The patcher's `add`, and the batch value advanced past the record. */
    method Apply(record: Fields, create: bool) returns (r: Result<AddResult, PatchError>)
      requires Tracks() && patcher.Valid() && patcher.table == run.index
      modifies this`run, patcher, patcher.session, patcher.Repr
      ensures run == Advance(old(run), patcher.keyColumns, record, create)
      ensures patcher.Valid() && patcher.table == run.index
      ensures r.Success? <==> run.error.None?
      ensures r.Failure? ==> Some(r.error) == run.error
      ensures r.Success? ==> run.counts == Tally(old(run.counts), r.value.isNew, r.value.isChanged)
                             && run.done == old(run.done) + 1
      ensures r.Success? ==> var spec := AddSpec(old(run).index, patcher.keyColumns, record, create);
        spec.Success? && r.value.isNew == spec.value.isNew && r.value.isChanged == spec.value.isChanged
      ensures r.Success? ==> var key := KeyOf(record, patcher.keyColumns);
        key in patcher.existing && patcher.existing[key] == r.value.row
      ensures patcher.session.added == old(patcher.session.added) + if r.Success? && r.value.isNew then [r.value.row] else []
      ensures patcher.session.flushes == old(patcher.session.flushes)
      ensures patcher.session.commits == old(patcher.session.commits)
      ensures fresh(patcher.Repr - old(patcher.Repr))
    {
      AdvanceStep(run, patcher.keyColumns, record, create);
      r := patcher.Add(record, create);
      run := Advance(run, patcher.keyColumns, record, create);
    }

    /** After a successful `add`: the `total` step, the flush when `total`
        passes the test, and the counter for the outcome. */
    method Record(result: AddResult)
      requires run.error.None? && run.counts == Tally(counts, result.isNew, result.isChanged)
      requires run.done >= 1 && total == (run.done - 1) * step
      requires patcher.Valid() && patcher.table == run.index
      modifies this`counts, this`total, patcher.session
      ensures Tracks() && patcher.Valid() && patcher.table == run.index
      ensures patcher.session.flushes == old(patcher.session.flushes) + if ShouldFlush(total, autoflush) then 1 else 0
      ensures patcher.session.added == old(patcher.session.added)
      ensures patcher.session.commits == old(patcher.session.commits)
    {
      total := total + step;
      if ShouldFlush(total, autoflush) {
        patcher.session.Flush();
      }
      counts := Tally(counts, result.isNew, result.isChanged);
    }

    /** Normal exit from the scope: commit, and report the counters. */
    method Close() returns (c: Counts)
      modifies patcher.session
      ensures c == counts
      ensures patcher.session.commits == old(patcher.session.commits) + 1
      ensures patcher.session.added == old(patcher.session.added)
      ensures patcher.session.flushes == old(patcher.session.flushes)
    {
      patcher.session.Commit();
      c := counts;
    }
  }
}
