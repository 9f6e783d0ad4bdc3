/** The create / update / no-op decision of `TablePatcher.add`, and the
    batch run of `update`, stated on values: the patcher's index seen as a
    map from key tuple to the current attribute values of the indexed row. */
module Reconcile {
  import opened Wrappers
  import opened Values

  /** A key tuple: one value per key column, in key-column order. */
  type Key = seq<Value>

  /** `row_key` / `dict_key`: the tuple of a row's (or record's) values for
      the key columns. A column the record lacks contributes `None`. */
  function KeyOf(fields: Fields, keyColumns: seq<string>): (key: Key)
    ensures |key| == |keyColumns|
  {
    if keyColumns == [] then []
    else [Get(fields, keyColumns[0])] + KeyOf(fields, keyColumns[1..])
  }

  /** Position `i` of the key is the value of key column `i`. */
  lemma {:induction false} KeyOfColumns(fields: Fields, keyColumns: seq<string>)
    ensures forall i | 0 <= i < |keyColumns| :: KeyOf(fields, keyColumns)[i] == Get(fields, keyColumns[i])
  {
    if keyColumns != [] {
      KeyOfColumns(fields, keyColumns[1..]);
    }
  }

  /** A key column absent from the record puts `None` in the key; computing
      the key never fails. */
  lemma KeyOfMissingColumn(record: Fields, keyColumns: seq<string>, i: nat)
    requires i < |keyColumns| && keyColumns[i] !in record
    ensures KeyOf(record, keyColumns)[i] == NoneV
  {
    KeyOfColumns(record, keyColumns);
  }

  /** Some field of the record differs from the row's current value. */
  predicate Differs(row: Fields, record: Fields)
    ensures Differs(row, record) <==> exists k | k in record :: Get(Overwrite(row, record), k) != Get(row, k)
  {
    exists k | k in record :: Get(row, k) != record[k]
  }

  /** `setattr(row, k, record[k])` for every field of the record. */
  function Overwrite(row: Fields, record: Fields): (r: Fields)
    ensures r.Keys == row.Keys + record.Keys
    ensures forall k | k in record :: r[k] == record[k]
    ensures forall k | k in row && k !in record :: r[k] == row[k]
  {
    row + record
  }

  datatype PatchError = RowNotFound(key: Key)

  /** The index after one `add`, with the call's `is_new` and `is_changed`. */
  datatype Step = Step(index: map<Key, Fields>, isNew: bool, isChanged: bool)

  /** One `add(record, create)` against the index. A fresh row has no field
      set, so it ends up holding exactly the record's fields. */
  function AddSpec(index: map<Key, Fields>, keyColumns: seq<string>, record: Fields, create: bool): (r: Result<Step, PatchError>)
    ensures r.Failure? <==> KeyOf(record, keyColumns) !in index && !create
    ensures r.Success? ==> index.Keys <= r.value.index.Keys
    ensures r.Success? && r.value.isNew ==> r.value.isChanged
  {
    var key := KeyOf(record, keyColumns);
    if key !in index then
      if create then Success(Step(index[key := Overwrite(map[], record)], true, true))
      else Failure(RowNotFound(key))
    else if Differs(index[key], record) then
      Success(Step(index[key := Overwrite(index[key], record)], false, true))
    else
      Success(Step(index, false, false))
  }

  /** Every indexed row's key is the key it is filed under. */
  ghost predicate Consistent(index: map<Key, Fields>, keyColumns: seq<string>)
  {
    forall k | k in index :: KeyOf(index[k], keyColumns) == k
  }

  /** Filing fields under their own key keeps the index consistent. */
  lemma ConsistentFile(index: map<Key, Fields>, keyColumns: seq<string>, fields: Fields)
    requires Consistent(index, keyColumns)
    ensures Consistent(index[KeyOf(fields, keyColumns) := fields], keyColumns)
  {
  }

  /** An unseen key with `create` adds one row holding the record's fields. */
  lemma AddUnseenCreates(index: map<Key, Fields>, keyColumns: seq<string>, record: Fields)
    requires KeyOf(record, keyColumns) !in index
    ensures var r := AddSpec(index, keyColumns, record, true);
      && r.Success? && r.value.isNew && r.value.isChanged
      && r.value.index.Keys == index.Keys + {KeyOf(record, keyColumns)}
      && r.value.index[KeyOf(record, keyColumns)] == record
  {
    assert map[] + record == record;
  }

  /** An unseen key without `create` raises `RowNotFound` for that key. */
  lemma AddUnseenRefused(index: map<Key, Fields>, keyColumns: seq<string>, record: Fields)
    requires KeyOf(record, keyColumns) !in index
    ensures AddSpec(index, keyColumns, record, false) == Failure(RowNotFound(KeyOf(record, keyColumns)))
  {
  }

  /** A known key whose row already agrees on every record field changes nothing. */
  lemma AddKnownUnchanged(index: map<Key, Fields>, keyColumns: seq<string>, record: Fields, create: bool)
    requires KeyOf(record, keyColumns) in index
    requires forall k | k in record :: Get(index[KeyOf(record, keyColumns)], k) == record[k]
    ensures AddSpec(index, keyColumns, record, create) == Success(Step(index, false, false))
  {
  }

  /** A known key with one differing field rewrites every field of the record
      on that row, and no other row. */
  lemma AddKnownChanged(index: map<Key, Fields>, keyColumns: seq<string>, record: Fields, create: bool, k0: string)
    requires KeyOf(record, keyColumns) in index
    requires k0 in record && Get(index[KeyOf(record, keyColumns)], k0) != record[k0]
    ensures var key := KeyOf(record, keyColumns);
      var r := AddSpec(index, keyColumns, record, create);
      && r.Success? && !r.value.isNew && r.value.isChanged
      && r.value.index.Keys == index.Keys
      && (forall k | k in record :: r.value.index[key][k] == record[k])
      && (forall k | k in index[key] && k !in record :: r.value.index[key][k] == index[key][k])
      && (forall other | other in index && other != key :: r.value.index[other] == index[other])
  {
  }

  /** Copying a record onto a row that already has the record's key keeps
      that key: a key column the record lacks is `None` in both. */
  lemma OverwriteKeepsKey(row: Fields, record: Fields, keyColumns: seq<string>)
    requires KeyOf(row, keyColumns) == KeyOf(record, keyColumns)
    ensures KeyOf(Overwrite(row, record), keyColumns) == KeyOf(record, keyColumns)
  {
    var written := Overwrite(row, record);
    KeyOfColumns(row, keyColumns);
    KeyOfColumns(record, keyColumns);
    KeyOfColumns(written, keyColumns);
    forall i | 0 <= i < |keyColumns|
      ensures KeyOf(written, keyColumns)[i] == KeyOf(record, keyColumns)[i]
    {
      assert KeyOf(row, keyColumns)[i] == KeyOf(record, keyColumns)[i];
    }
  }

  /** A new row given the record's fields has the record's key. */
  lemma OverwriteEmptyKey(record: Fields, keyColumns: seq<string>)
    ensures KeyOf(Overwrite(map[], record), keyColumns) == KeyOf(record, keyColumns)
  {
    assert Overwrite(map[], record) == record;
  }

  /** `add` keeps every row filed under its own key. */
  lemma AddKeepsConsistent(index: map<Key, Fields>, keyColumns: seq<string>, record: Fields, create: bool)
    requires Consistent(index, keyColumns)
    requires AddSpec(index, keyColumns, record, create).Success?
    ensures Consistent(AddSpec(index, keyColumns, record, create).value.index, keyColumns)
  {
    var key := KeyOf(record, keyColumns);
    var after := AddSpec(index, keyColumns, record, create).value.index;
    var row := if key in index then index[key] else map[];
    var written := Overwrite(row, record);
    if key in index {
      OverwriteKeepsKey(row, record, keyColumns);
    } else {
      OverwriteEmptyKey(record, keyColumns);
    }
    forall k | k in after
      ensures KeyOf(after[k], keyColumns) == k
    {
      if k == key && after != index {
        assert after[k] == written;
      }
    }
  }

  /** Re-scraping: the same record added twice reports no change the second
      time and leaves the index as the first call left it. */
  lemma AddTwice(index: map<Key, Fields>, keyColumns: seq<string>, record: Fields, create: bool)
    requires AddSpec(index, keyColumns, record, create).Success?
    ensures var first := AddSpec(index, keyColumns, record, create).value;
      AddSpec(first.index, keyColumns, record, create) == Success(Step(first.index, false, false))
  {
    var key := KeyOf(record, keyColumns);
    var first := AddSpec(index, keyColumns, record, create).value;
    assert key in first.index;
    assert forall k | k in record :: Get(first.index[key], k) == record[k];
  }

  /** With `create` false the index never gains a key. */
  lemma AddWithoutCreateKeepsKeys(index: map<Key, Fields>, keyColumns: seq<string>, record: Fields)
    requires AddSpec(index, keyColumns, record, false).Success?
    ensures AddSpec(index, keyColumns, record, false).value.index.Keys == index.Keys
  {
  }

  /** The summary `process` logs: rows created, updated and found ok. */
  datatype Counts = Counts(created: nat, updated: nat, ok: nat)


  /** The counter one `add` increments. */
  function Tally(c: Counts, isNew: bool, isChanged: bool): (r: Counts)
    ensures r.created == c.created + (if isNew then 1 else 0)
    ensures r.updated == c.updated + (if !isNew && isChanged then 1 else 0)
    ensures r.ok == c.ok + (if !isNew && !isChanged then 1 else 0)
    ensures r.created + r.updated + r.ok == c.created + c.updated + c.ok + 1
  {
    if isNew then c.(created := c.created + 1)
    else if isChanged then c.(updated := c.updated + 1)
    else c.(ok := c.ok + 1)
  }

  /** The state of a batch after some records: the index, the counters, how
      many adds succeeded, and the error that stopped it, if any. */
  datatype Run = Run(index: map<Key, Fields>, counts: Counts, done: nat, error: Option<PatchError>)

  /** The counters add up to the adds that succeeded. */
  predicate Balanced(run: Run)
  {
    run.counts.created + run.counts.updated + run.counts.ok == run.done
  }

  /** One `add` within a batch: a batch that has already failed stays as it
      is; otherwise the record is added and its counter incremented, or the
      error is recorded. */
  function Advance(run: Run, keyColumns: seq<string>, record: Fields, create: bool): (r: Run)
    ensures r.done == if run.error.None? && r.error.None? then run.done + 1 else run.done
    ensures Balanced(run) ==> Balanced(r)
  {
    if run.error.Some? then run
    else match AddSpec(run.index, keyColumns, record, create)
      case Failure(e) => run.(error := Some(e))
      case Success(step) => Run(step.index, Tally(run.counts, step.isNew, step.isChanged), run.done + 1, None)
  }

  /** One `add` of a batch that has not failed, spelled out. */
  lemma AdvanceStep(run: Run, keyColumns: seq<string>, record: Fields, create: bool)
    requires run.error.None?
    ensures var spec := AddSpec(run.index, keyColumns, record, create);
      && (spec.Success? ==>
            Advance(run, keyColumns, record, create)
            == Run(spec.value.index, Tally(run.counts, spec.value.isNew, spec.value.isChanged), run.done + 1, None))
      && (spec.Failure? ==> Advance(run, keyColumns, record, create) == run.(error := Some(spec.error)))
  {
  }

  /** The records of a batch, in order, from a given state. */
  function ReplayFrom(run: Run, keyColumns: seq<string>, data: seq<Fields>, create: bool): (r: Run)
    decreases |data|
  {
    if data == [] then run
    else ReplayFrom(Advance(run, keyColumns, data[0], create), keyColumns, data[1..], create)
  }

  /** Replaying from position `i` is one `add` of record `i`, then the
      replay from `i + 1`. */
  lemma ReplayFromStep(run: Run, keyColumns: seq<string>, data: seq<Fields>, i: nat, create: bool)
    requires i < |data|
    ensures ReplayFrom(run, keyColumns, data[i..], create)
            == ReplayFrom(Advance(run, keyColumns, data[i], create), keyColumns, data[i + 1..], create)
  {
    assert data[i..][0] == data[i] && data[i..][1..] == data[i + 1..];
  }

  /** `update(data, create)`: every record through `add`, starting from the
      patcher's index with zero counters, stopping at the first error. Its
      summary adds up: created + updated + found ok is the number of records
      processed, and that is all of them when nothing failed. */
  function Replay(index: map<Key, Fields>, keyColumns: seq<string>, data: seq<Fields>, create: bool): (r: Run)
    ensures r.counts.created + r.counts.updated + r.counts.ok == r.done <= |data|
    ensures r.error.None? ==> r.done == |data|
  {
    var start := Run(index, Counts(0, 0, 0), 0, None);
    ReplayFromBalanced(start, keyColumns, data, create);
    ReplayFromDone(start, keyColumns, data, create);
    ReplayFrom(start, keyColumns, data, create)
  }

  /** A batch processes every record unless one fails; a failure ends it with
      the adds that succeeded before. */
  lemma {:induction false} ReplayFromDone(run: Run, keyColumns: seq<string>, data: seq<Fields>, create: bool)
    ensures var r := ReplayFrom(run, keyColumns, data, create);
      && run.done <= r.done <= run.done + |data|
      && (run.error.None? && r.error.None? ==> r.done == run.done + |data|)
      && (run.error.Some? ==> r == run)
    decreases |data|
  {
    if data != [] {
      ReplayFromDone(Advance(run, keyColumns, data[0], create), keyColumns, data[1..], create);
    }
  }

  /** Each successful `add` lands in exactly one counter, so the three
      counters add up to the number of records processed. */
  lemma {:induction false} ReplayFromBalanced(run: Run, keyColumns: seq<string>, data: seq<Fields>, create: bool)
    requires Balanced(run)
    ensures Balanced(ReplayFrom(run, keyColumns, data, create))
    decreases |data|
  {
    if data != [] {
      ReplayFromBalanced(Advance(run, keyColumns, data[0], create), keyColumns, data[1..], create);
    }
  }

  /** With `create` the batch never stops early. */
  lemma {:induction false} ReplayFromCreateCompletes(run: Run, keyColumns: seq<string>, data: seq<Fields>)
    requires run.error.None?
    ensures ReplayFrom(run, keyColumns, data, true).error.None?
    decreases |data|
  {
    if data != [] {
      ReplayFromCreateCompletes(Advance(run, keyColumns, data[0], true), keyColumns, data[1..]);
    }
  }

  /** The batch never drops an indexed key. */
  lemma {:induction false} ReplayFromKeysGrow(run: Run, keyColumns: seq<string>, data: seq<Fields>, create: bool)
    ensures run.index.Keys <= ReplayFrom(run, keyColumns, data, create).index.Keys
    decreases |data|
  {
    if data != [] {
      ReplayFromKeysGrow(Advance(run, keyColumns, data[0], create), keyColumns, data[1..], create);
    }
  }

  /** The batch keeps the index consistent. */
  lemma {:induction false} ReplayFromKeepsConsistent(run: Run, keyColumns: seq<string>, data: seq<Fields>, create: bool)
    requires Consistent(run.index, keyColumns)
    ensures Consistent(ReplayFrom(run, keyColumns, data, create).index, keyColumns)
    decreases |data|
  {
    if data != [] {
      if run.error.None? && AddSpec(run.index, keyColumns, data[0], create).Success? {
        AddKeepsConsistent(run.index, keyColumns, data[0], create);
      }
      ReplayFromKeepsConsistent(Advance(run, keyColumns, data[0], create), keyColumns, data[1..], create);
    }
  }

  /** The worked batch: records `{a: 1, n: x}` twice and `{a: 2, n: y}`, on an
      empty table keyed on `a`, give 2 created, 0 updated and 1 found ok. */
  lemma ReplayExample(keys: seq<string>, r1: Fields, r2: Fields)
    requires keys == ["a"]
    requires r1 == map["a" := IntV(1), "n" := StrV("x")]
    requires r2 == map["a" := IntV(2), "n" := StrV("y")]
    ensures var run := Replay(map[], keys, [r1, r1, r2], true);
      run.error.None? && run.counts.created == 2 && run.counts.updated == 0 && run.counts.ok == 1
  {
    var k1 := KeyOf(r1, keys);
    assert k1 != KeyOf(r2, keys) by {
      assert k1[0] == IntV(1) && KeyOf(r2, keys)[0] == IntV(2);
    }
    var s0 := Run(map[], Counts(0, 0, 0), 0, None);
    AddUnseenCreates(map[], keys, r1);
    var s1 := Advance(s0, keys, r1, true);
    assert s1.error.None? && s1.counts == Counts(1, 0, 0) && s1.index.Keys == {k1};
    AddTwice(map[], keys, r1, true);
    var s2 := Advance(s1, keys, r1, true);
    assert s2.error.None? && s2.counts == Counts(1, 0, 1) && s2.index.Keys == {k1};
    AddUnseenCreates(s2.index, keys, r2);
    var s3 := Advance(s2, keys, r2, true);
    assert s3.error.None? && s3.counts == Counts(2, 0, 1);
    assert [r1, r1, r2][1..] == [r1, r2] && [r1, r2][1..] == [r2] && [r2][1..] == [];
    assert ReplayFrom(s2, keys, [r2], true) == ReplayFrom(s3, keys, [], true) == s3;
    assert ReplayFrom(s1, keys, [r1, r2], true) == ReplayFrom(s2, keys, [r2], true);
    assert Replay(map[], keys, [r1, r1, r2], true) == ReplayFrom(s1, keys, [r1, r2], true);
  }
}
