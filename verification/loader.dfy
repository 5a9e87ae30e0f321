/**
 * The row-insert loop of `load_data`: every cleaned row is executed as
 * `INSERT ... ON CONFLICT (CustomerID) DO NOTHING` inside one transaction,
 * committed once after the loop.
 */
module Loader {
  import opened Wrappers
  import opened Cleaner

  /** The `customer_data` table, keyed by its primary key CustomerID. */
  type Table = map<int, Row>

  /** One INSERT ... ON CONFLICT (CustomerID) DO NOTHING. */
  function InsertIgnore(table: Table, r: Row): (t: Table)
    ensures t.Keys == table.Keys + {r.customerId}
    ensures forall id :: id in table ==> t[id] == table[id]
    ensures r.customerId !in table ==> t[r.customerId] == r
  {
    if r.customerId in table then table else table[r.customerId := r]
  }

  /**
   * The table as the transaction sees it after inserting the rows of batch,
   * in order: the old keys plus the batch's CustomerIDs, and a row that was
   * already stored is never replaced.
   */
  function InsertAll(table: Table, batch: seq<Row>): (t: Table)
    ensures t.Keys == table.Keys + Ids(batch)
    ensures forall id :: id in table ==> t[id] == table[id]
    decreases |batch|
  {
    if batch == [] then table
    else InsertIgnore(InsertAll(table, batch[..|batch| - 1]), batch[|batch| - 1])
  }

  /** The CustomerIDs a batch carries. */
  function Ids(batch: seq<Row>): set<int>
    decreases |batch|
  {
    if batch == [] then {} else Ids(batch[..|batch| - 1]) + {batch[|batch| - 1].customerId}
  }

  /** Row i is the first in the batch with its CustomerID. */
  predicate FirstWithId(batch: seq<Row>, i: int)
    requires 0 <= i < |batch|
  {
    forall j :: 0 <= j < i ==> batch[j].customerId != batch[i].customerId
  }

  /** How one run of the loader ends. */
  datatype LoadOutcome =
    | Committed(table: Table)     // every INSERT ran and conn.commit() made the result durable
    | RolledBack(failedRow: nat)  // the INSERT for this row raised; nothing was committed

  /**
   * `load_data`'s loop and commit. `fails(i)` says whether the database
   * raises on the i-th INSERT of this run (a value too long for its column,
   * a lost connection); the exception leaves the loop before the commit,
   * so the stored table is untouched.
   */
  method Load(table: Table, batch: seq<Row>, fails: nat -> bool) returns (outcome: LoadOutcome)
    ensures outcome.Committed? <==> forall i :: 0 <= i < |batch| ==> !fails(i)
    ensures outcome.RolledBack? ==>
      && outcome.failedRow < |batch|
      && fails(outcome.failedRow)
      && forall i :: 0 <= i < outcome.failedRow ==> !fails(i)
    ensures outcome.Committed? ==> outcome.table == InsertAll(table, batch)
  {
    var pending := table;
    for i := 0 to |batch|
      invariant pending == InsertAll(table, batch[..i])
      invariant forall k :: 0 <= k < i ==> !fails(k)
    {
      if fails(i) {
        return RolledBack(i);
      }
      assert batch[..i + 1][..i] == batch[..i];
      pending := InsertIgnore(pending, batch[i]);
    }
    assert batch[..|batch|] == batch;
    return Committed(pending);
  }

  // ---------------------------------------------------------------------
  // Properties of insert-if-absent
  // ---------------------------------------------------------------------

  /** Ids holds exactly the CustomerIDs of the batch's rows. */
  lemma {:induction false} IdsMembers(batch: seq<Row>)
    ensures forall i :: 0 <= i < |batch| ==> batch[i].customerId in Ids(batch)
    ensures forall id :: id in Ids(batch) ==> exists i :: 0 <= i < |batch| && batch[i].customerId == id
    decreases |batch|
  {
    if batch != [] {
      var init := batch[..|batch| - 1];
      IdsMembers(init);
      assert forall i :: 0 <= i < |init| ==> batch[i] == init[i];
    }
  }

  /** Loading a batch with one more row inserts that row into what the batch left. */
  lemma InsertAllSnoc(table: Table, batch: seq<Row>, x: Row)
    ensures InsertAll(table, batch + [x]) == InsertIgnore(InsertAll(table, batch), x)
  {
    assert (batch + [x])[..|batch|] == batch;
  }

  /** A CustomerID new to the table receives the first batch row that carries it. */
  lemma {:induction false} InsertAllFirstWins(table: Table, batch: seq<Row>, i: int)
    requires 0 <= i < |batch| && FirstWithId(batch, i) && batch[i].customerId !in table
    ensures batch[i].customerId in InsertAll(table, batch)
      && InsertAll(table, batch)[batch[i].customerId] == batch[i]
    decreases |batch|
  {
    var n := |batch| - 1;
    var init, x := batch[..n], batch[n];
    assert batch == init + [x];
    InsertAllSnoc(table, init, x);
    if i < n {
      assert FirstWithId(init, i);
      InsertAllFirstWins(table, init, i);
    } else {
      IdsMembers(init);
      assert forall j :: 0 <= j < n ==> init[j] == batch[j];
      assert x.customerId !in Ids(init);
    }
  }

  /** A CustomerID the batch carries has a first row in the batch. */
  lemma {:induction false} FirstRowWithId(batch: seq<Row>, id: int)
    requires id in Ids(batch)
    ensures exists i :: 0 <= i < |batch| && FirstWithId(batch, i) && batch[i].customerId == id
    decreases |batch|
  {
    var n := |batch| - 1;
    var init, x := batch[..n], batch[n];
    assert forall j :: 0 <= j < n ==> batch[j] == init[j];
    if id in Ids(init) {
      FirstRowWithId(init, id);
      var i :| 0 <= i < |init| && FirstWithId(init, i) && init[i].customerId == id;
      assert FirstWithId(batch, i);
    } else {
      IdsMembers(init);
      assert x.customerId == id;
      assert FirstWithId(batch, n);
    }
  }

  /** A CustomerID the load adds to the table holds the first batch row that carries it. */
  lemma InsertAllNewRow(table: Table, batch: seq<Row>, id: int)
    requires id in InsertAll(table, batch) && id !in table
    ensures exists i ::
      && 0 <= i < |batch| && FirstWithId(batch, i) && batch[i].customerId == id
      && InsertAll(table, batch)[id] == batch[i]
  {
    FirstRowWithId(batch, id);
    var i :| 0 <= i < |batch| && FirstWithId(batch, i) && batch[i].customerId == id;
    InsertAllFirstWins(table, batch, i);
  }

  /** Loading rows whose CustomerIDs are all present changes nothing. */
  lemma {:induction false} InsertAllPresent(table: Table, batch: seq<Row>)
    requires forall i :: 0 <= i < |batch| ==> batch[i].customerId in table
    ensures InsertAll(table, batch) == table
    decreases |batch|
  {
    if batch != [] {
      InsertAllPresent(table, batch[..|batch| - 1]);
    }
  }

  /** Loading the same batch a second time leaves the table unchanged. */
  lemma InsertAllIdempotent(table: Table, batch: seq<Row>)
    ensures InsertAll(InsertAll(table, batch), batch) == InsertAll(table, batch)
  {
    IdsMembers(batch);
    InsertAllPresent(InsertAll(table, batch), batch);
  }

  /** The rows of batch whose CustomerIDs the table does not hold yet. */
  function NewRows(table: Table, batch: seq<Row>): (r: seq<Row>)
    ensures forall x :: x in r <==> x in batch && x.customerId !in table
    decreases |batch|
  {
    if batch == [] then []
    else
      var init, x := batch[..|batch| - 1], batch[|batch| - 1];
      assert batch == init + [x];
      NewRows(table, init) + (if x.customerId in table then [] else [x])
  }

  /** Rows whose CustomerIDs were loaded before might as well have been left out of the batch. */
  lemma {:induction false} InsertAllSkipsLoaded(table: Table, batch: seq<Row>)
    ensures InsertAll(table, batch) == InsertAll(table, NewRows(table, batch))
    decreases |batch|
  {
    if batch != [] {
      var init, x := batch[..|batch| - 1], batch[|batch| - 1];
      InsertAllSkipsLoaded(table, init);
      assert batch == init + [x];
      InsertAllSnoc(table, init, x);
      if x.customerId in table {
        SkipLoadedRow(table, init, x);
      } else {
        var before := NewRows(table, init);
        assert NewRows(table, batch) == before + [x];
        InsertAllSnoc(table, before, x);
      }
    }
  }

  /** A row whose CustomerID the table held before the batch is a no-op, wherever it stands. */
  lemma SkipLoadedRow(table: Table, init: seq<Row>, x: Row)
    requires x.customerId in table
    ensures InsertIgnore(InsertAll(table, init), x) == InsertAll(table, init)
    ensures NewRows(table, init + [x]) == NewRows(table, init)
  {
    var b := init + [x];
    assert b[..|b| - 1] == init;
  }
}
