/**
 * The batch cleaning of `transform_data`: a fixed sequence of whole-batch
 * filters and per-row maps over the customer rows read from the raw file.
 */
module Cleaner {
  import opened Wrappers
  import opened Normalize

  /** One customer row; a cell that pandas reads as NaN is None. */
  datatype Row = Row(
    customerId: int,
    firstName: Option<string>,
    lastName: Option<string>,
    email: Option<string>,
    phone: Option<string>,
    country: Option<string>,
    totalSpent: AmountCell)

  /** `dropna(subset=['FirstName', 'LastName', 'Email', 'Phone'])` keeps a row when this holds. */
  predicate Complete(r: Row) {
    r.firstName.Some? && r.lastName.Some? && r.email.Some? && r.phone.Some?
  }

  /** The de-duplication key (CustomerID, Email). */
  function KeyOf(r: Row): (int, Option<string>) {
    (r.customerId, r.email)
  }

  // ---------------------------------------------------------------------
  // Whole-batch building blocks
  // ---------------------------------------------------------------------

  /** Boolean-mask selection `data[mask]`: the rows that satisfy p, in order. */
  function Filter(rows: seq<Row>, p: Row -> bool): (r: seq<Row>)
    ensures |r| <= |rows|
    ensures forall x :: x in r <==> x in rows && p(x)
    decreases |rows|
  {
    if rows == [] then []
    else
      var init := rows[..|rows| - 1];
      assert rows == init + [rows[|rows| - 1]];
      Filter(init, p) + (if p(rows[|rows| - 1]) then [rows[|rows| - 1]] else [])
  }

  /** A column assignment: every row rewritten by f, in order. */
  function MapRows(rows: seq<Row>, f: Row -> Row): (r: seq<Row>)
    ensures |r| == |rows|
    ensures forall k :: 0 <= k < |rows| ==> r[k] == f(rows[k])
  {
    seq(|rows|, k requires 0 <= k < |rows| => f(rows[k]))
  }

  // ---------------------------------------------------------------------
  // The steps of transform_data
  // ---------------------------------------------------------------------

  /** Rows with a missing name, e-mail or phone are dropped. */
  function DropIncomplete(rows: seq<Row>): (r: seq<Row>)
    ensures |r| <= |rows|
    ensures forall x :: x in r <==> x in rows && Complete(x)
  {
    Filter(rows, Complete)
  }

  /** `duplicated(subset=['CustomerID', 'Email'])`: an earlier row has the same key. */
  predicate Duplicated(rows: seq<Row>, i: int)
    requires 0 <= i < |rows|
  {
    exists j :: 0 <= j < i && KeyOf(rows[j]) == KeyOf(rows[i])
  }

  /**
   * `drop_duplicates(subset=['CustomerID', 'Email'])`: the first row of
   * every key is kept. The result holds only input rows, no two of them
   * share a key, and every key of the input is still there.
   */
  function DropDuplicates(rows: seq<Row>): (r: seq<Row>)
    ensures |r| <= |rows|
    ensures forall x :: x in r ==> x in rows
    ensures forall k, m :: 0 <= k < m < |r| ==> KeyOf(r[k]) != KeyOf(r[m])
    ensures forall i :: 0 <= i < |rows| ==> exists k :: 0 <= k < |r| && KeyOf(r[k]) == KeyOf(rows[i])
    decreases |rows|
  {
    if rows == [] then []
    else
      var n := |rows| - 1;
      var init := rows[..n];
      var d := DropDuplicates(init);
      assert forall x :: x in d ==> x in rows by {
        assert forall x :: x in init ==> x in rows;
      }
      assert forall i :: 0 <= i < n ==> rows[i] == init[i];
      if Duplicated(rows, n) then
        d
      else
        assert forall k :: 0 <= k < |d| ==> KeyOf(d[k]) != KeyOf(rows[n]) by {
          forall k | 0 <= k < |d|
            ensures KeyOf(d[k]) != KeyOf(rows[n])
          {
            assert d[k] in init;
          }
        }
        var r := d + [rows[n]];
        assert r[|d|] == rows[n];
        assert forall i :: 0 <= i < n ==> exists k :: 0 <= k < |r| && KeyOf(r[k]) == KeyOf(rows[i]) by {
          forall i | 0 <= i < n
            ensures exists k :: 0 <= k < |r| && KeyOf(r[k]) == KeyOf(rows[i])
          {
            var k :| 0 <= k < |d| && KeyOf(d[k]) == KeyOf(init[i]);
            assert r[k] == d[k];
          }
        }
        r
  }

  function WithCountry(r: Row): Row {
    r.(country := NormalizeCountry(r.country))
  }

  function WithAmount(r: Row): Row {
    r.(totalSpent := CoerceAmount(r.totalSpent))
  }

  predicate HasPositiveAmount(r: Row) {
    IsPositive(r.totalSpent)
  }

  /** `is_valid_phone` on the row's phone; str(NaN) is "nan", which never matches. */
  predicate HasValidPhone(r: Row) {
    r.phone.Some? && IsValidPhone(r.phone.value)
  }

  /**
   * The phone clean-up on a cell: a present phone loses its extension. A
   * missing phone cannot reach it, since incomplete rows were dropped first.
   */
  function StripPhone(phone: Option<string>): (r: Option<string>)
    ensures r.Some? <==> phone.Some?
    ensures r.Some? ==> r.value == StripExtension(phone.value) && |r.value| <= |phone.value|
  {
    match phone
    case None => None
    case Some(p) => Some(StripExtension(p))
  }

  function WithStrippedPhone(r: Row): Row {
    r.(phone := StripPhone(r.phone))
  }

  /** The rows that reach the phone filter at line 45: country mapped, amount coerced and positive. */
  function Priced(unique: seq<Row>): seq<Row> {
    Filter(MapRows(MapRows(unique, WithCountry), WithAmount), HasPositiveAmount)
  }

  /** The steps after de-duplication, in source order; each treats every row on its own. */
  function AfterDedup(unique: seq<Row>): (r: seq<Row>)
    ensures |r| <= |unique|
  {
    var reachable := Filter(Priced(unique), HasValidPhone);
    MapRows(reachable, WithStrippedPhone)
  }

  /** The steps after de-duplication keep complete rows complete and leave only positive amounts. */
  lemma AfterDedupClean(unique: seq<Row>)
    requires forall x :: x in unique ==> Complete(x)
    ensures forall x :: x in AfterDedup(unique) ==> Complete(x) && x.totalSpent.Numeric? && x.totalSpent.value > 0.0
  {
    var named := MapRows(unique, WithCountry);
    var coerced := MapRows(named, WithAmount);
    var spent := Filter(coerced, HasPositiveAmount);
    var reachable := Filter(spent, HasValidPhone);
    assert forall k :: 0 <= k < |coerced| ==> Complete(coerced[k]) by {
      forall k | 0 <= k < |coerced|
        ensures Complete(coerced[k])
      {
        assert unique[k] in unique;
      }
    }
    assert forall x :: x in reachable ==> Complete(x) && HasPositiveAmount(x);
    var r := MapRows(reachable, WithStrippedPhone);
    forall x | x in r
      ensures Complete(x) && x.totalSpent.Numeric? && x.totalSpent.value > 0.0
    {
      var k :| 0 <= k < |r| && r[k] == x;
      assert reachable[k] in reachable;
    }
  }

  /**
   * `transform_data` without its file reads and writes: dropna, then
   * drop_duplicates, then the steps of AfterDedup. Every cleaned row has its names, e-mail and phone (the country
   * may still be missing) and an amount that is a number greater than zero.
   */
  function Transform(raw: seq<Row>): (r: seq<Row>)
    ensures |r| <= |raw|
    ensures forall x :: x in r ==> Complete(x) && x.totalSpent.Numeric? && x.totalSpent.value > 0.0
  {
    var complete := DropIncomplete(raw);
    var unique := DropDuplicates(complete);
    AfterDedupClean(unique);
    AfterDedup(unique)
  }

  /**
   * `transform_data` as it runs. When no row reaches the phone filter at
   * line 45, `apply` returns an empty mask of object type, which pandas
   * reads as a list of column labels; the frame then has no columns and
   * `data['Phone']` at line 48 raises KeyError, so the task fails (None)
   * and writes no cleaned file. Otherwise the result is the cleaned batch.
   * A failing run would have produced no rows anyway.
   */
  function TransformData(raw: seq<Row>): (r: Option<seq<Row>>)
    ensures r.Some? ==> r.value == Transform(raw)
    ensures r.None? ==> Transform(raw) == []
  {
    var unique := DropDuplicates(DropIncomplete(raw));
    if Priced(unique) == [] then None else Some(Transform(raw))
  }

  // ---------------------------------------------------------------------
  // Reference description: which input rows survive, and what they become
  // ---------------------------------------------------------------------

  /** No earlier complete row has the same (CustomerID, Email). */
  predicate FirstOfKey(rows: seq<Row>, i: int)
    requires 0 <= i < |rows|
  {
    forall j :: 0 <= j < i && Complete(rows[j]) ==> KeyOf(rows[j]) != KeyOf(rows[i])
  }

  /**
   * Input row i reaches the output: it is complete, it is the first complete
   * row with its key, its amount coerces to a positive number and its raw
   * phone matches the pattern. The filters after de-duplication never give
   * a later duplicate a second chance.
   */
  predicate Survives(rows: seq<Row>, i: int)
    requires 0 <= i < |rows|
  {
    && Complete(rows[i])
    && FirstOfKey(rows, i)
    && IsPositive(CoerceAmount(rows[i].totalSpent))
    && IsValidPhone(rows[i].phone.value)
  }

  /** Input row i reaches the phone filter: it passes every step before line 45. */
  predicate ReachesPhoneCheck(rows: seq<Row>, i: int)
    requires 0 <= i < |rows|
  {
    && Complete(rows[i])
    && FirstOfKey(rows, i)
    && IsPositive(CoerceAmount(rows[i].totalSpent))
  }

  /** What a surviving row becomes: country mapped, amount coerced, extension removed. */
  function Finish(r: Row): (c: Row)
    ensures KeyOf(c) == KeyOf(r)
    ensures c.firstName == r.firstName && c.lastName == r.lastName
  {
    r.(country := NormalizeCountry(r.country),
       totalSpent := CoerceAmount(r.totalSpent),
       phone := StripPhone(r.phone))
  }

  /** The positions below n of the surviving rows, in increasing order. */
  function Survivors(rows: seq<Row>, n: nat): (idx: seq<nat>)
    requires n <= |rows|
    ensures |idx| <= n
    ensures forall k :: 0 <= k < |idx| ==> idx[k] < n && Survives(rows, idx[k])
    ensures forall k, m :: 0 <= k < m < |idx| ==> idx[k] < idx[m]
    ensures forall i :: 0 <= i < n && Survives(rows, i) ==> i in idx
  {
    if n == 0 then []
    else Survivors(rows, n - 1) + (if Survives(rows, n - 1) then [n - 1] else [])
  }

  /** The finished rows at the given positions. */
  function Picked(rows: seq<Row>, idx: seq<nat>): (r: seq<Row>)
    requires forall k :: 0 <= k < |idx| ==> idx[k] < |rows|
    ensures |r| == |idx|
  {
    seq(|idx|, k requires 0 <= k < |idx| => Finish(rows[idx[k]]))
  }

  /** x is the finished form of a surviving row of rows. */
  ghost predicate IsFinishedSurvivor(rows: seq<Row>, x: Row) {
    exists i :: 0 <= i < |rows| && Survives(rows, i) && x == Finish(rows[i])
  }

  /** Picking the surviving positions gives exactly the finished surviving rows. */
  lemma PickedSurvivors(rows: seq<Row>)
    ensures forall x :: x in Picked(rows, Survivors(rows, |rows|)) ==> IsFinishedSurvivor(rows, x)
    ensures forall i :: 0 <= i < |rows| && Survives(rows, i) ==> Finish(rows[i]) in Picked(rows, Survivors(rows, |rows|))
  {
    var idx := Survivors(rows, |rows|);
    PickedOnlySurvivors(rows, idx);
    PickedEverySurvivor(rows, idx);
  }

  lemma PickedOnlySurvivors(rows: seq<Row>, idx: seq<nat>)
    requires forall k :: 0 <= k < |idx| ==> idx[k] < |rows| && Survives(rows, idx[k])
    ensures forall x :: x in Picked(rows, idx) ==> IsFinishedSurvivor(rows, x)
  {
    var r := Picked(rows, idx);
    forall x | x in r
      ensures IsFinishedSurvivor(rows, x)
    {
      var k :| 0 <= k < |r| && r[k] == x;
      var i := idx[k];
      assert 0 <= i < |rows| && Survives(rows, i) && x == Finish(rows[i]);
    }
  }

  lemma PickedEverySurvivor(rows: seq<Row>, idx: seq<nat>)
    requires forall k :: 0 <= k < |idx| ==> idx[k] < |rows|
    requires forall i :: 0 <= i < |rows| && Survives(rows, i) ==> i in idx
    ensures forall i :: 0 <= i < |rows| && Survives(rows, i) ==> Finish(rows[i]) in Picked(rows, idx)
  {
    var r := Picked(rows, idx);
    forall i | 0 <= i < |rows| && Survives(rows, i)
      ensures Finish(rows[i]) in r
    {
      var k :| 0 <= k < |idx| && idx[k] == i;
      assert r[k] == Finish(rows[i]);
    }
  }

  /**
   * The cleaned batch as the reference describes it: the finished forms of
   * the surviving rows, in input order. Every row it holds is the finished
   * form of a surviving row, and every surviving row is represented.
   */
  function Selected(rows: seq<Row>): (r: seq<Row>)
    ensures |r| <= |rows|
    ensures forall x :: x in r ==> IsFinishedSurvivor(rows, x)
    ensures forall i :: 0 <= i < |rows| && Survives(rows, i) ==> Finish(rows[i]) in r
  {
    PickedSurvivors(rows);
    Picked(rows, Survivors(rows, |rows|))
  }

  // ---------------------------------------------------------------------
  // The pipeline selects exactly the surviving rows
  // ---------------------------------------------------------------------

  lemma FilterSnoc(rows: seq<Row>, x: Row, p: Row -> bool)
    ensures Filter(rows + [x], p) == Filter(rows, p) + (if p(x) then [x] else [])
  {
    assert (rows + [x])[..|rows|] == rows;
  }

  lemma MapRowsSnoc(rows: seq<Row>, x: Row, f: Row -> Row)
    ensures MapRows(rows + [x], f) == MapRows(rows, f) + [f(x)]
  {
  }

  /** Appending a row to the de-duplicated batch appends at most its coerced form to the rows reaching line 45. */
  lemma PricedSnoc(unique: seq<Row>, x: Row)
    ensures Priced(unique + [x]) ==
      Priced(unique) + (if IsPositive(CoerceAmount(x.totalSpent)) then [WithAmount(WithCountry(x))] else [])
  {
    var named := MapRows(unique, WithCountry);
    var coerced := MapRows(named, WithAmount);
    MapRowsSnoc(unique, x, WithCountry);
    MapRowsSnoc(named, WithCountry(x), WithAmount);
    FilterSnoc(coerced, WithAmount(WithCountry(x)), HasPositiveAmount);
  }

  /** Appending a row to the de-duplicated batch appends at most its finished form. */
  lemma AfterDedupSnoc(unique: seq<Row>, x: Row)
    ensures AfterDedup(unique + [x]) ==
      AfterDedup(unique) +
      (if IsPositive(CoerceAmount(x.totalSpent)) && HasValidPhone(x) then [Finish(x)] else [])
  {
    var x2 := WithAmount(WithCountry(x));
    var spent := Priced(unique);
    var reachable := Filter(spent, HasValidPhone);
    PricedSnoc(unique, x);
    assert HasValidPhone(x2) == HasValidPhone(x) by {
      assert x2.phone == x.phone;
    }
    if IsPositive(CoerceAmount(x.totalSpent)) {
      FilterSnoc(spent, x2, HasValidPhone);
      if HasValidPhone(x2) {
        MapRowsSnoc(reachable, x2, WithStrippedPhone);
        assert WithStrippedPhone(x2) == Finish(x);
      } else {
        assert reachable + [] == reachable;
      }
    } else {
      assert spent + [] == spent;
    }
  }

  /** The complete rows of a prefix grow by row n exactly when it is complete. */
  lemma IncompleteSnoc(raw: seq<Row>, n: nat)
    requires n < |raw|
    ensures DropIncomplete(raw[..n + 1]) ==
      DropIncomplete(raw[..n]) + (if Complete(raw[n]) then [raw[n]] else [])
  {
    assert raw[..n + 1] == raw[..n] + [raw[n]];
    FilterSnoc(raw[..n], raw[n], Complete);
  }

  /** Among the complete rows of a prefix, x has an earlier duplicate exactly when it is not first of its key. */
  lemma DuplicatedAmongComplete(raw: seq<Row>, n: nat)
    requires n < |raw|
    ensures var d := DropIncomplete(raw[..n]);
      Duplicated(d + [raw[n]], |d|) <==> !FirstOfKey(raw, n)
  {
    var x := raw[n];
    var d := DropIncomplete(raw[..n]);
    var dx := d + [x];
    if Duplicated(dx, |d|) {
      var j :| 0 <= j < |d| && KeyOf(dx[j]) == KeyOf(x);
      assert d[j] in d;
      var j' :| 0 <= j' < n && raw[..n][j'] == d[j];
      assert Complete(raw[j']) && KeyOf(raw[j']) == KeyOf(x);
    }
    if !FirstOfKey(raw, n) {
      var j :| 0 <= j < n && Complete(raw[j]) && KeyOf(raw[j]) == KeyOf(x);
      assert raw[..n][j] == raw[j];
      assert raw[j] in d;
      var j' :| 0 <= j' < |d| && d[j'] == raw[j];
      assert dx[j'] == d[j'];
    }
  }

  /** The de-duplicated complete rows of a prefix grow by row n exactly when it is complete and first of its key. */
  lemma DedupSnoc(raw: seq<Row>, n: nat)
    requires n < |raw|
    ensures DropDuplicates(DropIncomplete(raw[..n + 1])) ==
      DropDuplicates(DropIncomplete(raw[..n])) +
      (if Complete(raw[n]) && FirstOfKey(raw, n) then [raw[n]] else [])
  {
    var x := raw[n];
    var d := DropIncomplete(raw[..n]);
    IncompleteSnoc(raw, n);
    if Complete(x) {
      var dx := d + [x];
      assert dx[..|d|] == d;
      assert DropDuplicates(dx) == DropDuplicates(d) + (if Duplicated(dx, |d|) then [] else [x]);
      DuplicatedAmongComplete(raw, n);
    } else {
      assert d + [] == d;
    }
  }

  lemma PickedSnoc(rows: seq<Row>, idx: seq<nat>, i: nat)
    requires forall k :: 0 <= k < |idx| ==> idx[k] < |rows|
    requires i < |rows|
    ensures Picked(rows, idx + [i]) == Picked(rows, idx) + [Finish(rows[i])]
  {
  }

  lemma {:induction false} TransformPrefix(raw: seq<Row>, n: nat)
    requires n <= |raw|
    ensures AfterDedup(DropDuplicates(DropIncomplete(raw[..n]))) == Picked(raw, Survivors(raw, n))
  {
    if n == 0 {
      assert raw[..0] == [];
    } else {
      var m := n - 1;
      var x := raw[m];
      var u := DropDuplicates(DropIncomplete(raw[..m]));
      var idx := Survivors(raw, m);
      var tail := if Survives(raw, m) then [Finish(x)] else [];
      TransformPrefix(raw, m);
      assert AfterDedup(DropDuplicates(DropIncomplete(raw[..n]))) == AfterDedup(u) + tail by {
        DedupSnoc(raw, m);
        var keep := Complete(x) && FirstOfKey(raw, m);
        AfterDedupStep(u, x, keep);
        assert Survives(raw, m) <==> keep && IsPositive(CoerceAmount(x.totalSpent)) && HasValidPhone(x);
      }
      assert Picked(raw, Survivors(raw, n)) == Picked(raw, idx) + tail by {
        PickedStep(raw, idx, m, Survives(raw, m));
      }
    }
  }

  /** A step that may append x to the de-duplicated batch appends at most its finished form. */
  lemma AfterDedupStep(u: seq<Row>, x: Row, keep: bool)
    ensures AfterDedup(u + (if keep then [x] else [])) ==
      AfterDedup(u) +
      (if keep && IsPositive(CoerceAmount(x.totalSpent)) && HasValidPhone(x) then [Finish(x)] else [])
  {
    if keep {
      AfterDedupSnoc(u, x);
    } else {
      assert u + [] == u;
    }
  }

  /** A step that may append position i appends at most row i's finished form. */
  lemma PickedStep(rows: seq<Row>, idx: seq<nat>, i: nat, add: bool)
    requires forall k :: 0 <= k < |idx| ==> idx[k] < |rows|
    requires i < |rows|
    ensures Picked(rows, idx + (if add then [i] else [])) == Picked(rows, idx) + (if add then [Finish(rows[i])] else [])
  {
    if add {
      PickedSnoc(rows, idx, i);
    } else {
      assert idx + [] == idx;
    }
  }

  /** In a strictly increasing selection, an earlier listed position is picked earlier. */
  lemma PickedEarlier(rows: seq<Row>, idx: seq<nat>, k: int, j: nat) returns (m: int)
    requires forall p :: 0 <= p < |idx| ==> idx[p] < |rows|
    requires forall p, q :: 0 <= p < q < |idx| ==> idx[p] < idx[q]
    requires 0 <= k < |idx| && j < idx[k] && j in idx
    ensures 0 <= m < k && Picked(rows, idx)[m] == Finish(rows[j])
  {
    m :| 0 <= m < |idx| && idx[m] == j;
  }

  /**
   * The cleaning pipeline keeps exactly the surviving input rows, in input
   * order, each with its country mapped, its amount coerced and its
   * extension removed.
   */
  lemma TransformSelectsSurvivors(raw: seq<Row>)
    ensures Transform(raw) == Selected(raw)
  {
    TransformPrefix(raw, |raw|);
    assert raw[..|raw|] == raw;
  }

  /** On every prefix, no row reaches line 45 exactly when no row of the prefix passes the earlier steps. */
  lemma {:induction false} PricedPrefix(raw: seq<Row>, n: nat)
    requires n <= |raw|
    ensures Priced(DropDuplicates(DropIncomplete(raw[..n]))) == [] <==>
      forall i :: 0 <= i < n ==> !ReachesPhoneCheck(raw, i)
  {
    if n == 0 {
      assert raw[..0] == [];
    } else {
      var m := n - 1;
      var x := raw[m];
      var u := DropDuplicates(DropIncomplete(raw[..m]));
      PricedPrefix(raw, m);
      assert Priced(DropDuplicates(DropIncomplete(raw[..n]))) == [] <==>
        Priced(u) == [] && !ReachesPhoneCheck(raw, m) by {
        DedupSnoc(raw, m);
        var keep := Complete(x) && FirstOfKey(raw, m);
        PricedStep(u, x, keep);
        assert ReachesPhoneCheck(raw, m) <==> keep && IsPositive(CoerceAmount(x.totalSpent));
      }
    }
  }

  /** Priced rows stay empty after a step exactly when the step adds no row with a positive amount. */
  lemma PricedStep(u: seq<Row>, x: Row, keep: bool)
    ensures Priced(u + (if keep then [x] else [])) == [] <==>
      Priced(u) == [] && !(keep && IsPositive(CoerceAmount(x.totalSpent)))
  {
    if keep {
      PricedSnoc(u, x);
    } else {
      assert u + [] == u;
    }
  }

  /**
   * `transform_data` raises exactly when no input row is complete, the
   * first complete row of its key and carries a positive amount: an empty
   * file, a file of incomplete rows, or one whose first rows of every key
   * have a missing, unparseable or zero amount.
   */
  lemma TransformRaisesExactly(raw: seq<Row>)
    ensures TransformData(raw).None? <==> forall i :: 0 <= i < |raw| ==> !ReachesPhoneCheck(raw, i)
  {
    PricedPrefix(raw, |raw|);
    assert raw[..|raw|] == raw;
  }

  // ---------------------------------------------------------------------
  // Properties of the cleaned batch
  // ---------------------------------------------------------------------

  /** Every cleaned row comes from a surviving input row, of which it is the finished form. */
  lemma CleanedRowOrigin(raw: seq<Row>, k: int)
    requires 0 <= k < |Transform(raw)|
    ensures exists i :: 0 <= i < |raw| && Survives(raw, i) && Transform(raw)[k] == Finish(raw[i])
  {
    TransformSelectsSurvivors(raw);
    var idx := Survivors(raw, |raw|);
    assert Transform(raw)[k] == Finish(raw[idx[k]]);
  }

  /** Cleaned rows keep the input order: rows from earlier input positions come first. */
  lemma CleanedOrderPreserved(raw: seq<Row>, k: int, m: int)
    requires 0 <= k < m < |Transform(raw)|
    ensures var idx := Survivors(raw, |raw|);
      && |idx| == |Transform(raw)|
      && Transform(raw)[k] == Finish(raw[idx[k]])
      && Transform(raw)[m] == Finish(raw[idx[m]])
      && idx[k] < idx[m]
  {
    TransformSelectsSurvivors(raw);
  }

  /** Two surviving rows never share a (CustomerID, Email) key. */
  lemma SurvivorKeysDistinct(raw: seq<Row>, i: int, j: int)
    requires 0 <= i < j < |raw| && Survives(raw, i) && Survives(raw, j)
    ensures KeyOf(raw[i]) != KeyOf(raw[j])
  {
  }

  /** No two cleaned rows share a (CustomerID, Email) key. */
  lemma CleanedKeysUnique(raw: seq<Row>)
    ensures forall k, m :: 0 <= k < m < |Transform(raw)| ==> KeyOf(Transform(raw)[k]) != KeyOf(Transform(raw)[m])
  {
    TransformSelectsSurvivors(raw);
    var idx := Survivors(raw, |raw|);
    forall k, m | 0 <= k < m < |Transform(raw)|
      ensures KeyOf(Transform(raw)[k]) != KeyOf(Transform(raw)[m])
    {
      SurvivorKeysDistinct(raw, idx[k], idx[m]);
    }
  }

  /** The only surviving row with the key of a first complete row is that row. */
  lemma OnlyFirstOfKeySurvives(raw: seq<Row>, i: int, j: int)
    requires 0 <= i < |raw| && Complete(raw[i]) && FirstOfKey(raw, i)
    requires 0 <= j < |raw| && Survives(raw, j) && KeyOf(raw[j]) == KeyOf(raw[i])
    ensures j == i
  {
  }

  /**
   * For the first complete row with a given (CustomerID, Email): the key
   * appears in the cleaned batch exactly when that row passes the amount and
   * phone filters, and then only as that row's finished form. A later row
   * with the same key never takes its place.
   */
  lemma CleanedKeepsFirstOccurrence(raw: seq<Row>, i: int)
    requires 0 <= i < |raw| && Complete(raw[i]) && FirstOfKey(raw, i)
    ensures (exists k :: 0 <= k < |Transform(raw)| && KeyOf(Transform(raw)[k]) == KeyOf(raw[i])) <==>
      IsPositive(CoerceAmount(raw[i].totalSpent)) && IsValidPhone(raw[i].phone.value)
    ensures forall k :: 0 <= k < |Transform(raw)| && KeyOf(Transform(raw)[k]) == KeyOf(raw[i]) ==>
      Transform(raw)[k] == Finish(raw[i])
  {
    var out := Transform(raw);
    forall k | 0 <= k < |out| && KeyOf(out[k]) == KeyOf(raw[i])
      ensures out[k] == Finish(raw[i])
    {
      CleanedRowOfFirstKey(raw, i, k);
    }
    if Survives(raw, i) {
      SurvivorIsCleaned(raw, i);
      var k :| 0 <= k < |out| && out[k] == Finish(raw[i]);
      assert KeyOf(out[k]) == KeyOf(raw[i]);
    }
    if exists k :: 0 <= k < |out| && KeyOf(out[k]) == KeyOf(raw[i]) {
      var k :| 0 <= k < |out| && KeyOf(out[k]) == KeyOf(raw[i]);
      CleanedRowOfFirstKey(raw, i, k);
    }
  }

  /** A cleaned row with the key of a first complete row is that row, finished, and that row survives. */
  lemma CleanedRowOfFirstKey(raw: seq<Row>, i: int, k: int)
    requires 0 <= i < |raw| && Complete(raw[i]) && FirstOfKey(raw, i)
    requires 0 <= k < |Transform(raw)| && KeyOf(Transform(raw)[k]) == KeyOf(raw[i])
    ensures Transform(raw)[k] == Finish(raw[i]) && Survives(raw, i)
  {
    CleanedRowOrigin(raw, k);
    var j :| 0 <= j < |raw| && Survives(raw, j) && Transform(raw)[k] == Finish(raw[j]);
    OnlyFirstOfKeySurvives(raw, i, j);
  }

  /** Every surviving row is in the cleaned batch, finished. */
  lemma SurvivorIsCleaned(raw: seq<Row>, i: int)
    requires 0 <= i < |raw| && Survives(raw, i)
    ensures Finish(raw[i]) in Transform(raw)
  {
    TransformSelectsSurvivors(raw);
  }
}
