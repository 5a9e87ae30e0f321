/**
 * The transform and load steps run one after the other, as the daily job
 * does, and worked examples of both.
 */
module Pipeline {
  import opened Wrappers
  import opened Normalize
  import opened Cleaner
  import opened Loader

  /**
   * One daily run from the raw rows, with no INSERT failing: the cleaned
   * batch is loaded. When `transform_data` raises, the load task never runs
   * and the table stays as it was, which is the table that loading the
   * (then empty) cleaned batch leaves too.
   */
  function DailyRun(table: Table, raw: seq<Row>): (t: Table)
    ensures t == InsertAll(table, Transform(raw))
  {
    match TransformData(raw)
    case None => table
    case Some(batch) => InsertAll(table, batch)
  }

  /** Re-running the daily job on the same raw file leaves the table as one run left it. */
  lemma DailyRerunIdempotent(table: Table, raw: seq<Row>)
    ensures DailyRun(DailyRun(table, raw), raw) == DailyRun(table, raw)
  {
    InsertAllIdempotent(table, Transform(raw));
  }

  /**
   * After the daily job every table row is either the row that was there
   * before, unchanged, or the finished form of the first surviving raw row
   * with that CustomerID.
   */
  lemma DailyRunContents(table: Table, raw: seq<Row>, id: int)
    requires id in DailyRun(table, raw)
    ensures id in table ==> DailyRun(table, raw)[id] == table[id]
    ensures id !in table ==> exists i ::
      && 0 <= i < |raw| && Survives(raw, i) && raw[i].customerId == id
      && (forall j :: 0 <= j < i && Survives(raw, j) ==> raw[j].customerId != id)
      && DailyRun(table, raw)[id] == Finish(raw[i])
  {
    var out := Transform(raw);
    if id !in table {
      InsertAllNewRow(table, out, id);
      var k :| 0 <= k < |out| && FirstWithId(out, k) && out[k].customerId == id && InsertAll(table, out)[id] == out[k];
      var i := FirstSurvivorWithId(raw, k);
    }
  }

  /**
   * The cleaned row at position k, when it is the first with its
   * CustomerID, is the finished form of a surviving raw row i, and no
   * surviving raw row before i has that CustomerID.
   */
  lemma FirstSurvivorWithId(raw: seq<Row>, k: int) returns (i: int)
    requires 0 <= k < |Transform(raw)| && FirstWithId(Transform(raw), k)
    ensures 0 <= i < |raw| && Survives(raw, i) && Transform(raw)[k] == Finish(raw[i])
    ensures forall j :: 0 <= j < i && Survives(raw, j) ==> raw[j].customerId != raw[i].customerId
  {
    var out := Transform(raw);
    var idx := Survivors(raw, |raw|);
    assert out == Picked(raw, idx) by {
      TransformSelectsSurvivors(raw);
    }
    i := idx[k];
    assert out[k] == Finish(raw[i]);
    forall j | 0 <= j < i && Survives(raw, j)
      ensures raw[j].customerId != raw[i].customerId
    {
      var m := PickedEarlier(raw, idx, k, j);
      assert out[m].customerId != out[k].customerId;
    }
  }

  /** After the daily job the CustomerID of every surviving raw row is in the table. */
  lemma DailyRunStoresSurvivors(table: Table, raw: seq<Row>, i: int)
    requires 0 <= i < |raw| && Survives(raw, i)
    ensures raw[i].customerId in DailyRun(table, raw)
  {
    SurvivorIsCleaned(raw, i);
    var out := Transform(raw);
    var k :| 0 <= k < |out| && out[k] == Finish(raw[i]);
    assert out[k].customerId == raw[i].customerId;
    IdsMembers(out);
  }

  /** A file with no rows makes `transform_data` raise, and the run leaves the table unchanged. */
  lemma EmptyFileRaises(table: Table, raw: seq<Row>)
    requires raw == []
    ensures TransformData(raw) == None
    ensures DailyRun(table, raw) == table
  {
    TransformRaisesExactly(raw);
  }

  // ---------------------------------------------------------------------
  // Worked examples
  // ---------------------------------------------------------------------

  /** " US ", " us ", "us" and "US" all become "United States". */
  lemma CountryExamples(s: string)
    requires s == " US " || s == " us " || s == "us" || s == "US"
    ensures NormalizeCountry(Some(s)) == Some("United States")
  {
    var space, empty, upper, lower := " ", "", "US", "us";
    assert AllSpace(space) && AllSpace(empty);
    assert Lower(upper) == "us" && Lower(lower) == "us";
    if s == " US " {
      UsSpelling(s, space, upper, space);
    } else if s == " us " {
      UsSpelling(s, space, lower, space);
    } else if s == "us" {
      UsSpelling(s, empty, lower, empty);
    } else {
      UsSpelling(s, empty, upper, empty);
    }
  }

  /** Any white-space padding, on either side, around any capitalisation of "us". */
  lemma UsSpelling(s: string, pre: string, word: string, post: string)
    requires AllSpace(pre) && AllSpace(post) && Lower(word) == "us"
    requires s == pre + word + post
    ensures NormalizeCountry(Some(s)) == Some("United States")
  {
    assert "us" in CountryAliases && CountryAliases["us"] == "United States";
    NormalizeCountryPaddedAlias(pre, word, post, "us");
  }

  /** "France" is no alias and is kept as it is. */
  lemma CountryFallbackExample(s: string)
    requires s == "France"
    ensures NormalizeCountry(Some(s)) == Some(s)
  {
    StripUnpadded(s);
    var key := Lower(s);
    assert key[0] == 'f' && |key| == 6;
    LookupByKey(s, key);
  }

  /** "555-123-4567x89" is a valid phone and is cleaned to "555-123-4567". */
  lemma PhoneWithExtensionExample(s: string)
    requires s == "555-123-4567x89"
    ensures IsValidPhone(s)
    ensures StripExtension(s) == "555-123-4567"
  {
    assert MatchesAt(s, 0, 8);
    IsValidPhoneMeaning(s);
    assert NoLineBreak(s, 0, |s|);
    assert forall k :: 0 <= k < 12 ==> !IsMark(s[k]);
    assert IsMark(s[12]);
    assert s[..12] == "555-123-4567";
  }

  /** "12-34" has too few digits and is rejected. */
  lemma ShortPhoneExample(s: string)
    requires s == "12-34"
    ensures !IsValidPhone(s)
  {
  }

  /** "x5551234567" is a valid phone, and everything from its leading "x" on is removed. */
  lemma LeadingMarkExample(s: string)
    requires s == "x5551234567"
    ensures IsValidPhone(s)
    ensures StripExtension(s) == ""
  {
    assert MatchesAt(s, 1, 4);
    IsValidPhoneMeaning(s);
    assert NoLineBreak(s, 0, |s|);
  }

  /**
   * Two clean rows with the same CustomerID and different e-mails both
   * survive cleaning, since the duplicate key includes the e-mail; loading
   * the batch into an empty table stores only the first of them.
   */
  lemma SameIdDifferentEmail(first: Row, second: Row)
    requires Complete(first) && Complete(second)
    requires first.customerId == second.customerId && first.email != second.email
    requires IsPositive(CoerceAmount(first.totalSpent)) && IsPositive(CoerceAmount(second.totalSpent))
    requires IsValidPhone(first.phone.value) && IsValidPhone(second.phone.value)
    ensures Transform([first, second]) == [Finish(first), Finish(second)]
    ensures InsertAll(map[], Transform([first, second])) == map[first.customerId := Finish(first)]
  {
    BothCleaned(first, second);
    InsertAllPair(map[], Finish(first), Finish(second));
  }

  lemma BothCleaned(first: Row, second: Row)
    requires Complete(first) && Complete(second) && first.email != second.email
    requires IsPositive(CoerceAmount(first.totalSpent)) && IsPositive(CoerceAmount(second.totalSpent))
    requires IsValidPhone(first.phone.value) && IsValidPhone(second.phone.value)
    ensures Transform([first, second]) == [Finish(first), Finish(second)]
  {
    BothSurvive(first, second);
    CleanedPair([first, second]);
  }

  lemma CleanedPair(raw: seq<Row>)
    requires |raw| == 2 && Survivors(raw, 2) == [0, 1]
    ensures Transform(raw) == [Finish(raw[0]), Finish(raw[1])]
  {
    TransformSelectsSurvivors(raw);
    PickedPair(raw, Survivors(raw, |raw|));
  }

  lemma PickedPair(raw: seq<Row>, idx: seq<nat>)
    requires |raw| == 2 && idx == [0, 1]
    ensures Picked(raw, idx) == [Finish(raw[0]), Finish(raw[1])]
  {
    var out := Picked(raw, idx);
    assert out[0] == Finish(raw[0]) && out[1] == Finish(raw[1]);
  }

  lemma BothSurvive(first: Row, second: Row)
    requires Complete(first) && Complete(second) && first.email != second.email
    requires IsPositive(CoerceAmount(first.totalSpent)) && IsPositive(CoerceAmount(second.totalSpent))
    requires IsValidPhone(first.phone.value) && IsValidPhone(second.phone.value)
    ensures Survivors([first, second], 2) == [0, 1]
  {
    var raw := [first, second];
    assert raw[0] == first && raw[1] == second;
    assert Survives(raw, 0) && FirstOfKey(raw, 1);
    TwoSurvivors(raw);
  }

  lemma TwoSurvivors(raw: seq<Row>)
    requires |raw| == 2 && Survives(raw, 0) && Survives(raw, 1)
    ensures Survivors(raw, 2) == [0, 1]
  {
    assert Survivors(raw, 1) == [0];
  }

  lemma InsertAllPair(table: Table, a: Row, b: Row)
    ensures InsertAll(table, [a, b]) == InsertIgnore(InsertIgnore(table, a), b)
  {
    assert [a][..0] == [];
    assert InsertAll(table, [a]) == InsertIgnore(table, a);
    assert [a, b][..1] == [a];
  }

  /** Amounts "-50.5" and "30" on two such rows are cleaned to 50.5 and 30. */
  lemma SameIdAmounts(first: Row, second: Row)
    requires first == Row(1, Some("Ann"), Some("Lee"), Some("ann@example.com"), Some("555-123-4567"), None, Numeric(-50.5))
    requires second == Row(1, Some("Ann"), Some("Lee"), Some("lee@example.com"), Some("555-123-4567"), None, Numeric(30.0))
    ensures var out := Transform([first, second]);
      |out| == 2 && out[0].totalSpent == Numeric(50.5) && out[1].totalSpent == Numeric(30.0)
  {
    var p := first.phone.value;
    assert MatchesAt(p, 0, 8);
    IsValidPhoneMeaning(p);
    SameIdDifferentEmail(first, second);
  }
}
