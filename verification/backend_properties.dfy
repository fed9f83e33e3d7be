/** Properties of the backend actions: what each one reads and writes, and
    the invariants the dispatcher keeps across requests. */
module BackendProperties {
  import opened Options
  import opened Sheets
  import opened Seqs
  import opened Backend

  /** Creating the tabs a second time changes nothing. */
  lemma EnsureSheetsIdempotent(b: Book)
    ensures EnsureSheets(EnsureSheets(b)) == EnsureSheets(b)
    ensures Ensured(b) ==> EnsureSheets(b) == b
  {
  }

  lemma VisitRowsAgree(sh: Sheet, m: nat)
    requires m < |sh|
    ensures IsVisitRow(Values(sh)[m]) == IsVisitRow(sh[m])
    ensures CellAt(Values(sh)[m], 1) == CellAt(sh[m], 1)
  {
  }

  /** The `getStats` loop ends with the value of the last `visitCount` row. */
  lemma {:induction false} VisitScanFindsLast(data: seq<Row>, i: nat, acc: int, k: nat)
    requires i <= k < |data| && IsVisitRow(data[k])
    requires forall m :: k < m < |data| ==> !IsVisitRow(data[m])
    ensures VisitScan(data, i, acc) == CountValue(CellAt(data[k], 1))
    decreases |data| - i
  {
    if i < k {
      VisitScanFindsLast(data, i + 1, if IsVisitRow(data[i]) then CountValue(CellAt(data[i], 1)) else acc, k);
    } else {
      VisitScanKeeps(data, k + 1, CountValue(CellAt(data[k], 1)));
    }
  }

  /** With no `visitCount` row ahead the loop keeps what it has. */
  lemma {:induction false} VisitScanKeeps(data: seq<Row>, i: nat, acc: int)
    requires forall m :: i <= m < |data| ==> !IsVisitRow(data[m])
    ensures VisitScan(data, i, acc) == acc
    decreases |data| - i
  {
    if i < |data| {
      VisitScanKeeps(data, i + 1, acc);
    }
  }

  /** `getStats` reports the parsed value of the LAST `visitCount` row below
      the header (the loop does not break), or 0 when there is none. */
  lemma GetStatsReadsLastVisitRow(b: Book)
    ensures var sh := EnsureSheets(b).stats.value;
      var n := GetStats(b).response.data.visitCount;
      && ((forall m :: 1 <= m < |sh| ==> !IsVisitRow(sh[m])) ==> n == 0)
      && (forall k :: 1 <= k < |sh| && IsVisitRow(sh[k]) && (forall m :: k < m < |sh| ==> !IsVisitRow(sh[m]))
            ==> n == CountValue(CellAt(sh[k], 1)))
  {
    var sh := EnsureSheets(b).stats.value;
    var data := Values(sh);
    if forall m :: 1 <= m < |sh| ==> !IsVisitRow(sh[m]) {
      forall m | 1 <= m < |data| ensures !IsVisitRow(data[m]) {
        VisitRowsAgree(sh, m);
      }
      VisitScanKeeps(data, 1, 0);
    }
    forall k | 1 <= k < |sh| && IsVisitRow(sh[k]) && (forall m :: k < m < |sh| ==> !IsVisitRow(sh[m]))
      ensures GetStats(b).response.data.visitCount == CountValue(CellAt(sh[k], 1))
    {
      forall m | k < m < |data| ensures !IsVisitRow(data[m]) {
        VisitRowsAgree(sh, m);
      }
      VisitRowsAgree(sh, k);
      VisitScanFindsLast(data, 1, 0, k);
    }
  }

  /** `incrementVisitCount` with a `visitCount` row below the header: the
      FIRST such row gets its parsed value plus one in column 2, that value
      is returned, and no other cell of either tab changes. */
  lemma IncrementUpdatesFirstVisitRow(b: Book, k: nat)
    requires var sh := EnsureSheets(b).stats.value;
      1 <= k < |sh| && IsVisitRow(sh[k]) && forall m :: 1 <= m < k ==> !IsVisitRow(sh[m])
    ensures var sh := EnsureSheets(b).stats.value;
      var s := IncrementVisitCount(b);
      var n := CountValue(CellAt(sh[k], 1)) + 1;
      && s.response == Success(Visits(n))
      && s.book.checkIns == EnsureSheets(b).checkIns
      && |s.book.stats.value| == |sh|
      && CellAt(s.book.stats.value[k], 1) == Number(n as real)
      && (forall c: nat :: c != 1 ==> CellAt(s.book.stats.value[k], c) == CellAt(sh[k], c))
      && (forall i :: 0 <= i < |sh| && i != k ==> s.book.stats.value[i] == sh[i])
  {
    var sh := EnsureSheets(b).stats.value;
    var data := Values(sh);
    forall m | 1 <= m < k ensures !IsVisitRow(data[m]) {
      VisitRowsAgree(sh, m);
    }
    VisitRowsAgree(sh, k);
    assert FirstVisitRow(data, 1) == Some(k);
    assert CellAt(data[k], 1) == CellAt(sh[k], 1);
    var n := CountValue(CellAt(sh[k], 1)) + 1;
    var sh' := SetValue(sh, k, 1, Number(n as real));
    assert |sh'| == |sh| && CellAt(sh'[k], 1) == Number(n as real);
    assert IncrementVisitCount(b) == Step(EnsureSheets(b).(stats := Some(sh')), Success(Visits(n)));
  }

  /** `incrementVisitCount` with no `visitCount` row below the header appends
      `['visitCount', 1]` and returns 1. */
  lemma IncrementAppendsMissingVisitRow(b: Book)
    requires var sh := EnsureSheets(b).stats.value;
      forall m :: 1 <= m < |sh| ==> !IsVisitRow(sh[m])
    ensures var sh := EnsureSheets(b).stats.value;
      var s := IncrementVisitCount(b);
      && s.response == Success(Visits(1))
      && s.book == EnsureSheets(b).(stats := Some(sh + [[Text(VisitKey), Number(1.0)]]))
  {
    var sh := EnsureSheets(b).stats.value;
    var data := Values(sh);
    forall m | 1 <= m < |data| ensures !IsVisitRow(data[m]) {
      VisitRowsAgree(sh, m);
    }
  }

  /** At most one `visitCount` row below the header. */
  predicate AtMostOneVisitRow(sh: Sheet) {
    forall m, n :: 1 <= m < n < |sh| && IsVisitRow(sh[m]) ==> !IsVisitRow(sh[n])
  }

  /** The shape every request keeps: the `CheckIns` tab starts with its
      header, and the `Stats` tab has a header row and at most one counter
      row below it. A missing tab is fine: it is created in that shape. */
  predicate WellFormed(b: Book) {
    && (b.checkIns.Some? ==> |b.checkIns.value| >= 1 && b.checkIns.value[0] == CheckInsHeader)
    && (b.stats.Some? ==> |b.stats.value| >= 1 && AtMostOneVisitRow(b.stats.value))
  }

  lemma EnsureSheetsWellFormed(b: Book)
    requires WellFormed(b)
    ensures WellFormed(EnsureSheets(b))
  {
    var e := EnsureSheets(b);
    if b.stats.None? {
      assert e.stats.value == [StatsHeader, InitialVisitRow];
    }
  }

  lemma IncrementKeepsWellFormed(b: Book)
    requires WellFormed(b)
    ensures WellFormed(IncrementVisitCount(b).book)
  {
    EnsureSheetsWellFormed(b);
    var sh := EnsureSheets(b).stats.value;
    var s := IncrementVisitCount(b).book;
    var data := Values(sh);
    match FirstVisitRow(data, 1)
    case Some(k) =>
      VisitRowsAgree(sh, k);
      forall m | 1 <= m < k ensures !IsVisitRow(sh[m]) { VisitRowsAgree(sh, m); }
      IncrementUpdatesFirstVisitRow(b, k);
      var sh' := s.stats.value;
      forall m | 0 <= m < |sh'| ensures IsVisitRow(sh'[m]) == IsVisitRow(sh[m]) {
        if m == k { assert CellAt(sh'[k], 0) == CellAt(sh[k], 0); }
      }
    case None =>
      forall m | 1 <= m < |sh| ensures !IsVisitRow(sh[m]) { VisitRowsAgree(sh, m); }
      IncrementAppendsMissingVisitRow(b);
  }

  /** Every request, whatever its action or body, keeps the spreadsheet well
      formed. */
  lemma RequestKeepsWellFormed(b: Book, req: Request, env: Env)
    requires WellFormed(b)
    ensures WellFormed(HandleRequest(b, req, env).book)
  {
    EnsureSheetsWellFormed(b);
    var action := req.action.GetOr("");
    if action == "incrementVisit" {
      IncrementKeepsWellFormed(b);
    } else if action == "saveCheckIn" && req.body.Parsed? && req.body.json.JsonObject? {
      var before := EnsureSheets(b).checkIns.value;
      var after := HandleRequest(b, req, env).book.checkIns.value;
      assert after[0] == after[..|before|][0];
    }
  }

  /** On a well-formed spreadsheet the counter `getStats` reads is the one
      `incrementVisitCount` just wrote, although one scans for the last
      `visitCount` row and the other for the first. */
  lemma StatsSeeIncrement(b: Book)
    requires WellFormed(b)
    ensures GetStats(IncrementVisitCount(b).book).response.data.visitCount
         == IncrementVisitCount(b).response.data.visitCount
  {
    EnsureSheetsWellFormed(b);
    var sh := EnsureSheets(b).stats.value;
    var data := Values(sh);
    match FirstVisitRow(data, 1)
    case Some(k) =>
      VisitRowsAgree(sh, k);
      forall m | 1 <= m < k ensures !IsVisitRow(sh[m]) { VisitRowsAgree(sh, m); }
      StatsSeeUpdatedRow(b, k);
    case None =>
      forall m | 1 <= m < |sh| ensures !IsVisitRow(sh[m]) { VisitRowsAgree(sh, m); }
      StatsSeeAppendedRow(b);
  }

  lemma StatsSeeUpdatedRow(b: Book, k: nat)
    requires WellFormed(EnsureSheets(b))
    requires var sh := EnsureSheets(b).stats.value;
      1 <= k < |sh| && IsVisitRow(sh[k]) && forall m :: 1 <= m < k ==> !IsVisitRow(sh[m])
    ensures GetStats(IncrementVisitCount(b).book).response.data.visitCount
         == IncrementVisitCount(b).response.data.visitCount
  {
    var sh := EnsureSheets(b).stats.value;
    IncrementUpdatesFirstVisitRow(b, k);
    var s := IncrementVisitCount(b);
    var sh' := s.book.stats.value;
    var n := s.response.data.visitCount;
    assert CellAt(sh'[k], 0) == CellAt(sh[k], 0);
    assert IsVisitRow(sh'[k]);
    forall m | k < m < |sh'| ensures !IsVisitRow(sh'[m]) {
      assert sh'[m] == sh[m];
    }
    assert EnsureSheets(s.book) == s.book;
    GetStatsReadsLastVisitRow(s.book);
    assert CountValue(Number(n as real)) == n;
  }

  lemma StatsSeeAppendedRow(b: Book)
    requires WellFormed(EnsureSheets(b))
    requires var sh := EnsureSheets(b).stats.value;
      forall m :: 1 <= m < |sh| ==> !IsVisitRow(sh[m])
    ensures GetStats(IncrementVisitCount(b).book).response.data.visitCount
         == IncrementVisitCount(b).response.data.visitCount
  {
    var sh := EnsureSheets(b).stats.value;
    IncrementAppendsMissingVisitRow(b);
    var s := IncrementVisitCount(b);
    var sh' := s.book.stats.value;
    assert sh' == sh + [[Text(VisitKey), Number(1.0)]];
    assert IsVisitRow(sh'[|sh|]);
    assert EnsureSheets(s.book) == s.book;
    GetStatsReadsLastVisitRow(s.book);
    assert CountValue(Number(1.0)) == 1;
  }

  /** Two `visitCount` rows (which no request creates, but a hand edit can):
      `getStats` reports the last one while `incrementVisitCount` counts on
      from the first, so the two disagree. */
  lemma DuplicateVisitRowsDisagree()
    ensures var b := Book(Some([CheckInsHeader]),
                          Some([StatsHeader, [Text(VisitKey), Number(5.0)], [Text(VisitKey), Number(9.0)]]));
      && GetStats(b).response.data.visitCount == 9
      && IncrementVisitCount(b).response.data.visitCount == 6
      && GetStats(IncrementVisitCount(b).book).response.data.visitCount == 9
  {
    var sh := [StatsHeader, [Text(VisitKey), Number(5.0)], [Text(VisitKey), Number(9.0)]];
    var b := Book(Some([CheckInsHeader]), Some(sh));
    assert IsVisitRow(sh[1]) && IsVisitRow(sh[2]) && !IsVisitRow(sh[0]);
    GetStatsReadsLastVisitRow(b);
    IncrementUpdatesFirstVisitRow(b, 1);
    var b' := IncrementVisitCount(b).book;
    assert b'.stats.value[2] == sh[2];
    GetStatsReadsLastVisitRow(b');
  }

  /** `getCheckIns` lists the rows below the header newest first: item `k`
      is the row `k` places above the last one, keyed by the header row. */
  lemma GetCheckInsNewestFirst(b: Book, k: nat, j: nat)
    requires var rows := EnsureSheets(b).checkIns.value;
      k < |rows| - 1 && j < Width(rows)
    ensures var rows := EnsureSheets(b).checkIns.value;
      var items := GetCheckIns(b).response.data.items;
      && k < |items| && j < |items[k]|
      && items[k][j] == (CellAt(rows[0], j), CellAt(rows[|rows| - 1 - k], j))
  {
    var rows := EnsureSheets(b).checkIns.value;
    var data := Values(rows);
    var recs := SheetRecords(rows);
    var items := GetCheckIns(b).response.data.items;
    assert items == Reverse(recs);
    assert items[k] == recs[|recs| - 1 - k];
    assert recs[|recs| - 1 - k] == Zip(data[0], data[|rows| - 1 - k]);
    assert data[0][j] == CellAt(data[0], j);
    assert data[|rows| - 1 - k][j] == CellAt(data[|rows| - 1 - k], j);
  }

  /** Property lookup finds the last column with a matching header. */
  lemma {:induction false} LookupFindsLastMatch(rec: Record, name: string, c: nat)
    requires |name| > 0 && 'a' <= name[0] <= 'z'
    requires c < |rec| && KeyMatches(rec[c].0, name)
    requires forall j :: c < j < |rec| ==> !KeyMatches(rec[j].0, name)
    ensures Lookup(rec, name) == Some(rec[c].1)
  {
    if c < |rec| - 1 {
      var init := rec[..|rec| - 1];
      assert forall j :: 0 <= j < |init| ==> init[j] == rec[j];
      LookupFindsLastMatch(init, name, c);
    }
  }

  /** Under the standard header, the property named by column `c` holds that
      column's value: the other header names differ, and the padding columns
      have blank headers. */
  lemma HeaderLookup(rec: Record, c: nat, name: string)
    requires |rec| >= |CheckInsHeader| && c < |CheckInsHeader| && CheckInsHeader[c] == Text(name)
    requires forall j :: 0 <= j < |rec| ==> rec[j].0 == CellAt(CheckInsHeader, j)
    ensures Lookup(rec, name) == Some(rec[c].1)
  {
    assert |name| > 0 && 'a' <= name[0] <= 'z';
    forall j | c < j < |rec| ensures !KeyMatches(rec[j].0, name) {
      if j < |CheckInsHeader| {
        HeaderNamesDistinct(c, j);
      } else {
        assert rec[j].0 == Blank;
      }
    }
    LookupFindsLastMatch(rec, name, c);
  }

  lemma HeaderNamesDistinct(i: nat, j: nat)
    requires i < j < |CheckInsHeader|
    ensures CheckInsHeader[i] != CheckInsHeader[j]
  {
    var names := ["id", "locationName", "latitude", "longitude", "timestamp", "description"];
    assert forall k :: 0 <= k < 6 ==> CheckInsHeader[k] == Text(names[k]);
    var lens := [2, 12, 8, 9, 9, 11];
    assert forall k :: 0 <= k < 6 ==> |names[k]| == lens[k];
    if lens[i] == lens[j] {
      assert i == 3 && j == 4;
      assert names[3][0] != names[4][0];
    }
  }

  /** The record `getCheckIns` lists first right after a save pairs each
      header cell with the cell of the appended row below it. */
  lemma NewestRecordAfterSave(b: Book, f: map<string, Scalar>, env: Env)
    requires WellFormed(b)
    ensures var saved := SaveCheckIn(b, JsonObject(f), env);
      var items := GetCheckIns(saved.book).response.data.items;
      && |items| >= 1
      && |items[0]| >= |CheckInsHeader|
      && forall j :: 0 <= j < |items[0]| ==>
           items[0][j] == (CellAt(CheckInsHeader, j), CellAt(CheckInRow(f, env), j))
  {
    EnsureSheetsWellFormed(b);
    var before := EnsureSheets(b).checkIns.value;
    var saved := SaveCheckIn(b, JsonObject(f), env);
    var rows := saved.book.checkIns.value;
    var row := CheckInRow(f, env);
    assert rows == before + [row];
    assert EnsureSheets(saved.book) == saved.book;
    var items := GetCheckIns(saved.book).response.data.items;
    var w := Width(rows);
    assert |rows[|rows| - 1]| == |CheckInsHeader| <= w;
    var rec := items[0];
    forall j | 0 <= j < w
      ensures j < |rec| && rec[j] == (CellAt(CheckInsHeader, j), CellAt(row, j))
    {
      GetCheckInsNewestFirst(saved.book, 0, j);
      assert rows[0] == before[0] == CheckInsHeader;
    }
    assert |rec| == w by {
      assert rec == Reverse(SheetRecords(rows))[0];
    }
  }

  /** Right after `saveCheckIn` returns id X, the first item `getCheckIns`
      lists has id X and holds the stored (defaulted) fields. */
  lemma SaveThenListRoundTrip(b: Book, f: map<string, Scalar>, env: Env)
    requires WellFormed(b)
    ensures var saved := SaveCheckIn(b, JsonObject(f), env);
      var items := GetCheckIns(saved.book).response.data.items;
      && saved.response.data.id == env.uuid
      && |items| >= 1
      && Lookup(items[0], "id") == Some(Text(env.uuid))
      && Lookup(items[0], "locationName") == Some(OrDefault(Field(f, "locationName"), Text("")))
      && Lookup(items[0], "latitude") == Some(OrDefault(Field(f, "latitude"), Number(0.0)))
      && Lookup(items[0], "longitude") == Some(OrDefault(Field(f, "longitude"), Number(0.0)))
      && Lookup(items[0], "timestamp") == Some(Text(env.now))
      && Lookup(items[0], "description") == Some(OrDefault(Field(f, "description"), Text("")))
  {
    NewestRecordAfterSave(b, f, env);
    var saved := SaveCheckIn(b, JsonObject(f), env);
    var rec := GetCheckIns(saved.book).response.data.items[0];
    var row := CheckInRow(f, env);
    assert forall c :: 0 <= c < 6 ==> rec[c].1 == row[c];
    HeaderLookup(rec, 0, "id");
    HeaderLookup(rec, 1, "locationName");
    HeaderLookup(rec, 2, "latitude");
    HeaderLookup(rec, 3, "longitude");
    HeaderLookup(rec, 4, "timestamp");
    HeaderLookup(rec, 5, "description");
  }
}
