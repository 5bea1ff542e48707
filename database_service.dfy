/** The JournalItems table of Services/DatabaseService.cs, held in memory:
    its rows in rowid order and SQLite's AUTOINCREMENT counter (the table's
    entry in sqlite_sequence).  Every SQL statement of the service becomes a
    method that updates or reads that state. */
module Database {
  import opened Wrappers
  import opened Text
  import opened DateTimes
  import opened JsonList
  import opened JournalItems
  import opened Sorting

  /** One stored row.  EntryDate, Content and CreatedAt are NOT NULL; the
      other three text columns may hold NULL. */
  datatype Row = Row(
    id: nat,
    entryDate: string,
    content: string,
    primaryMood: NullableString,
    secondaryMoods: NullableString,
    tags: NullableString,
    createdAt: string)

  /** The table on disk: its rows and the largest id ever handed out. */
  datatype Table = Table(rows: seq<Row>, lastId: nat)

  /** What SQLite keeps true of an AUTOINCREMENT table: rows in increasing
      id order, every id positive and none above the counter. */
  predicate WellFormed(t: Table) {
    && (forall i | 0 <= i < |t.rows| :: 1 <= t.rows[i].id <= t.lastId)
    && (forall i, j | 0 <= i < j < |t.rows| :: t.rows[i].id < t.rows[j].id)
  }

  /** `CREATE TABLE IF NOT EXISTS`: an existing table is kept as it is,
      otherwise the table starts empty with a fresh counter. */
  function CreateTableIfNotExists(disk: Option<Table>): (t: Table)
    ensures disk.Some? ==> t == disk.value
    ensures disk.None? ==> t.rows == [] && t.lastId == 0
  {
    if disk.Some? then disk.value else Table([], 0)
  }

  lemma CreateTableIdempotent(disk: Option<Table>)
    ensures CreateTableIfNotExists(Some(CreateTableIfNotExists(disk))) == CreateTableIfNotExists(disk)
  {
  }

  // ---------------------------------------------------------------------
  // Row <-> record

  /** The row that INSERT writes for `entry` under the id AUTOINCREMENT
      picks.  The date is cut to `yyyy-MM-dd`, the creation time to
      `yyyy-MM-dd HH:mm:ss`, and null text columns are replaced. */
  function ToRow(entry: JournalItem, id: nat): (r: Row)
    requires entry.Content.Str?
    ensures r.id == id && |r.entryDate| == 10 && |r.createdAt| == 19
    ensures r.primaryMood.Str? && r.secondaryMoods.Str? && r.tags.Str?
  {
    Row(id, FormatDate(entry.EntryDate), entry.Content.value,
        Str(Coalesce(entry.PrimaryMood, "")), Str(Coalesce(entry.SecondaryMoods, "")),
        Str(Coalesce(entry.Tags, "[]")), FormatTimestamp(entry.CreatedAt))
  }

  /** The row after UPDATE rewrote its four editable columns from `entry`. */
  function SetColumns(row: Row, entry: JournalItem): (r: Row)
    requires entry.Content.Str?
    ensures r.id == row.id && r.entryDate == row.entryDate && r.createdAt == row.createdAt
    ensures r == ToRow(entry, row.id).(entryDate := row.entryDate, createdAt := row.createdAt)
  {
    row.(content := entry.Content.value,
         primaryMood := Str(Coalesce(entry.PrimaryMood, "")),
         secondaryMoods := Str(Coalesce(entry.SecondaryMoods, "")),
         tags := Str(Coalesce(entry.Tags, "[]")))
  }

  /** `MapToJournalItem`: the record a row reads back as.  Either date
      column failing to parse throws; NULL text columns read as the
      record's defaults. */
  function MapToJournalItem(row: Row): (r: Result<JournalItem>)
    ensures r.Failure? ==> r.error == FormatException
  {
    var entryDate := ParseDateTime(row.entryDate);
    var createdAt := ParseDateTime(row.createdAt);
    if entryDate.None? || createdAt.None? then Failure(FormatException)
    else
      Success(JournalItem(
        row.id, entryDate.value, Str(row.content),
        if row.primaryMood.Null? then Str("") else row.primaryMood,
        if row.secondaryMoods.Null? then Str("[]") else row.secondaryMoods,
        if row.tags.Null? then Str("[]") else row.tags,
        createdAt.value))
  }

  /** Only a date column that fails to parse makes the mapping throw. */
  lemma MapFailsOnlyOnDates(row: Row)
    ensures MapToJournalItem(row).Failure? <==>
            ParseDateTime(row.entryDate).None? || ParseDateTime(row.createdAt).None?
  {
  }

  /** A mapped row keeps its id and content; NULL text columns read as the
      record's defaults, so both list views of a NULL list are empty. */
  lemma MapReadsDefaults(row: Row)
    requires MapToJournalItem(row).Success?
    ensures MapToJournalItem(row).value.Id == row.id
    ensures MapToJournalItem(row).value.Content == Str(row.content)
    ensures MapToJournalItem(row).value.PrimaryMood == Str(Coalesce(row.primaryMood, ""))
    ensures MapToJournalItem(row).value.Tags == Str(Coalesce(row.tags, "[]"))
    ensures MapToJournalItem(row).value.SecondaryMoods == Str(Coalesce(row.secondaryMoods, "[]"))
    ensures TagList(MapToJournalItem(row).value) ==
            (if row.tags.Null? then Success([]) else DecodeList(row.tags))
    ensures SecondaryMoodList(MapToJournalItem(row).value) ==
            (if row.secondaryMoods.Null? then Success([]) else DecodeList(row.secondaryMoods))
  {
    EmptyListText();
  }

  lemma EmptyListText()
    ensures DecodeList(Str("[]")) == Success([])
  {
    assert DecodeList(EncodeList(Some([]))) == Success([]);
  }

  /** A saved entry reads back with its id, its day at midnight, its
      creation time cut to whole seconds and its null text fields replaced. */
  lemma SavedRowReadsBack(entry: JournalItem, id: nat)
    requires entry.Content.Str?
    ensures MapToJournalItem(ToRow(entry, id)) ==
            Success(JournalItem(id, DateOf(entry.EntryDate), entry.Content,
                                Str(Coalesce(entry.PrimaryMood, "")), Str(Coalesce(entry.SecondaryMoods, "")),
                                Str(Coalesce(entry.Tags, "[]")), TruncateToSeconds(entry.CreatedAt)))
  {
    StoredDateReadsBack(entry.EntryDate);
    StoredTimestampReadsBack(entry.CreatedAt);
  }

  /** Writing and reading back keeps both list views, null lists included. */
  lemma SavedListsReadBack(entry: JournalItem, id: nat)
    requires entry.Content.Str?
    ensures MapToJournalItem(ToRow(entry, id)).Success?
    ensures TagList(MapToJournalItem(ToRow(entry, id)).value) == TagList(entry)
    ensures SecondaryMoodList(MapToJournalItem(ToRow(entry, id)).value) == SecondaryMoodList(entry)
  {
    SavedRowReadsBack(entry, id);
    EmptyListText();
    assert AllWhiteSpace("");
  }

  /** A found row as GetEntryByIdAsync and GetEntryByDateAsync return it. */
  function AsFound(m: Result<JournalItem>): (r: Result<Option<JournalItem>>)
    ensures r.Success? <==> m.Success?
    ensures m.Success? ==> r.value == Some(m.value)
    ensures m.Failure? ==> r.error == m.error
  {
    match m
    case Success(item) => Success(Some(item))
    case Failure(e) => Failure(e)
  }

  // ---------------------------------------------------------------------
  // DELETE

  /** The rows that `DELETE ... WHERE Id = id` keeps, in their order. */
  function RemoveId(rows: seq<Row>, id: int): (r: seq<Row>)
    ensures forall x :: x in r <==> x in rows && x.id != id
    ensures |r| <= |rows|
  {
    if rows == [] then []
    else if rows[0].id == id then RemoveId(rows[1..], id)
    else [rows[0]] + RemoveId(rows[1..], id)
  }

  /** Deleting keeps the table well formed. */
  lemma {:induction false} RemoveIdWellFormed(rows: seq<Row>, id: int, lastId: nat)
    requires WellFormed(Table(rows, lastId))
    ensures WellFormed(Table(RemoveId(rows, id), lastId))
  {
    if rows != [] {
      WellFormedTail(rows, lastId);
      RemoveIdWellFormed(rows[1..], id, lastId);
      if rows[0].id != id {
        var rest := RemoveId(rows[1..], id);
        forall y | y in rest
          ensures rows[0].id < y.id
        {
          FirstIdSmallest(rows, lastId, y);
        }
        ConsWellFormed(rows[0], rest, lastId);
      }
    }
  }

  lemma WellFormedTail(rows: seq<Row>, lastId: nat)
    requires WellFormed(Table(rows, lastId)) && rows != []
    ensures WellFormed(Table(rows[1..], lastId))
  {
    forall i, j | 0 <= i < j < |rows| - 1
      ensures rows[1..][i].id < rows[1..][j].id
    {
      assert rows[1..][i] == rows[i + 1] && rows[1..][j] == rows[j + 1];
    }
  }

  lemma FirstIdSmallest(rows: seq<Row>, lastId: nat, y: Row)
    requires WellFormed(Table(rows, lastId)) && rows != [] && y in rows[1..]
    ensures rows[0].id < y.id
  {
    var k :| 0 <= k < |rows[1..]| && rows[1..][k] == y;
    assert rows[k + 1] == y;
  }

  lemma ConsWellFormed(x: Row, rest: seq<Row>, lastId: nat)
    requires WellFormed(Table(rest, lastId)) && 1 <= x.id <= lastId
    requires forall y | y in rest :: x.id < y.id
    ensures WellFormed(Table([x] + rest, lastId))
  {
    var r := [x] + rest;
    forall i, j | 0 <= i < j < |r|
      ensures r[i].id < r[j].id
    {
      if i == 0 {
        assert r[j] == rest[j - 1];
        assert r[j] in rest;
      } else {
        assert r[i] == rest[i - 1] && r[j] == rest[j - 1];
      }
    }
    forall i | 0 <= i < |r|
      ensures 1 <= r[i].id <= lastId
    {
      if i > 0 {
        assert r[i] == rest[i - 1];
      }
    }
  }

  /** Deleting an id that no row has changes nothing. */
  lemma {:induction false} RemoveAbsentId(rows: seq<Row>, id: int)
    requires forall i | 0 <= i < |rows| :: rows[i].id != id
    ensures RemoveId(rows, id) == rows
  {
    if rows != [] {
      RemoveAbsentId(rows[1..], id);
      assert rows == [rows[0]] + rows[1..];
    }
  }

  /** Deleting the same id twice is deleting it once. */
  lemma RemoveIdIdempotent(rows: seq<Row>, id: int)
    ensures RemoveId(RemoveId(rows, id), id) == RemoveId(rows, id)
  {
    var r := RemoveId(rows, id);
    forall i | 0 <= i < |r|
      ensures r[i].id != id
    {
      assert r[i] in r;
    }
    RemoveAbsentId(r, id);
  }

  // ---------------------------------------------------------------------
  // ORDER BY EntryDate DESC

  function EntryDateText(row: Row): string {
    row.entryDate
  }

  /** SQLite compares TEXT by BINARY collation: code point order. */
  lemma LexLessIsStrictTotalOrder()
    ensures IsStrictTotalOrder(LexLess)
  {
    forall a: string
      ensures !LexLess(a, a)
    {
      LexLessIrreflexive(a);
    }
    forall a: string, b: string, c: string | LexLess(a, b) && LexLess(b, c)
      ensures LexLess(a, c)
    {
      LexLessTransitive(a, b, c);
    }
    forall a: string, b: string
      ensures a == b || LexLess(a, b) || LexLess(b, a)
    {
      LexLessTotal(a, b);
    }
  }

  /** Rows whose dates are in the stored `yyyy-MM-dd` form: descending text
      order is descending calendar order. */
  lemma TextOrderIsDateOrder(order: seq<Row>, items: seq<JournalItem>)
    requires SortedDesc(order, EntryDateText, LexLess)
    requires |items| == |order|
    requires forall i | 0 <= i < |order| :: |order[i].entryDate| == 10
    requires forall i | 0 <= i < |order| :: MapToJournalItem(order[i]) == Success(items[i])
    ensures forall i, j | 0 <= i < j < |items| :: !Before(items[i].EntryDate, items[j].EntryDate)
  {
    forall i, j | 0 <= i < j < |items|
      ensures !Before(items[i].EntryDate, items[j].EntryDate)
    {
      StoredDateIsCalendarDate(order[i], items[i]);
      StoredDateIsCalendarDate(order[j], items[j]);
      assert !LexLess(EntryDateText(order[i]), EntryDateText(order[j]));
      FormatDateOrder(items[i].EntryDate, items[j].EntryDate);
    }
  }

  /** The rows as the query returns them. */
  lemma RowsSorted(rows: seq<Row>)
    ensures multiset(SortDesc(rows, EntryDateText, LexLess)) == multiset(rows)
    ensures SortedDesc(SortDesc(rows, EntryDateText, LexLess), EntryDateText, LexLess)
  {
    LexLessIsStrictTotalOrder();
    SortDescSorted(rows, EntryDateText, LexLess);
    SortDescPermutes(rows, EntryDateText, LexLess);
  }

  lemma ReadOrderIsDateOrder(rows: seq<Row>, order: seq<Row>, items: seq<JournalItem>)
    requires multiset(order) == multiset(rows)
    requires SortedDesc(order, EntryDateText, LexLess)
    requires |items| == |order|
    requires forall i | 0 <= i < |order| :: MapToJournalItem(order[i]) == Success(items[i])
    ensures (forall i | 0 <= i < |rows| :: |rows[i].entryDate| == 10) ==>
            forall i, j | 0 <= i < j < |items| :: !Before(items[i].EntryDate, items[j].EntryDate)
  {
    if forall i | 0 <= i < |rows| :: |rows[i].entryDate| == 10 {
      StoredOrder(rows, order, items);
    }
  }

  lemma StoredOrder(rows: seq<Row>, order: seq<Row>, items: seq<JournalItem>)
    requires multiset(order) == multiset(rows)
    requires forall i | 0 <= i < |rows| :: |rows[i].entryDate| == 10
    requires SortedDesc(order, EntryDateText, LexLess)
    requires |items| == |order|
    requires forall i | 0 <= i < |order| :: MapToJournalItem(order[i]) == Success(items[i])
    ensures forall i, j | 0 <= i < j < |items| :: !Before(items[i].EntryDate, items[j].EntryDate)
  {
    forall k | 0 <= k < |order|
      ensures |order[k].entryDate| == 10
    {
      assert order[k] in multiset(rows);
    }
    TextOrderIsDateOrder(order, items);
  }

  lemma StoredDateIsCalendarDate(row: Row, item: JournalItem)
    requires |row.entryDate| == 10 && MapToJournalItem(row) == Success(item)
    ensures FormatDate(item.EntryDate) == row.entryDate && DateOf(item.EntryDate) == item.EntryDate
  {
    MidnightIsOwnDate(item.EntryDate);
  }

  // ---------------------------------------------------------------------
  // The service

  /** The reader loop: maps each row in turn and collects the records; the
      first row that fails to map throws. */
  method ReadRows<R, T>(rows: seq<R>, read: R -> Result<T>) returns (r: Result<seq<T>>)
    ensures r == MapAll(rows, read)
  {
    var items: seq<T> := [];
    var i := 0;
    assert rows[0..] == rows;
    PrependNothing(MapAll(rows, read));
    while i < |rows|
      invariant 0 <= i <= |rows|
      invariant MapAll(rows, read) == Prepend(items, MapAll(rows[i..], read))
    {
      var item := read(rows[i]);
      if item.Failure? {
        return Failure(item.error);
      }
      MapAllStep(rows[i..], read, item.value);
      PrependTwice(items, [item.value], MapAll(rows[i + 1..], read));
      assert rows[i..][1..] == rows[i + 1..];
      items := items + [item.value];
      i := i + 1;
    }
    r := Success(items);
    assert items + [] == items;
  }

  lemma MapAllStep<R, T>(rows: seq<R>, read: R -> Result<T>, v: T)
    requires rows != [] && read(rows[0]) == Success(v)
    ensures MapAll(rows, read) == Prepend([v], MapAll(rows[1..], read))
  {
  }

  lemma PrependNothing<T>(r: Result<seq<T>>)
    ensures Prepend([], r) == r
  {
    if r.Success? {
      assert [] + r.value == r.value;
    }
  }

  lemma PrependTwice<T>(xs: seq<T>, ys: seq<T>, r: Result<seq<T>>)
    ensures Prepend(xs, Prepend(ys, r)) == Prepend(xs + ys, r)
  {
    if r.Success? {
      assert xs + (ys + r.value) == (xs + ys) + r.value;
    }
  }

  class DatabaseService {
    /** The table's rows in rowid order. */
    var rows: seq<Row>
    /** sqlite_sequence's counter for the table: the largest id ever used. */
    var lastId: nat
    /** Every id on disk when the service opened or handed out since,
        deleted rows' included; all are at most `lastId`. */
    ghost var issued: set<nat>

    ghost predicate Valid()
      reads this
    {
      && WellFormed(Table(rows, lastId))
      && (forall id | id in issued :: 1 <= id <= lastId)
      && (forall i | 0 <= i < |rows| :: rows[i].id in issued)
    }

    /** Opens the database file, whose table is `disk` if it exists, and
        runs InitializeDatabase. */
    constructor(disk: Option<Table>)
      requires disk.Some? ==> WellFormed(disk.value)
      ensures Valid()
      ensures Table(rows, lastId) == CreateTableIfNotExists(disk)
    {
      var t := CreateTableIfNotExists(disk);
      rows := t.rows;
      lastId := t.lastId;
      issued := set i | 0 <= i < |t.rows| :: t.rows[i].id;
    }

    /** INSERT: one row is appended under a fresh id; nothing is returned to
        the caller.  A null Content cannot be bound and throws. */
    method SaveEntry(entry: JournalItem) returns (outcome: Outcome)
      requires Valid()
      modifies this
      ensures Valid()
      ensures entry.Content.Null? ==> outcome == Fail(InvalidOperationException) && unchanged(this)
      ensures entry.Content.Str? ==> && outcome == Pass
                                     && lastId == old(lastId) + 1
                                     && rows == old(rows) + [ToRow(entry, lastId)]
                                     && issued == old(issued) + {lastId}
      ensures entry.Content.Str? ==> forall id | id in old(issued) :: id < lastId
    {
      if entry.Content.Null? {
        return Fail(InvalidOperationException);
      }
      lastId := lastId + 1;
      rows := rows + [ToRow(entry, lastId)];
      issued := issued + {lastId};
      outcome := Pass;
    }

    /** `SELECT * ... ORDER BY EntryDate DESC` read row by row.  `order` is
        the order the rows came back in: every row once, in descending text
        order of EntryDate, ties in an order the contract leaves open.  A
        row that does not map throws. */
    method GetAllEntries() returns (r: Result<seq<JournalItem>>, ghost order: seq<Row>)
      requires Valid()
      ensures multiset(order) == multiset(rows)
      ensures SortedDesc(order, EntryDateText, LexLess)
      ensures r == MapAll(order, MapToJournalItem)
      ensures r.Success? <==> forall i | 0 <= i < |order| :: MapToJournalItem(order[i]).Success?
      ensures r.Failure? ==> r.error == FormatException
      ensures r.Success? ==> |r.value| == |order|
      ensures r.Success? ==> forall i | 0 <= i < |order| :: MapToJournalItem(order[i]) == Success(r.value[i])
      ensures r.Success? && (forall i | 0 <= i < |rows| :: |rows[i].entryDate| == 10) ==>
              forall i, j | 0 <= i < j < |r.value| :: !Before(r.value[i].EntryDate, r.value[j].EntryDate)
    {
      var sorted := SortDesc(rows, EntryDateText, LexLess);
      order := sorted;
      RowsSorted(rows);
      r := ReadRows(sorted, MapToJournalItem);
      if r.Success? {
        ReadOrderIsDateOrder(rows, order, r.value);
      }
    }

    /** `SELECT * ... WHERE Id = id`: the row with that id, or null. */
    method GetEntryById(id: int) returns (r: Result<Option<JournalItem>>)
      requires Valid()
      ensures (forall i | 0 <= i < |rows| :: rows[i].id != id) ==> r == Success(None)
      ensures forall i | 0 <= i < |rows| && rows[i].id == id :: r == AsFound(MapToJournalItem(rows[i]))
    {
      if i :| 0 <= i < |rows| && rows[i].id == id {
        r := AsFound(MapToJournalItem(rows[i]));
        forall j | 0 <= j < |rows| && rows[j].id == id
          ensures j == i
        {
        }
      } else {
        r := Success(None);
      }
    }

    /** `SELECT * ... WHERE EntryDate = date LIMIT 1`: null exactly when no
        row holds that day; otherwise one row that does, which one left
        open. */
    method GetEntryByDate(date: DateTime) returns (r: Result<Option<JournalItem>>)
      requires Valid()
      ensures r == Success(None) <==> forall i | 0 <= i < |rows| :: rows[i].entryDate != FormatDate(date)
      ensures r != Success(None) ==>
              exists i | 0 <= i < |rows| :: rows[i].entryDate == FormatDate(date) && r == AsFound(MapToJournalItem(rows[i]))
      ensures r.Success? && r.value.Some? ==> r.value.value.EntryDate == DateOf(date)
    {
      var key := FormatDate(date);
      if i :| 0 <= i < |rows| && rows[i].entryDate == key {
        r := AsFound(MapToJournalItem(rows[i]));
        StoredDateReadsBack(date);
      } else {
        r := Success(None);
      }
    }

    /** UPDATE: the row with the entry's id gets its four editable columns
        rewritten; every other row and the counter stay.  A null Content
        throws. */
    method UpdateEntry(entry: JournalItem) returns (outcome: Outcome)
      requires Valid()
      modifies this
      ensures Valid()
      ensures entry.Content.Null? ==> outcome == Fail(InvalidOperationException) && unchanged(this)
      ensures entry.Content.Str? ==> && outcome == Pass
                                     && lastId == old(lastId) && issued == old(issued)
                                     && |rows| == |old(rows)|
      ensures entry.Content.Str? ==>
              forall i | 0 <= i < |rows| ::
                rows[i] == if old(rows)[i].id == entry.Id then SetColumns(old(rows)[i], entry) else old(rows)[i]
      ensures (forall i | 0 <= i < |old(rows)| :: old(rows)[i].id != entry.Id) ==> rows == old(rows)
    {
      if entry.Content.Null? {
        return Fail(InvalidOperationException);
      }
      var before := rows;
      rows := seq(|before|, i requires 0 <= i < |before| =>
                    if before[i].id == entry.Id then SetColumns(before[i], entry) else before[i]);
      outcome := Pass;
    }

    /** `DELETE ... WHERE Id = id`. */
    method DeleteEntry(id: int)
      requires Valid()
      modifies this
      ensures Valid()
      ensures rows == RemoveId(old(rows), id)
      ensures lastId == old(lastId) && issued == old(issued)
    {
      RemoveIdWellFormed(rows, id, lastId);
      rows := RemoveId(rows, id);
    }

    /** `DELETE FROM JournalItems`: the rows go, the table and its counter
        stay, so later ids are still fresh. */
    method DeleteAllEntries()
      requires Valid()
      modifies this
      ensures Valid()
      ensures rows == [] && lastId == old(lastId) && issued == old(issued)
    {
      rows := [];
    }
  }
}
