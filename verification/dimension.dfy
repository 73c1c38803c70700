/** The date dimension: deduplicate the rental timestamps, cut each to its
    calendar date, derive the key, weekday name, weekend flag, quarter and
    holiday flag, and lay the columns out in their published order.

    Deduplication runs on whole timestamps before they are cut to dates, so
    two rentals on one day at different times give two rows for that day. */
module Dimension {
  import opened Wrappers
  import opened Seqs
  import opened Calendar
  import opened DateKey
  import opened Frames

  /** The published column order. */
  const DimColumns: seq<string> :=
    ["date_id", "rental_date", "is_weekend", "is_holiday", "day_of_week", "quarter"]

  /** The order in which the columns come into being before the reorder. */
  const DerivedColumns: seq<string> :=
    ["rental_date", "date_id", "day_of_week", "is_weekend", "quarter", "is_holiday"]

  /** One row of the dimension, its fields in the published column order. */
  datatype DimRow = DimRow(
    dateId: int,
    rentalDate: Date,
    isWeekend: bool,
    isHoliday: bool,
    dayOfWeek: string,
    quarter: int)

  /** The attributes of one date; `isHoliday` stands for membership in the
      holiday calendar. */
  function MakeRow(d: Date, isHoliday: Date -> bool): (r: DimRow)
    requires ValidDate(d)
    ensures r.rentalDate == d
    ensures DecodeDateId(r.dateId) == Some(d)
    ensures 1000 <= d.year ==> 10000101 <= r.dateId <= 99991231
    ensures r.dayOfWeek == DayNames[Weekday(d)]
    ensures r.isWeekend <==> r.dayOfWeek == "Saturday" || r.dayOfWeek == "Sunday"
    ensures r.isWeekend <==> Weekday(d) >= 5
    ensures 1 <= r.quarter <= 4 && 3 * r.quarter - 2 <= d.month <= 3 * r.quarter
    ensures r.isHoliday == isHoliday(d)
  {
    DecodeDateIdOfDateId(d);
    WeekendIsSaturdayOrSunday(d);
    var name := DayName(d);
    DimRow(DateId(d), d, IsWeekendName(name), isHoliday(d), name, Quarter(d.month))
  }

  /** A row's cells in the published column order. */
  function RowCells(r: DimRow): seq<Value>
  {
    [IntValue(r.dateId), DateValue(r.rentalDate), BoolValue(r.isWeekend),
     BoolValue(r.isHoliday), TextValue(r.dayOfWeek), IntValue(r.quarter)]
  }

  /** A date's cells in the order the columns are derived. */
  function DerivedCells(d: Date, isHoliday: Date -> bool): seq<Value>
    requires ValidDate(d)
  {
    var name := DayName(d);
    [DateValue(d), IntValue(DateId(d)), TextValue(name),
     BoolValue(IsWeekendName(name)), IntValue(Quarter(d.month)), BoolValue(isHoliday(d))]
  }

  /** The rental dates of the dimension: the distinct timestamps in first
      occurrence order, each cut to its date. */
  function DimDates(stamps: seq<Timestamp>): (ds: seq<Date>)
    ensures |ds| <= |stamps|
    ensures forall i :: 0 <= i < |ds| ==> ValidDate(ds[i])
    ensures forall j :: 0 <= j < |stamps| ==> stamps[j].date in ds
    ensures forall i :: 0 <= i < |ds| ==> ds[i] in Map(DateOf, stamps)
    ensures |ds| == |Dedup(stamps)| && forall i :: 0 <= i < |ds| ==> ds[i] == Dedup(stamps)[i].date
  {
    var u := Dedup(stamps);
    var ds := Map(DateOf, u);
    forall j | 0 <= j < |stamps| ensures stamps[j].date in ds {
      var i :| 0 <= i < |u| && u[i] == stamps[j];
      assert ds[i] == stamps[j].date;
    }
    forall i | 0 <= i < |ds| ensures ds[i] in Map(DateOf, stamps) {
      var j :| 0 <= j < |stamps| && stamps[j] == u[i];
      assert Map(DateOf, stamps)[j] == ds[i];
    }
    ds
  }

  /** The table as it stands before the reorder: one row per kept date, the
      columns in derivation order. */
  function DerivedFrame(stamps: seq<Timestamp>, isHoliday: Date -> bool): (f: Frame)
    ensures WellFormed(f)
    ensures f.columns == DerivedColumns && |f.rows| == |Dedup(stamps)|
  {
    var ds := DimDates(stamps);
    Frame(DerivedColumns, seq(|ds|, i requires 0 <= i < |ds| => DerivedCells(ds[i], isHoliday)))
  }

  /** The dimension table: the derived table projected onto the published
      column order. */
  function BuildDimension(stamps: seq<Timestamp>, isHoliday: Date -> bool): (r: Result<Frame, seq<string>>)
    ensures r.Success? && WellFormed(r.value) && r.value.columns == DimColumns
    ensures r.Success? ==> |r.value.rows| == |Dedup(stamps)|
  {
    Select(DerivedFrame(stamps, isHoliday), DimColumns)
  }

  /** The dimension's rows as records. */
  function DimRows(stamps: seq<Timestamp>, isHoliday: Date -> bool): (rows: seq<DimRow>)
    ensures |rows| == |DimDates(stamps)|
    ensures forall i :: 0 <= i < |rows| ==> rows[i] == MakeRow(DimDates(stamps)[i], isHoliday)
  {
    var ds := DimDates(stamps);
    seq(|ds|, i requires 0 <= i < |ds| => MakeRow(ds[i], isHoliday))
  }

  /** Where each published column sits among the derived ones. */
  lemma DerivedPosition(k: int)
    requires 0 <= k < |DimColumns|
    ensures DimColumns[k] in DerivedColumns
    ensures FirstIndex(DimColumns, DimColumns[k]) == k
    ensures FirstIndex(DerivedColumns, DimColumns[k]) == [1, 0, 3, 5, 2, 4][k]
  {
  }

  /** Moving a date's derived cells to the published positions gives its
      record's cells. */
  lemma CellsAgree(d: Date, isHoliday: Date -> bool, k: int)
    requires ValidDate(d) && 0 <= k < 6
    ensures RowCells(MakeRow(d, isHoliday))[k] == DerivedCells(d, isHoliday)[[1, 0, 3, 5, 2, 4][k]]
  {
  }

  /** One row of the projected table. */
  lemma BuildDimensionRow(stamps: seq<Timestamp>, isHoliday: Date -> bool, g: Frame, i: int)
    requires BuildDimension(stamps, isHoliday) == Success(g)
    requires g.columns == DimColumns && WellFormed(g)
    requires |g.rows| == |DimDates(stamps)|
    requires 0 <= i < |g.rows|
    ensures g.rows[i] == RowCells(DimRows(stamps, isHoliday)[i])
  {
    var f := DerivedFrame(stamps, isHoliday);
    var d := DimDates(stamps)[i];
    var want := RowCells(DimRows(stamps, isHoliday)[i]);
    forall k | 0 <= k < 6
      ensures g.rows[i][k] == want[k]
    {
      var n := DimColumns[k];
      DerivedPosition(k);
      CellsAgree(d, isHoliday, k);
      assert g.rows[i][k] == Column(g, n)[i];
      assert Column(f, n)[i] == f.rows[i][[1, 0, 3, 5, 2, 4][k]];
    }
  }

  /** The reorder never fails, and the table it yields has exactly the
      published columns, with one row of cells per derived record. */
  lemma BuildDimensionLayout(stamps: seq<Timestamp>, isHoliday: Date -> bool)
    ensures BuildDimension(stamps, isHoliday)
         == Success(Frame(DimColumns, Map(RowCells, DimRows(stamps, isHoliday))))
  {
    forall k | 0 <= k < |DimColumns| ensures DimColumns[k] in DerivedColumns {
      DerivedPosition(k);
    }
    var g := BuildDimension(stamps, isHoliday).value;
    var want := Map(RowCells, DimRows(stamps, isHoliday));
    forall i | 0 <= i < |g.rows| ensures g.rows[i] == want[i] {
      BuildDimensionRow(stamps, isHoliday, g, i);
    }
    assert g.rows == want;
  }

  /** The dimension has one row per distinct timestamp, not per distinct
      date: as many rows as the input has distinct timestamps. */
  lemma DimRowCount(stamps: seq<Timestamp>, isHoliday: Date -> bool)
    ensures |DimRows(stamps, isHoliday)| == |Elements(stamps)| <= |stamps|
  {
    DedupLength(stamps);
    ElementsBound(stamps);
  }

  /** Each row is the record of the date of some input timestamp, and every
      input timestamp's date has its record among the rows. */
  lemma DimRowsMembership(stamps: seq<Timestamp>, isHoliday: Date -> bool, x: DimRow)
    ensures x in DimRows(stamps, isHoliday) <==> exists t :: t in stamps && x == MakeRow(t.date, isHoliday)
  {
    var rows := DimRows(stamps, isHoliday);
    if x in rows {
      var i :| 0 <= i < |rows| && rows[i] == x;
      var t := RowSource(stamps, isHoliday, i);
    }
    if exists t :: t in stamps && x == MakeRow(t.date, isHoliday) {
      var t :| t in stamps && x == MakeRow(t.date, isHoliday);
      var i := RowOfStamp(stamps, isHoliday, t);
    }
  }

  /** A row that the date of input timestamp `t` gives. */
  lemma RowOfStamp(stamps: seq<Timestamp>, isHoliday: Date -> bool, t: Timestamp) returns (i: int)
    requires t in stamps
    ensures 0 <= i < |DimRows(stamps, isHoliday)| && DimRows(stamps, isHoliday)[i] == MakeRow(t.date, isHoliday)
  {
    var ds := DimDates(stamps);
    var j :| 0 <= j < |stamps| && stamps[j] == t;
    i :| 0 <= i < |ds| && ds[i] == t.date;
  }

  /** The set of rows depends only on the set of input timestamps: neither
      their order nor their repetitions matter. */
  lemma DimRowsOrderIndependent(s1: seq<Timestamp>, s2: seq<Timestamp>, isHoliday: Date -> bool)
    requires Elements(s1) == Elements(s2)
    ensures Elements(DimRows(s1, isHoliday)) == Elements(DimRows(s2, isHoliday))
  {
    forall x | x in Elements(DimRows(s1, isHoliday)) ensures x in Elements(DimRows(s2, isHoliday)) {
      DimRowsMembership(s1, isHoliday, x);
      DimRowsMembership(s2, isHoliday, x);
      var t :| t in s1 && x == MakeRow(t.date, isHoliday);
      assert t in Elements(s1);
    }
    forall x | x in Elements(DimRows(s2, isHoliday)) ensures x in Elements(DimRows(s1, isHoliday)) {
      DimRowsMembership(s1, isHoliday, x);
      DimRowsMembership(s2, isHoliday, x);
      var t :| t in s2 && x == MakeRow(t.date, isHoliday);
      assert t in Elements(s2);
    }
  }

  /** Two rentals on the same day at different times give two rows with the
      same rental date and the same key. */
  lemma SameDayRentalsGiveTwoRows(isHoliday: Date -> bool)
    ensures var stamps: seq<Timestamp> := [DateTime(Date(2005, 5, 24), 0), DateTime(Date(2005, 5, 24), 1_000_000_000)];
      var rows := DimRows(stamps, isHoliday);
      |rows| == 2 && rows[0].rentalDate == rows[1].rentalDate && rows[0].dateId == rows[1].dateId
  {
    var stamps: seq<Timestamp> := [DateTime(Date(2005, 5, 24), 0), DateTime(Date(2005, 5, 24), 1_000_000_000)];
    assert Dedup(stamps[..1]) == stamps[..1];
  }

  /** The fixture's two dates and their records. */
  lemma MakeRowExamples(isHoliday: Date -> bool)
    ensures MakeRow(Date(2005, 5, 24), isHoliday)
         == DimRow(20050524, Date(2005, 5, 24), false, isHoliday(Date(2005, 5, 24)), "Tuesday", 2)
    ensures MakeRow(Date(2005, 5, 25), isHoliday)
         == DimRow(20050525, Date(2005, 5, 25), false, isHoliday(Date(2005, 5, 25)), "Wednesday", 2)
  {
    WeekdayExamples();
  }

  lemma DimDatesExample()
    ensures var d24, d25 := Date(2005, 5, 24), Date(2005, 5, 25);
      var stamps: seq<Timestamp> := [DateTime(d24, 0), DateTime(d25, 0), DateTime(d24, 0)];
      DimDates(stamps) == [d24, d25]
  {
    var d24, d25 := Date(2005, 5, 24), Date(2005, 5, 25);
    var stamps: seq<Timestamp> := [DateTime(d24, 0), DateTime(d25, 0), DateTime(d24, 0)];
    assert stamps[..2][..1] == [DateTime(d24, 0)];
    assert Dedup(stamps[..2]) == stamps[..2];
    assert Dedup(stamps) == stamps[..2];
  }

  /** Three rentals at midnight on 24, 25 and again 24 May 2005 give the two
      rows of the fixture, in first-seen order. */
  lemma DimRowsExample(isHoliday: Date -> bool)
    ensures var d24, d25 := Date(2005, 5, 24), Date(2005, 5, 25);
      var stamps: seq<Timestamp> := [DateTime(d24, 0), DateTime(d25, 0), DateTime(d24, 0)];
      DimRows(stamps, isHoliday)
        == [DimRow(20050524, d24, false, isHoliday(d24), "Tuesday", 2),
            DimRow(20050525, d25, false, isHoliday(d25), "Wednesday", 2)]
  {
    DimDatesExample();
    MakeRowExamples(isHoliday);
  }

  /** Every row of the built table holds the cells of the record of some
      input timestamp's date. */
  lemma BuildDimensionProvenance(stamps: seq<Timestamp>, isHoliday: Date -> bool)
    ensures BuildDimension(stamps, isHoliday).Success?
    ensures var g := BuildDimension(stamps, isHoliday).value;
      forall i :: 0 <= i < |g.rows| ==>
        exists t :: t in stamps && g.rows[i] == RowCells(MakeRow(t.date, isHoliday))
  {
    BuildDimensionLayout(stamps, isHoliday);
    var rows := DimRows(stamps, isHoliday);
    var cells := Map(RowCells, rows);
    forall i | 0 <= i < |cells|
      ensures exists t :: t in stamps && cells[i] == RowCells(MakeRow(t.date, isHoliday))
    {
      var t := RowSource(stamps, isHoliday, i);
      assert cells[i] == RowCells(rows[i]);
    }
  }

  /** An input timestamp whose date gives row `i`. */
  lemma RowSource(stamps: seq<Timestamp>, isHoliday: Date -> bool, i: int) returns (t: Timestamp)
    requires 0 <= i < |DimRows(stamps, isHoliday)|
    ensures t in stamps && DimRows(stamps, isHoliday)[i] == MakeRow(t.date, isHoliday)
  {
    var ds := DimDates(stamps);
    var j :| 0 <= j < |stamps| && Map(DateOf, stamps)[j] == ds[i];
    t := stamps[j];
  }
}
