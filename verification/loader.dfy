/** Source enumeration and loading: keep the listed object keys that end in
    ".parquet", refuse an empty selection, refuse a table without a
    `rental_date` column, normalise that column to timestamps and drop the
    rows where it is missing, then concatenate the tables in key order. */
module Loader {
  import opened Wrappers
  import opened Seqs
  import opened Calendar

  /** The run's fatal errors: no source file, or a source file without the
      timestamp column. */
  datatype EtlError =
    | NoParquetFiles
    | MissingRentalDate(key: string)

  const ParquetSuffix := ".parquet"
  const RentalDate := "rental_date"

  predicate HasParquetSuffix(key: string)
  {
    |key| >= |ParquetSuffix| && key[|key| - |ParquetSuffix|..] == ParquetSuffix
  }

  /** The suffix test is `str.endswith`: the key is some string followed by
      ".parquet". */
  lemma HasParquetSuffixIsEndsWith(key: string)
    ensures HasParquetSuffix(key) <==> exists stem :: key == stem + ParquetSuffix
  {
    if HasParquetSuffix(key) {
      var stem := key[..|key| - |ParquetSuffix|];
      assert key == stem + ParquetSuffix;
    }
    if exists stem :: key == stem + ParquetSuffix {
      var stem :| key == stem + ParquetSuffix;
      assert key[|key| - |ParquetSuffix|..] == ParquetSuffix;
    }
  }

  /** The keys ending in ".parquet", in listing order, each as often as it
      was listed. */
  function ParquetKeys(keys: seq<string>): (r: seq<string>)
    ensures Subsequence(r, keys)
    ensures forall i :: 0 <= i < |r| ==> HasParquetSuffix(r[i])
    ensures forall k :: multiset(r)[k] == if HasParquetSuffix(k) then multiset(keys)[k] else 0
  {
    if |keys| == 0 then []
    else
      var rest := ParquetKeys(keys[1..]);
      assert keys == [keys[0]] + keys[1..];
      if HasParquetSuffix(keys[0]) then
        assert ([keys[0]] + rest)[1..] == rest;
        [keys[0]] + rest
      else
        rest
  }

  /** The source files of a run; an error when the listing holds none. */
  function SourceKeys(listing: seq<string>): (r: Result<seq<string>, EtlError>)
    ensures r.Failure? <==> forall i :: 0 <= i < |listing| ==> !HasParquetSuffix(listing[i])
    ensures r.Failure? ==> r.error == NoParquetFiles
    ensures r.Success? ==> |r.value| > 0 && r.value == ParquetKeys(listing)
  {
    var keys := ParquetKeys(listing);
    if |keys| == 0 then
      forall i | 0 <= i < |listing| ensures !HasParquetSuffix(listing[i]) {
        assert listing[i] in multiset(listing);
      }
      Failure(NoParquetFiles)
    else
      assert keys[0] in multiset(keys);
      Success(keys)
  }

  /** A raw cell of a column not yet typed as datetime. */
  datatype RawCell = NullCell | TextCell(text: string) | NumberCell(n: int)

  /** A column as decoded from a file: already of a datetime type (missing
      values as None), or of some other type. */
  datatype SourceColumn =
    | DatetimeColumn(values: seq<Option<Timestamp>>)
    | RawColumn(cells: seq<RawCell>)

  datatype SourceTable = SourceTable(columns: map<string, SourceColumn>)

  /** The coercing datetime conversion of a raw column: `coerce(cells)` is
      the cell parser it settles on for that column (the format it infers from
      the column's values), and a cell it cannot parse gives None. */
  type Coercion = seq<RawCell> -> RawCell -> Option<Timestamp>

  /** The column as timestamps: a datetime column is kept as it is; any other
      is converted cell by cell, a missing cell giving a missing timestamp and
      every other cell going through the parser the coercion picks for the
      column. */
  function AsDatetime(c: SourceColumn, coerce: Coercion): (r: seq<Option<Timestamp>>)
    ensures c.DatetimeColumn? ==> r == c.values
    ensures c.RawColumn? ==> |r| == |c.cells|
    ensures c.RawColumn? ==> forall i :: 0 <= i < |c.cells| && c.cells[i].NullCell? ==> r[i] == None
    ensures c.RawColumn? ==>
      forall i :: 0 <= i < |c.cells| && !c.cells[i].NullCell? ==> r[i] == coerce(c.cells)(c.cells[i])
  {
    match c
    case DatetimeColumn(values) => values
    case RawColumn(cells) =>
      var parse := coerce(cells);
      seq(|cells|, i requires 0 <= i < |cells| => if cells[i].NullCell? then None else parse(cells[i]))
  }

  /** A timestamp converted from a raw column comes from a non-missing cell
      that the column's parser reads as that timestamp, and every such cell
      gives its timestamp. */
  lemma RawTimestampsComeFromCells(cells: seq<RawCell>, coerce: Coercion, u: Timestamp)
    ensures Some(u) in AsDatetime(RawColumn(cells), coerce) <==>
      exists i :: 0 <= i < |cells| && !cells[i].NullCell? && coerce(cells)(cells[i]) == Some(u)
  {
    var r := AsDatetime(RawColumn(cells), coerce);
    if Some(u) in r {
      var i :| 0 <= i < |r| && r[i] == Some(u);
      assert !cells[i].NullCell?;
    }
    if exists i :: 0 <= i < |cells| && !cells[i].NullCell? && coerce(cells)(cells[i]) == Some(u) {
      var i :| 0 <= i < |cells| && !cells[i].NullCell? && coerce(cells)(cells[i]) == Some(u);
      assert r[i] == Some(u);
    }
  }

  /** A `rental_date` column holding only missing cells loads no timestamp,
      whatever parser the coercion picks. */
  lemma AllMissingLoadsNothing(key: string, t: SourceTable, coerce: Coercion)
    requires RentalDate in t.columns && t.columns[RentalDate].RawColumn?
    requires forall i :: 0 <= i < |t.columns[RentalDate].cells| ==> t.columns[RentalDate].cells[i].NullCell?
    ensures LoadTable(key, t, coerce) == Success([])
  {
    var s := AsDatetime(t.columns[RentalDate], coerce);
    assert forall i :: 0 <= i < |s| ==> s[i] == None;
    DropMissingAllNone(s);
  }

  /** A column with no present value gives no timestamp. */
  lemma {:induction false} DropMissingAllNone(s: seq<Option<Timestamp>>)
    requires forall i :: 0 <= i < |s| ==> s[i].None?
    ensures DropMissing(s) == []
    decreases |s|
  {
    if |s| > 0 {
      DropMissingAllNone(s[1..]);
    }
  }

  /** The present values of an optional column, in order. */
  function DropMissing(s: seq<Option<Timestamp>>): (r: seq<Timestamp>)
    ensures |r| <= |s|
    ensures forall t :: t in r <==> Some(t) in s
  {
    if |s| == 0 then []
    else
      var rest := DropMissing(s[1..]);
      assert s == [s[0]] + s[1..];
      match s[0]
      case Some(t) => [t] + rest
      case None => rest
  }

  /** Dropping the missing values keeps the present ones in their order. */
  lemma {:induction false} DropMissingKeepsOrder(s: seq<Option<Timestamp>>)
    ensures Subsequence(Present(DropMissing(s)), s)
    decreases |s|
  {
    if |s| > 0 {
      var rest := DropMissing(s[1..]);
      DropMissingKeepsOrder(s[1..]);
      if s[0].Some? {
        var t := s[0].value;
        assert DropMissing(s) == [t] + rest;
        assert Present([t] + rest)[1..] == Present(rest);
      } else {
        assert DropMissing(s) == rest;
      }
    }
  }

  /** Dropping the missing values keeps each present one as often as it
      occurs. */
  lemma {:induction false} DropMissingKeepsCounts(s: seq<Option<Timestamp>>)
    ensures forall t :: multiset(DropMissing(s))[t] == multiset(s)[Some(t)]
    decreases |s|
  {
    if |s| > 0 {
      var rest := DropMissing(s[1..]);
      DropMissingKeepsCounts(s[1..]);
      assert s == [s[0]] + s[1..];
      assert multiset(s) == multiset([s[0]]) + multiset(s[1..]);
      if s[0].Some? {
        var t := s[0].value;
        assert DropMissing(s) == [t] + rest;
        assert multiset([t] + rest) == multiset([t]) + multiset(rest);
      } else {
        assert DropMissing(s) == rest;
      }
    }
  }

  function Present(r: seq<Timestamp>): (p: seq<Option<Timestamp>>)
    ensures |p| == |r|
    ensures forall i :: 0 <= i < |r| ==> p[i] == Some(r[i])
  {
    seq(|r|, i requires 0 <= i < |r| => Some(r[i]))
  }

  /** One file's rental timestamps: an error when the file has no
      `rental_date` column, otherwise the column's present values. */
  function LoadTable(key: string, t: SourceTable, coerce: Coercion): (r: Result<seq<Timestamp>, EtlError>)
    ensures r.Failure? <==> RentalDate !in t.columns
    ensures r.Failure? ==> r.error == MissingRentalDate(key)
    ensures r.Success? ==> forall u :: u in r.value <==> Some(u) in AsDatetime(t.columns[RentalDate], coerce)
  {
    if RentalDate !in t.columns then Failure(MissingRentalDate(key))
    else
      Success(DropMissing(AsDatetime(t.columns[RentalDate], coerce)))
  }

  /** `u` is a present `rental_date` value of one of the files. */
  predicate LoadedFrom(u: Timestamp, keys: seq<string>, fetch: string -> SourceTable,
                       coerce: Coercion)
  {
    exists i :: 0 <= i < |keys| && RentalDate in fetch(keys[i]).columns
      && Some(u) in AsDatetime(fetch(keys[i]).columns[RentalDate], coerce)
  }

  /** All files' rental timestamps, concatenated in key order; the first file
      without a `rental_date` column aborts the load. */
  function LoadAll(keys: seq<string>, fetch: string -> SourceTable,
                   coerce: Coercion): (r: Result<seq<Timestamp>, EtlError>)
    ensures r.Success? <==> forall i :: 0 <= i < |keys| ==> RentalDate in fetch(keys[i]).columns
    ensures r.Failure? ==>
      exists i :: 0 <= i < |keys| && r.error == MissingRentalDate(keys[i])
        && RentalDate !in fetch(keys[i]).columns
        && forall j :: 0 <= j < i ==> RentalDate in fetch(keys[j]).columns
    ensures r.Success? ==> forall u :: u in r.value <==> LoadedFrom(u, keys, fetch, coerce)
  {
    if |keys| == 0 then Success([])
    else
      var first := LoadTable(keys[0], fetch(keys[0]), coerce);
      if first.Failure? then Failure(first.error)
      else
        var rest := LoadAll(keys[1..], fetch, coerce);
        if rest.Failure? then
          var i :| 0 <= i < |keys[1..]| && rest.error == MissingRentalDate(keys[1..][i])
            && RentalDate !in fetch(keys[1..][i]).columns
            && forall j :: 0 <= j < i ==> RentalDate in fetch(keys[1..][j]).columns;
          assert keys[i + 1] == keys[1..][i];
          Failure(rest.error)
        else
          var all := first.value + rest.value;
          forall u ensures u in all <==> LoadedFrom(u, keys, fetch, coerce) {
            LoadedFromSplit(u, keys, fetch, coerce);
          }
          Success(all)
  }

  lemma LoadedFromSplit(u: Timestamp, keys: seq<string>, fetch: string -> SourceTable,
                        coerce: Coercion)
    requires |keys| > 0
    ensures LoadedFrom(u, keys, fetch, coerce) <==>
      (RentalDate in fetch(keys[0]).columns && Some(u) in AsDatetime(fetch(keys[0]).columns[RentalDate], coerce))
      || LoadedFrom(u, keys[1..], fetch, coerce)
  {
    if LoadedFrom(u, keys, fetch, coerce) {
      var i :| 0 <= i < |keys| && RentalDate in fetch(keys[i]).columns
        && Some(u) in AsDatetime(fetch(keys[i]).columns[RentalDate], coerce);
      if i > 0 {
        assert keys[1..][i - 1] == keys[i];
      }
    }
    if LoadedFrom(u, keys[1..], fetch, coerce) {
      var i :| 0 <= i < |keys[1..]| && RentalDate in fetch(keys[1..][i]).columns
        && Some(u) in AsDatetime(fetch(keys[1..][i]).columns[RentalDate], coerce);
      assert keys[i + 1] == keys[1..][i];
    }
  }
}
