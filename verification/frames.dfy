/** A minimal in-memory table: named columns and rows of cells, and the
    projection `df[[c1, c2, ...]]`, which picks columns by name in the order
    asked for and fails with the missing names when some are absent.
    Column names are taken to be distinct, as they are in the dimension
    table: `Column` reads the first column of a name, whereas a table with a
    repeated name would give every column of that name. */
module Frames {
  import opened Wrappers
  import opened Seqs
  import opened Calendar

  datatype Value = IntValue(i: int) | BoolValue(b: bool) | TextValue(s: string) | DateValue(d: Date)

  datatype Frame = Frame(columns: seq<string>, rows: seq<seq<Value>>)

  /** Every row has one cell per column. */
  predicate WellFormed(f: Frame)
  {
    forall i :: 0 <= i < |f.rows| ==> |f.rows[i]| == |f.columns|
  }

  /** The cells of the (first) column called `name`, top to bottom. */
  function Column(f: Frame, name: string): (c: seq<Value>)
    requires WellFormed(f) && name in f.columns
    ensures |c| == |f.rows|
  {
    var k := FirstIndex(f.columns, name);
    seq(|f.rows|, i requires 0 <= i < |f.rows| => f.rows[i][k])
  }

  /** The requested names that are not columns of the frame, in request
      order. */
  function MissingColumns(columns: seq<string>, wanted: seq<string>): (m: seq<string>)
    ensures forall n :: n in m <==> n in wanted && n !in columns
  {
    if |wanted| == 0 then []
    else
      var rest := MissingColumns(columns, wanted[1..]);
      assert forall n :: n in wanted <==> n == wanted[0] || n in wanted[1..];
      if wanted[0] in columns then rest else [wanted[0]] + rest
  }

  /** Projection onto `wanted`: the result has exactly the requested columns
      in the requested order, each holding the same cells as the column of
      that name in `f`; any absent name is an error naming the absentees. */
  function Select(f: Frame, wanted: seq<string>): (r: Result<Frame, seq<string>>)
    requires WellFormed(f)
    ensures r.Success? <==> forall n :: n in wanted ==> n in f.columns
    ensures r.Failure? ==> |r.error| > 0 && forall n :: n in r.error <==> n in wanted && n !in f.columns
    ensures r.Success? ==> WellFormed(r.value) && r.value.columns == wanted
    ensures r.Success? ==> |r.value.rows| == |f.rows|
    ensures r.Success? ==> forall n :: n in wanted ==> Column(r.value, n) == Column(f, n)
  {
    var missing := MissingColumns(f.columns, wanted);
    if |missing| > 0 then
      assert missing[0] in missing;
      Failure(missing)
    else
      var picked := seq(|wanted|, k requires 0 <= k < |wanted| => FirstIndex(f.columns, wanted[k]));
      var rows := seq(|f.rows|, i requires 0 <= i < |f.rows| =>
                        seq(|wanted|, k requires 0 <= k < |wanted| => f.rows[i][picked[k]]));
      var g := Frame(wanted, rows);
      assert forall n :: n in wanted ==> picked[FirstIndex(wanted, n)] == FirstIndex(f.columns, n);
      Success(g)
  }
}
