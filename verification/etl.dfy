/** One run of the job: list the source keys, load and concatenate their
    rental timestamps, and build the date dimension. Listing, fetching and
    decoding a file, parsing raw values and the holiday calendar are
    parameters; writing the result out is not modelled. */
module Etl {
  import opened Wrappers
  import opened Calendar
  import opened Frames
  import opened Loader
  import opened Dimension

  function RunEtl(listing: seq<string>, fetch: string -> SourceTable,
                  coerce: Coercion,
                  isHoliday: Date -> bool): (r: Result<Frame, EtlError>)
    ensures r.Success? ==> WellFormed(r.value) && r.value.columns == DimColumns
    ensures r.Success? ==> forall i :: 0 <= i < |r.value.rows| ==>
      exists t :: LoadedFrom(t, ParquetKeys(listing), fetch, coerce) && r.value.rows[i] == RowCells(MakeRow(t.date, isHoliday))
  {
    var keys :- SourceKeys(listing);
    var stamps :- LoadAll(keys, fetch, coerce);
    BuildDimensionProvenance(stamps, isHoliday);
    Success(BuildDimension(stamps, isHoliday).value)
  }

  /** A run fails for want of source files exactly when no listed key ends
      in ".parquet". */
  lemma RunEtlNoSourceFiles(listing: seq<string>, fetch: string -> SourceTable,
                            coerce: Coercion, isHoliday: Date -> bool)
    ensures RunEtl(listing, fetch, coerce, isHoliday) == Failure(NoParquetFiles)
        <==> forall i :: 0 <= i < |listing| ==> !HasParquetSuffix(listing[i])
  {
    var keys := SourceKeys(listing);
    if keys.Success? {
      var loaded := LoadAll(keys.value, fetch, coerce);
      if loaded.Failure? {
        assert loaded.error.MissingRentalDate?;
      }
    }
  }

  /** A run succeeds exactly when some listed key ends in ".parquet" and
      every such file has a `rental_date` column. */
  lemma RunEtlSucceeds(listing: seq<string>, fetch: string -> SourceTable,
                       coerce: Coercion, isHoliday: Date -> bool)
    ensures RunEtl(listing, fetch, coerce, isHoliday).Success? <==>
      && (exists i :: 0 <= i < |listing| && HasParquetSuffix(listing[i]))
      && (forall k :: k in ParquetKeys(listing) ==> RentalDate in fetch(k).columns)
  {
    var keys := SourceKeys(listing);
    if keys.Success? {
      var ks := keys.value;
      assert HasParquetSuffix(ks[0]) && ks[0] in multiset(listing);
      AllKeysHaveColumn(ks, fetch);
      assert RunEtl(listing, fetch, coerce, isHoliday).Success? == LoadAll(ks, fetch, coerce).Success?;
    } else {
      assert RunEtl(listing, fetch, coerce, isHoliday).Failure?;
    }
  }

  /** A run that fails on a file names a source file that lacks the
      `rental_date` column. */
  lemma RunEtlMissingColumn(listing: seq<string>, fetch: string -> SourceTable,
                            coerce: Coercion, isHoliday: Date -> bool)
    ensures var r := RunEtl(listing, fetch, coerce, isHoliday);
      r.Failure? && r.error.MissingRentalDate? ==>
        r.error.key in ParquetKeys(listing) && RentalDate !in fetch(r.error.key).columns
  {
  }

  lemma AllKeysHaveColumn(keys: seq<string>, fetch: string -> SourceTable)
    ensures (forall i :: 0 <= i < |keys| ==> RentalDate in fetch(keys[i]).columns)
        <==> (forall k :: k in keys ==> RentalDate in fetch(k).columns)
  {
  }
}
