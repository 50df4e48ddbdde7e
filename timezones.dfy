/** Timezone conversion: a timestamp column is re-expressed in the zone named
    by another column of the same row, falling back to the stored value
    whenever either side is missing or the conversion fails. The conversion
    itself is the library's `toLocal`. */
module Timezones {
  import opened Values
  import opened Frames

  /** The per-row `convert` of `convert_utc_to_local`. A value that is not a
      timestamp makes `tz_localize` raise, which the handler turns into the
      value itself. */
  function ToLocal(time: Value, zone: Value, lib: Library): Value
  {
    if time.Null? || zone.Null? then time
    else if !time.Stamp? then time
    else
      match lib.toLocal(time.t, zone)
      case Some(t) => Stamp(t)
      case None => time
  }

  /** The fallback policy: the stored value comes back unchanged unless the
      time is a timestamp, the zone is present and the conversion succeeds,
      in which case the converted timestamp comes back. A missing time stays
      missing and no present time becomes missing. */
  lemma ToLocalSpec(time: Value, zone: Value, lib: Library)
    ensures var converts := time.Stamp? && !zone.Null? && lib.toLocal(time.t, zone).Some?;
            && (converts ==> ToLocal(time, zone, lib) == Stamp(lib.toLocal(time.t, zone).value))
            && (!converts ==> ToLocal(time, zone, lib) == time)
    ensures ToLocal(time, zone, lib).Null? <==> time.Null?
    ensures ToLocal(time, zone, lib).Stamp? <==> time.Stamp?
  {
  }

  /** `df.apply(convert, axis=1)`. Rows are visited in order; a row reads its
      time first and reads its zone only when the time is present, so a
      missing time column fails on the first row and a missing zone column
      fails on the first row with a present time. */
  function ConvertUtcToLocal(f: Frame, timeColumn: string, zoneColumn: string, lib: Library): (r: Result<seq<Value>>)
    ensures r.Success? ==> |r.value| == |f.rows|
  {
    if |f.rows| > 0 && timeColumn !in f.columns then Failure(KeyError(timeColumn))
    else if zoneColumn !in f.columns && exists i :: 0 <= i < |f.rows| && !Get(f.rows[i], timeColumn).Null? then
      Failure(KeyError(zoneColumn))
    else
      Success(seq(|f.rows|, i requires 0 <= i < |f.rows| =>
        ToLocal(Get(f.rows[i], timeColumn), Get(f.rows[i], zoneColumn), lib)))
  }

  /** `df[timeColumn] = convert_utc_to_local(df, timeColumn, zoneColumn)`. */
  function ConvertColumn(f: Frame, timeColumn: string, zoneColumn: string, lib: Library): Result<Frame>
  {
    var values :- ConvertUtcToLocal(f, timeColumn, zoneColumn, lib);
    Success(SetColumn(f, timeColumn, values))
  }

  /** Conversion of a column fails exactly on a missing time column (with
      rows to visit) or a missing zone column (with a present time to
      convert); otherwise it rewrites that one column cell by cell under the
      fallback policy and keeps every other cell and the frame's shape. */
  lemma ConvertColumnSpec(f: Frame, timeColumn: string, zoneColumn: string, lib: Library)
    requires WellFormed(f)
    ensures var res := ConvertColumn(f, timeColumn, zoneColumn, lib);
            && (res.Failure? <==>
                  (|f.rows| > 0 && timeColumn !in f.columns)
                  || (zoneColumn !in f.columns && exists r: Row :: r in f.rows && timeColumn in r && !r[timeColumn].Null?))
            && (res.Success? ==>
                  && WellFormed(res.value)
                  && |res.value.rows| == |f.rows|
                  && (timeColumn in f.columns ==> res.value.columns == f.columns)
                  && (forall i :: 0 <= i < |f.rows| ==>
                        res.value.rows[i][timeColumn] == ToLocal(Get(f.rows[i], timeColumn), Get(f.rows[i], zoneColumn), lib))
                  && (forall i, c :: 0 <= i < |f.rows| && c in f.columns && c != timeColumn ==> res.value.rows[i][c] == f.rows[i][c]))
  {
    var res := ConvertColumn(f, timeColumn, zoneColumn, lib);
    if zoneColumn !in f.columns && (exists r: Row :: r in f.rows && timeColumn in r && !r[timeColumn].Null?) {
      var r: Row :| r in f.rows && timeColumn in r && !r[timeColumn].Null?;
      var i :| 0 <= i < |f.rows| && f.rows[i] == r;
      assert !Get(f.rows[i], timeColumn).Null?;
    }
    if zoneColumn !in f.columns && (exists i :: 0 <= i < |f.rows| && !Get(f.rows[i], timeColumn).Null?) {
      var i :| 0 <= i < |f.rows| && !Get(f.rows[i], timeColumn).Null?;
      assert f.rows[i] in f.rows;
    }
    if res.Success? {
      var values := ConvertUtcToLocal(f, timeColumn, zoneColumn, lib).value;
      SetColumnSpec(f, timeColumn, values);
    }
  }

  /** `if zoneColumn in df.columns: df[timeColumn] = convert_utc_to_local(...)`. */
  function ConvertIfZoned(f: Frame, timeColumn: string, zoneColumn: string, lib: Library): Result<Frame>
  {
    if zoneColumn in f.columns then ConvertColumn(f, timeColumn, zoneColumn, lib) else Success(f)
  }

  /** A guarded conversion keeps a well-formed frame well formed and keeps
      its rows; with a zone column present it fails only when the time
      column is missing and there are rows. */
  lemma ConvertIfZonedSpec(f: Frame, timeColumn: string, zoneColumn: string, lib: Library)
    requires WellFormed(f)
    ensures ConvertIfZoned(f, timeColumn, zoneColumn, lib).Failure? <==> zoneColumn in f.columns && |f.rows| > 0 && timeColumn !in f.columns
    ensures ConvertIfZoned(f, timeColumn, zoneColumn, lib).Success? ==>
              WellFormed(ConvertIfZoned(f, timeColumn, zoneColumn, lib).value)
              && |ConvertIfZoned(f, timeColumn, zoneColumn, lib).value.rows| == |f.rows|
  {
    ConvertColumnSpec(f, timeColumn, zoneColumn, lib);
  }
}
