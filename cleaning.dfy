/** Data cleaning: the configured timestamp columns of the seven source
    tables are parsed, then every table loses its exact duplicate rows. The
    `tables` dictionary is a map from table name to frame; the script's named
    frame variables alias its entries, so later stages read the cleaned frames
    back from the map. */
module Cleaning {
  import opened Values
  import opened Frames

  /** The seven tables, in the order the dictionary lists them. */
  const TableNames: seq<string> := [
    "user_referrals", "user_referral_logs", "user_logs", "user_referral_statuses",
    "referral_rewards", "paid_transactions", "lead_logs"]

  /** The timestamp columns of each table, in the order they are parsed. */
  const DatetimeColumns: seq<(string, seq<string>)> := [
    ("user_referrals", ["referral_at", "updated_at"]),
    ("user_referral_logs", ["created_at"]),
    ("user_logs", ["membership_expired_date"]),
    ("user_referral_statuses", ["created_at"]),
    ("referral_rewards", ["created_at"]),
    ("paid_transactions", ["transaction_at"]),
    ("lead_logs", ["created_at"])]

  /** `pd.to_datetime(errors="coerce")` on one cell: missing values and
      timestamps pass through, anything else is parsed or becomes missing. */
  function ToDateTime(v: Value, lib: Library): (r: Value)
    ensures r.Null? || r.Stamp?
    ensures !v.Null? && !v.Stamp? ==> (r.Stamp? <==> lib.parseDate(v).Some?)
  {
    match v
    case Null => Null
    case Stamp(_) => v
    case _ =>
      match lib.parseDate(v)
      case Some(t) => Stamp(t)
      case None => Null
  }

  /** Parsing an already parsed cell changes nothing. */
  lemma ToDateTimeIdempotent(v: Value, lib: Library)
    ensures ToDateTime(ToDateTime(v, lib), lib) == ToDateTime(v, lib)
    ensures v.Null? || v.Stamp? ==> ToDateTime(v, lib) == v
  {
  }

  /** `tables[name][c] = pd.to_datetime(tables[name][c], errors="coerce")`,
      done only when the frame has column `c`. */
  function ParseColumn(f: Frame, c: string, lib: Library): Frame
  {
    if c in f.columns then
      SetColumn(f, c, seq(|f.rows|, i requires 0 <= i < |f.rows| => ToDateTime(Get(f.rows[i], c), lib)))
    else f
  }

  /** The inner loop over one table's timestamp columns. */
  function ParseDates(f: Frame, columns: seq<string>, lib: Library): Frame
    decreases |columns|
  {
    if columns == [] then f
    else ParseColumn(ParseDates(f, columns[..|columns| - 1], lib), columns[|columns| - 1], lib)
  }

  /** Parsing one column keeps the shape of the frame, converts that column
      cell by cell and leaves every other cell alone. */
  lemma ParseColumnSpec(f: Frame, c: string, lib: Library)
    requires WellFormed(f)
    ensures var g := ParseColumn(f, c, lib);
            && WellFormed(g)
            && g.columns == f.columns
            && |g.rows| == |f.rows|
            && (forall i, d :: 0 <= i < |f.rows| && d in f.columns && d != c ==> g.rows[i][d] == f.rows[i][d])
            && (forall i :: 0 <= i < |f.rows| && c in f.columns ==> g.rows[i][c] == ToDateTime(f.rows[i][c], lib))
  {
    if c in f.columns {
      var values := seq(|f.rows|, i requires 0 <= i < |f.rows| => ToDateTime(Get(f.rows[i], c), lib));
      SetColumnSpec(f, c, values);
      forall i | 0 <= i < |f.rows| ensures c in f.rows[i] {
        assert f.rows[i] in f.rows;
      }
    }
  }

  /** After the inner loop, exactly the listed columns the frame has are
      parsed, each once in effect; all other cells are as before. */
  lemma {:induction false} ParseDatesSpec(f: Frame, columns: seq<string>, lib: Library)
    requires WellFormed(f)
    ensures var g := ParseDates(f, columns, lib);
            && WellFormed(g)
            && g.columns == f.columns
            && |g.rows| == |f.rows|
            && (forall i, d :: 0 <= i < |f.rows| && d in f.columns && d !in columns ==> g.rows[i][d] == f.rows[i][d])
            && (forall i, d :: 0 <= i < |f.rows| && d in f.columns && d in columns ==> g.rows[i][d] == ToDateTime(f.rows[i][d], lib))
    decreases |columns|
  {
    if columns != [] {
      var prefix, last := columns[..|columns| - 1], columns[|columns| - 1];
      ParseDatesSpec(f, prefix, lib);
      var h := ParseDates(f, prefix, lib);
      ParseColumnSpec(h, last, lib);
      forall i, d | 0 <= i < |f.rows| && d in f.columns && d in columns
        ensures ParseDates(f, columns, lib).rows[i][d] == ToDateTime(f.rows[i][d], lib)
      {
        if d in prefix {
          ToDateTimeIdempotent(f.rows[i][d], lib);
        } else {
          assert d == last;
        }
      }
    }
  }

  /** The outer loop over the (table, columns) entries. */
  function ParseAll(tables: map<string, Frame>, entries: seq<(string, seq<string>)>, lib: Library): (r: map<string, Frame>)
    ensures r.Keys == tables.Keys
    decreases |entries|
  {
    if entries == [] then tables
    else
      var before := ParseAll(tables, entries[..|entries| - 1], lib);
      var (name, columns) := entries[|entries| - 1];
      if name in before then before[name := ParseDates(before[name], columns, lib)] else before
  }

  /** The loop `for df in tables.values(): df.drop_duplicates(inplace=True)`. */
  function DedupAll(tables: map<string, Frame>, names: seq<string>): (r: map<string, Frame>)
    ensures r.Keys == tables.Keys
    decreases |names|
  {
    if names == [] then tables
    else
      var before := DedupAll(tables, names[..|names| - 1]);
      var name := names[|names| - 1];
      if name in before then before[name := Frame(before[name].columns, Dedup(before[name].rows))] else before
  }

  /** What the cleaning step leaves in the dictionary. */
  function Cleaned(tables: map<string, Frame>, lib: Library): map<string, Frame>
  {
    DedupAll(ParseAll(tables, DatetimeColumns, lib), TableNames)
  }

  function EntryNames(entries: seq<(string, seq<string>)>): (names: seq<string>)
    ensures |names| == |entries|
    ensures forall k :: 0 <= k < |entries| ==> names[k] == entries[k].0
  {
    seq(|entries|, k requires 0 <= k < |entries| => entries[k].0)
  }

  /** When every table is listed once, the outer loop parses each listed
      table with its own columns and touches no other table. */
  lemma {:induction false} ParseAllAt(tables: map<string, Frame>, entries: seq<(string, seq<string>)>, lib: Library)
    requires NoDup(EntryNames(entries))
    ensures forall name :: name in tables && name !in EntryNames(entries) ==> ParseAll(tables, entries, lib)[name] == tables[name]
    ensures forall k :: 0 <= k < |entries| && entries[k].0 in tables ==>
              ParseAll(tables, entries, lib)[entries[k].0] == ParseDates(tables[entries[k].0], entries[k].1, lib)
    decreases |entries|
  {
    if entries != [] {
      var prefix := entries[..|entries| - 1];
      assert EntryNames(prefix) == EntryNames(entries)[..|entries| - 1];
      ParseAllAt(tables, prefix, lib);
      forall k | 0 <= k < |entries| && entries[k].0 in tables
        ensures ParseAll(tables, entries, lib)[entries[k].0] == ParseDates(tables[entries[k].0], entries[k].1, lib)
      {
        if k < |entries| - 1 {
          assert EntryNames(entries)[k] != EntryNames(entries)[|entries| - 1];
          assert prefix[k] == entries[k];
        }
      }
    }
  }

  /** When every name is listed once, the de-duplication loop de-duplicates
      each listed table and touches no other. */
  lemma {:induction false} DedupAllAt(tables: map<string, Frame>, names: seq<string>)
    requires NoDup(names)
    ensures forall name :: name in tables && name !in names ==> DedupAll(tables, names)[name] == tables[name]
    ensures forall name :: name in tables && name in names ==>
              DedupAll(tables, names)[name] == Frame(tables[name].columns, Dedup(tables[name].rows))
    decreases |names|
  {
    if names != [] {
      var prefix := names[..|names| - 1];
      DedupAllAt(tables, prefix);
      forall name | name in tables && name in names
        ensures DedupAll(tables, names)[name] == Frame(tables[name].columns, Dedup(tables[name].rows))
      {
        if name != names[|names| - 1] {
          var k :| 0 <= k < |names| && names[k] == name;
          assert name in prefix;
        }
      }
    }
  }

  /** Every cell of the listed columns the frame has is a timestamp or
      missing. */
  predicate TimestampsOnly(f: Frame, columns: seq<string>)
  {
    forall r, c :: r in f.rows && c in columns && c in f.columns ==> Get(r, c).Null? || Get(r, c).Stamp?
  }

  /** Each table is configured once, in dictionary order. */
  lemma ConfiguredTables()
    ensures EntryNames(DatetimeColumns) == TableNames
    ensures NoDup(TableNames)
  {
  }

  /** One table after cleaning. */
  function CleanFrame(f: Frame, columns: seq<string>, lib: Library): Frame
  {
    var g := ParseDates(f, columns, lib);
    Frame(g.columns, Dedup(g.rows))
  }

  /** A cleaned table keeps its columns, holds the first occurrence of each
      of its parsed rows in order, has no two equal rows, and holds only
      timestamps or missing values in its timestamp columns. */
  lemma CleanFrameSpec(f: Frame, columns: seq<string>, lib: Library)
    requires WellFormed(f)
    ensures var out := CleanFrame(f, columns, lib);
            && out.columns == f.columns
            && WellFormed(out)
            && NoDup(out.rows)
            && TimestampsOnly(out, columns)
            && forall r :: r in out.rows <==> r in ParseDates(f, columns, lib).rows
  {
    var g := ParseDates(f, columns, lib);
    ParseDatesSpec(f, columns, lib);
    DedupElements(g.rows);
    DedupNoDup(g.rows);
    var out := CleanFrame(f, columns, lib);
    forall r, c | r in out.rows && c in columns && c in out.columns
      ensures Get(r, c).Null? || Get(r, c).Stamp?
    {
      var i :| 0 <= i < |g.rows| && g.rows[i] == r;
      assert ToDateTime(f.rows[i][c], lib) == r[c];
    }
  }

  /** With a configuration that lists each table once, the `k`-th
      configured table is parsed with its own columns and then
      de-duplicated. */
  lemma CleanedEntryAt(tables: map<string, Frame>, entries: seq<(string, seq<string>)>, lib: Library, k: nat)
    requires NoDup(EntryNames(entries))
    requires k < |entries| && entries[k].0 in tables
    ensures var out := DedupAll(ParseAll(tables, entries, lib), EntryNames(entries));
            entries[k].0 in out && out[entries[k].0] == CleanFrame(tables[entries[k].0], entries[k].1, lib)
  {
    ParseAllAt(tables, entries, lib);
    DedupAllAt(ParseAll(tables, entries, lib), EntryNames(entries));
    assert EntryNames(entries)[k] == entries[k].0;
  }

  /** Cleaning gives the `k`-th configured table its own treatment. */
  lemma CleanedAt(tables: map<string, Frame>, lib: Library, k: nat)
    requires forall name :: name in TableNames ==> name in tables
    requires k < |DatetimeColumns|
    ensures Cleaned(tables, lib)[DatetimeColumns[k].0] == CleanFrame(tables[DatetimeColumns[k].0], DatetimeColumns[k].1, lib)
  {
    ConfiguredTables();
    assert DatetimeColumns[k].0 == TableNames[k];
    CleanedEntryAt(tables, DatetimeColumns, lib, k);
  }

  /** Under a configuration that lists each table once, every configured
      table comes out well formed, duplicate-free and parsed. */
  lemma CleanedEntriesSpec(tables: map<string, Frame>, entries: seq<(string, seq<string>)>, lib: Library)
    requires NoDup(EntryNames(entries))
    requires forall k :: 0 <= k < |entries| ==> entries[k].0 in tables && WellFormed(tables[entries[k].0])
    ensures forall k :: 0 <= k < |entries| ==>
              var out := DedupAll(ParseAll(tables, entries, lib), EntryNames(entries))[entries[k].0];
              WellFormed(out) && NoDup(out.rows) && TimestampsOnly(out, entries[k].1)
  {
    forall k | 0 <= k < |entries|
      ensures var out := DedupAll(ParseAll(tables, entries, lib), EntryNames(entries))[entries[k].0];
              WellFormed(out) && NoDup(out.rows) && TimestampsOnly(out, entries[k].1)
    {
      CleanedEntryAt(tables, entries, lib, k);
      CleanFrameSpec(tables[entries[k].0], entries[k].1, lib);
    }
  }

  /** Cleaning keeps the dictionary's keys, and every configured table comes
      out well formed, duplicate-free and parsed. */
  lemma CleanedSpec(tables: map<string, Frame>, lib: Library)
    requires forall name :: name in TableNames ==> name in tables && WellFormed(tables[name])
    ensures Cleaned(tables, lib).Keys == tables.Keys
    ensures forall k :: 0 <= k < |DatetimeColumns| ==>
              var out := Cleaned(tables, lib)[DatetimeColumns[k].0];
              WellFormed(out) && NoDup(out.rows) && TimestampsOnly(out, DatetimeColumns[k].1)
  {
    ConfiguredTables();
    forall k | 0 <= k < |DatetimeColumns|
      ensures DatetimeColumns[k].0 in tables && WellFormed(tables[DatetimeColumns[k].0])
    {
      assert DatetimeColumns[k].0 == TableNames[k];
    }
    CleanedEntriesSpec(tables, DatetimeColumns, lib);
  }

  /** Every one of the seven tables is still there and well formed after
      cleaning. */
  lemma CleanedTablesWellFormed(tables: map<string, Frame>, lib: Library)
    requires forall name :: name in TableNames ==> name in tables && WellFormed(tables[name])
    ensures forall name :: name in TableNames ==> name in Cleaned(tables, lib) && WellFormed(Cleaned(tables, lib)[name])
  {
    CleanedSpec(tables, lib);
    ConfiguredTables();
    forall name | name in TableNames
      ensures name in Cleaned(tables, lib) && WellFormed(Cleaned(tables, lib)[name])
    {
      var k :| 0 <= k < |TableNames| && TableNames[k] == name;
      assert DatetimeColumns[k].0 == name;
    }
  }

  /** The inner loop: parse each listed column the frame has, in order. */
  method ParseTable(f: Frame, columns: seq<string>, lib: Library) returns (g: Frame)
    ensures g == ParseDates(f, columns, lib)
  {
    g := f;
    var j := 0;
    while j < |columns|
      invariant 0 <= j <= |columns|
      invariant g == ParseDates(f, columns[..j], lib)
    {
      assert columns[..j + 1][..j] == columns[..j];
      g := ParseColumn(g, columns[j], lib);
      j := j + 1;
    }
    assert columns[..j] == columns;
  }

  /** The outer parsing loop over the (table, columns) entries. */
  method ParseTables(tables: map<string, Frame>, entries: seq<(string, seq<string>)>, lib: Library) returns (parsed: map<string, Frame>)
    ensures parsed == ParseAll(tables, entries, lib)
  {
    parsed := tables;
    var i := 0;
    while i < |entries|
      invariant 0 <= i <= |entries|
      invariant parsed == ParseAll(tables, entries[..i], lib)
    {
      var (name, columns) := entries[i];
      if name in parsed {
        var g := ParseTable(parsed[name], columns, lib);
        parsed := parsed[name := g];
      }
      assert entries[..i + 1][..i] == entries[..i];
      i := i + 1;
    }
    assert entries[..i] == entries;
  }

  /** The loop calling `drop_duplicates(inplace=True)` on every table. */
  method DedupTables(tables: map<string, Frame>, names: seq<string>) returns (deduped: map<string, Frame>)
    ensures deduped == DedupAll(tables, names)
  {
    deduped := tables;
    var k := 0;
    while k < |names|
      invariant 0 <= k <= |names|
      invariant deduped == DedupAll(tables, names[..k])
    {
      var name := names[k];
      if name in deduped {
        var g := DropDuplicates(deduped[name]);
        deduped := deduped[name := g];
      }
      assert names[..k + 1][..k] == names[..k];
      k := k + 1;
    }
    assert names[..k] == names;
  }

  /** The cleaning loops of the script, on the tables dictionary. */
  method CleanTables(tables: map<string, Frame>, lib: Library) returns (cleaned: map<string, Frame>)
    ensures cleaned == Cleaned(tables, lib)
  {
    var parsed := ParseTables(tables, DatetimeColumns, lib);
    cleaned := DedupTables(parsed, TableNames);
  }
}
