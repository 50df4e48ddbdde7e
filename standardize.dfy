/** Source categories and string standardisation of the joined frame. */
module Standardize {
  import opened Values
  import opened Frames

  // ---------------------------------------------------------------------
  // get_referral_source_category
  // ---------------------------------------------------------------------

  /** `get_referral_source_category(row)`: `row[...]` raises KeyError on a
      missing label; `source_category` is read only for leads. */
  function SourceCategory(row: Row): Result<Value>
  {
    if "referral_source" !in row then Failure(KeyError("referral_source"))
    else if row["referral_source"] == Text("User Sign Up") then Success(Text("Online"))
    else if row["referral_source"] == Text("Draft Transaction") then Success(Text("Offline"))
    else if row["referral_source"] == Text("Lead") then
      if "source_category" in row then Success(row["source_category"]) else Failure(KeyError("source_category"))
    else Success(Null)
  }

  /** The four rules of the categoriser, and its two failures. */
  lemma SourceCategorySpec(row: Row)
    ensures SourceCategory(row) == Failure(KeyError("referral_source")) <==> "referral_source" !in row
    ensures SourceCategory(row) == Failure(KeyError("source_category")) <==>
              Get(row, "referral_source") == Text("Lead") && "source_category" !in row
    ensures Get(row, "referral_source") == Text("User Sign Up") ==> SourceCategory(row) == Success(Text("Online"))
    ensures Get(row, "referral_source") == Text("Draft Transaction") ==> SourceCategory(row) == Success(Text("Offline"))
    ensures Get(row, "referral_source") == Text("Lead") && "source_category" in row ==>
              SourceCategory(row) == Success(row["source_category"])
    ensures "referral_source" in row && row["referral_source"] !in [Text("User Sign Up"), Text("Draft Transaction"), Text("Lead")] ==>
              SourceCategory(row) == Success(Null)
  {
  }

  /** `df.apply(get_referral_source_category, axis=1)`: the first failing
      row, in row order, stops the apply. */
  function SourceCategories(rows: seq<Row>): (r: Result<seq<Value>>)
    ensures r.Success? ==> |r.value| == |rows|
    decreases |rows|
  {
    if rows == [] then Success([])
    else
      var before :- SourceCategories(rows[..|rows| - 1]);
      var category :- SourceCategory(rows[|rows| - 1]);
      Success(before + [category])
  }

  /** The apply succeeds exactly when every row can be categorised, and then
      gives each row its own category. */
  lemma {:induction false} SourceCategoriesSpec(rows: seq<Row>)
    ensures SourceCategories(rows).Success? <==> forall i :: 0 <= i < |rows| ==> SourceCategory(rows[i]).Success?
    ensures SourceCategories(rows).Success? ==>
              forall i :: 0 <= i < |rows| ==> SourceCategories(rows).value[i] == SourceCategory(rows[i]).value
    decreases |rows|
  {
    if rows != [] {
      var prefix := rows[..|rows| - 1];
      SourceCategoriesSpec(prefix);
      if SourceCategories(rows).Success? {
        assert forall i :: 0 <= i < |prefix| ==> prefix[i] == rows[i];
      } else if SourceCategories(prefix).Failure? {
        var i :| 0 <= i < |prefix| && SourceCategory(prefix[i]).Failure?;
        assert prefix[i] == rows[i];
      }
    }
  }

  /** `df["referral_source_category"] = df.apply(...)`. */
  function Categorize(f: Frame): Result<Frame>
  {
    var categories :- SourceCategories(f.rows);
    Success(SetColumn(f, "referral_source_category", categories))
  }

  // ---------------------------------------------------------------------
  // astype(str).str.title()
  // ---------------------------------------------------------------------

  predicate IsUpper(c: char) { 'A' <= c <= 'Z' }
  predicate IsLower(c: char) { 'a' <= c <= 'z' }
  predicate Cased(c: char) { IsUpper(c) || IsLower(c) }

  function ToUpper(c: char): (r: char)
    ensures Cased(r) <==> Cased(c)
    ensures !IsLower(r)
  {
    if IsLower(c) then (c as int - 32) as char else c
  }

  function ToLower(c: char): (r: char)
    ensures Cased(r) <==> Cased(c)
    ensures !IsUpper(r)
  {
    if IsUpper(c) then (c as int + 32) as char else c
  }

  /** `str.title` from a position whose previous character is cased or not. */
  function TitleFrom(s: string, afterCased: bool): string
    decreases |s|
  {
    if s == [] then []
    else [if afterCased then ToLower(s[0]) else ToUpper(s[0])] + TitleFrom(s[1..], Cased(s[0]))
  }

  /** `str.title`: a letter is upper-cased when the character before it is
      not a letter and lower-cased otherwise. */
  function Title(s: string): string
  {
    TitleFrom(s, false)
  }

  lemma {:induction false} TitleFromAt(s: string, afterCased: bool, i: nat)
    requires i < |s|
    ensures |TitleFrom(s, afterCased)| == |s|
    ensures TitleFrom(s, afterCased)[i] ==
              if (if i == 0 then afterCased else Cased(s[i - 1])) then ToLower(s[i]) else ToUpper(s[i])
    decreases |s|
  {
    if i > 0 {
      TitleFromAt(s[1..], Cased(s[0]), i - 1);
    } else if |s| > 1 {
      TitleFromAt(s[1..], Cased(s[0]), 0);
    }
  }

  /** Character by character: same length; each letter is upper-case exactly
      at the start of a run of letters. */
  lemma TitleAt(s: string)
    ensures |Title(s)| == |s|
    ensures forall i :: 0 <= i < |s| ==>
              Title(s)[i] == if i > 0 && Cased(s[i - 1]) then ToLower(s[i]) else ToUpper(s[i])
  {
    if s == [] {
    } else {
      TitleFromAt(s, false, 0);
    }
    forall i | 0 <= i < |s|
      ensures Title(s)[i] == if i > 0 && Cased(s[i - 1]) then ToLower(s[i]) else ToUpper(s[i])
    {
      TitleFromAt(s, false, i);
    }
  }

  /** Title-casing a title-cased string changes nothing. */
  lemma TitleIdempotent(s: string)
    ensures Title(Title(s)) == Title(s)
  {
    var t := Title(s);
    TitleAt(s);
    TitleAt(t);
    forall i | 0 <= i < |s|
      ensures Title(t)[i] == t[i]
    {
      if i > 0 {
        assert t[i - 1] == if i - 1 > 0 && Cased(s[i - 2]) then ToLower(s[i - 1]) else ToUpper(s[i - 1]);
        assert Cased(t[i - 1]) == Cased(s[i - 1]);
      }
    }
  }

  /** `str()` of a cell as `astype(str)` writes it: a missing value becomes
      "nan", flags "True" and "False"; numbers and timestamps as the library
      renders them. */
  function Str(v: Value, lib: Library): string
  {
    match v
    case Null => "nan"
    case Text(s) => s
    case Flag(b) => if b then "True" else "False"
    case Number(_) => lib.render(v)
    case Stamp(_) => lib.render(v)
  }

  /** The standardised text of a cell. */
  function Standard(v: Value, lib: Library): Value
  {
    Text(Title(Str(v, lib)))
  }

  /** A missing cell reads "Nan" after standardisation; standardising a
      standardised cell changes nothing. */
  lemma StandardSpec(v: Value, lib: Library)
    ensures v.Null? ==> Standard(v, lib) == Text("Nan")
    ensures Standard(Standard(v, lib), lib) == Standard(v, lib)
    ensures v.Text? ==> Standard(v, lib) == Text(Title(v.s))
  {
    TitleIdempotent(Str(v, lib));
    if v.Null? {
      TitleAt("nan");
    }
  }

  /** The columns whose text is title-cased; `referrer_homeclub` is not one
      of them. */
  const StringColumns: seq<string> := [
    "referrer_name", "referee_name", "referral_source", "referral_status",
    "transaction_status", "transaction_type", "transaction_location"]

  /** `df[c] = df[c].astype(str).str.title()` when the frame has column `c`. */
  function StandardizeColumn(f: Frame, c: string, lib: Library): Frame
  {
    if c in f.columns then
      SetColumn(f, c, seq(|f.rows|, i requires 0 <= i < |f.rows| => Standard(Get(f.rows[i], c), lib)))
    else f
  }

  /** The loop over `columns`. */
  function Standardized(f: Frame, columns: seq<string>, lib: Library): Frame
    decreases |columns|
  {
    if columns == [] then f
    else StandardizeColumn(Standardized(f, columns[..|columns| - 1], lib), columns[|columns| - 1], lib)
  }

  lemma StandardizeColumnSpec(f: Frame, c: string, lib: Library)
    requires WellFormed(f)
    ensures var g := StandardizeColumn(f, c, lib);
            && WellFormed(g)
            && g.columns == f.columns
            && |g.rows| == |f.rows|
            && (forall i, d :: 0 <= i < |f.rows| && d in f.columns && d != c ==> g.rows[i][d] == f.rows[i][d])
            && (forall i :: 0 <= i < |f.rows| && c in f.columns ==> g.rows[i][c] == Standard(f.rows[i][c], lib))
  {
    if c in f.columns {
      SetColumnSpec(f, c, seq(|f.rows|, i requires 0 <= i < |f.rows| => Standard(Get(f.rows[i], c), lib)));
      forall i | 0 <= i < |f.rows| ensures c in f.rows[i] {
        assert f.rows[i] in f.rows;
      }
    }
  }

  /** The loop standardises exactly the listed columns the frame has and
      leaves every other cell, the column order and the rows' order alone. */
  lemma {:induction false} StandardizedSpec(f: Frame, columns: seq<string>, lib: Library)
    requires WellFormed(f)
    ensures var g := Standardized(f, columns, lib);
            && WellFormed(g)
            && g.columns == f.columns
            && |g.rows| == |f.rows|
            && (forall i, d :: 0 <= i < |f.rows| && d in f.columns && d !in columns ==> g.rows[i][d] == f.rows[i][d])
            && (forall i, d :: 0 <= i < |f.rows| && d in f.columns && d in columns ==> g.rows[i][d] == Standard(f.rows[i][d], lib))
    decreases |columns|
  {
    if columns != [] {
      var prefix, last := columns[..|columns| - 1], columns[|columns| - 1];
      StandardizedSpec(f, prefix, lib);
      StandardizeColumnSpec(Standardized(f, prefix, lib), last, lib);
      forall i, d | 0 <= i < |f.rows| && d in f.columns && d in columns
        ensures Standardized(f, columns, lib).rows[i][d] == Standard(f.rows[i][d], lib)
      {
        if d in prefix {
          StandardSpec(f.rows[i][d], lib);
        } else {
          assert d == last;
        }
      }
    }
  }

  /** The club names are left as they are. */
  lemma HomeclubUnchanged(f: Frame, lib: Library)
    requires WellFormed(f)
    ensures var g := Standardized(f, StringColumns, lib);
            && |g.rows| == |f.rows|
            && forall i :: 0 <= i < |f.rows| ==> Get(g.rows[i], "referrer_homeclub") == Get(f.rows[i], "referrer_homeclub")
  {
    var g := Standardized(f, StringColumns, lib);
    StandardizedSpec(f, StringColumns, lib);
    assert "referrer_homeclub" !in StringColumns;
    forall i | 0 <= i < |f.rows|
      ensures Get(g.rows[i], "referrer_homeclub") == Get(f.rows[i], "referrer_homeclub")
    {
      assert f.rows[i] in f.rows && g.rows[i] in g.rows;
    }
  }

  /** Running the standardisation loop twice gives what running it once
      gives. */
  lemma StandardizedIdempotent(f: Frame, columns: seq<string>, lib: Library)
    requires WellFormed(f)
    ensures Standardized(Standardized(f, columns, lib), columns, lib) == Standardized(f, columns, lib)
  {
    var g := Standardized(f, columns, lib);
    StandardizedSpec(f, columns, lib);
    StandardizedSpec(g, columns, lib);
    var h := Standardized(g, columns, lib);
    forall i | 0 <= i < |f.rows|
      ensures h.rows[i] == g.rows[i]
    {
      assert f.rows[i] in f.rows && g.rows[i] in g.rows && h.rows[i] in h.rows;
      forall d | d in g.rows[i].Keys
        ensures h.rows[i][d] == g.rows[i][d]
      {
        if d in columns {
          StandardSpec(f.rows[i][d], lib);
        }
      }
    }
  }

  /** The standardisation loop of the script. Every frame here has distinct
      labels, so `df[c]` is always a single column. */
  method StandardizeStrings(f: Frame, lib: Library) returns (g: Frame)
    ensures g == Standardized(f, StringColumns, lib)
  {
    g := f;
    var k := 0;
    while k < |StringColumns|
      invariant 0 <= k <= |StringColumns|
      invariant g == Standardized(f, StringColumns[..k], lib)
    {
      var c := StringColumns[k];
      if c in g.columns {
        var values: seq<Value> := [];
        var i := 0;
        while i < |g.rows|
          invariant 0 <= i <= |g.rows|
          invariant values == seq(i, j requires 0 <= j < i => Standard(Get(g.rows[j], c), lib))
        {
          values := values + [Standard(Get(g.rows[i], c), lib)];
          i := i + 1;
        }
        g := SetColumn(g, c, values);
      }
      assert StringColumns[..k + 1][..k] == StringColumns[..k];
      k := k + 1;
    }
    assert StringColumns[..k] == StringColumns;
  }
}
