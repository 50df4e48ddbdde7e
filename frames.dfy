/** DataFrames as values: a column list and a sequence of rows, with the
    pandas operations the script applies to whole frames (exact-row
    de-duplication, column selection, renaming, column assignment). */
module Frames {
  import opened Values

  datatype Frame = Frame(columns: seq<string>, rows: seq<Row>)

  function ColumnSet(columns: seq<string>): set<string>
  {
    set c | c in columns
  }

  predicate NoDup<T(==)>(s: seq<T>)
  {
    forall i, j :: 0 <= i < j < |s| ==> s[i] != s[j]
  }

  /** Two label lists without repeats that share no label concatenate to
      one without repeats. */
  lemma NoDupAppend<T>(a: seq<T>, b: seq<T>)
    requires NoDup(a) && NoDup(b)
    requires forall x :: x in a ==> x !in b
    ensures NoDup(a + b)
  {
    forall i, j | 0 <= i < j < |a + b|
      ensures (a + b)[i] != (a + b)[j]
    {
      if i < |a| <= j {
        assert (a + b)[i] in a && (a + b)[j] in b;
      }
    }
  }

  /** Distinct column labels, and every row has exactly those labels. */
  predicate WellFormed(f: Frame)
  {
    && NoDup(f.columns)
    && forall r :: r in f.rows ==> r.Keys == ColumnSet(f.columns)
  }

  /** The rows of a frame as a set: what survives exact-row de-duplication. */
  ghost function Distinct<T>(s: seq<T>): set<T>
  {
    set x | x in s
  }

  // ---------------------------------------------------------------------
  // drop_duplicates (keep="first")
  // ---------------------------------------------------------------------

  /** Keeps an element exactly when it does not occur earlier. */
  function Dedup<T(==)>(s: seq<T>): seq<T>
    decreases |s|
  {
    if s == [] then []
    else if s[|s| - 1] in s[..|s| - 1] then Dedup(s[..|s| - 1])
    else Dedup(s[..|s| - 1]) + [s[|s| - 1]]
  }

  /** Position of the first occurrence of `x` in `s`: its position in the
      prefix without the last element when it occurs there, else the end. */
  function FirstIndex<T(==)>(s: seq<T>, x: T): (k: nat)
    requires x in s
    ensures k < |s| && s[k] == x
    decreases |s|
  {
    var p := s[..|s| - 1];
    if x in p then
      var k := FirstIndex(p, x);
      assert p[k] == s[k];
      k
    else |s| - 1
  }

  /** No occurrence of `x` comes before its first one. */
  lemma {:induction false} FirstIndexMinimal<T>(s: seq<T>, x: T, i: nat)
    requires i < |s| && s[i] == x
    ensures FirstIndex(s, x) <= i
    decreases |s|
  {
    var p := s[..|s| - 1];
    if i < |p| {
      assert p[i] == x;
      FirstIndexMinimal(p, x, i);
    }
  }

  /** De-duplication loses no value and invents none. */
  lemma {:induction false} DedupElements<T>(s: seq<T>)
    ensures forall x :: x in Dedup(s) <==> x in s
  {
    if s != [] {
      var p := s[..|s| - 1];
      DedupElements(p);
      assert s == p + [s[|s| - 1]];
    }
  }

  /** No two rows of the result are equal. */
  lemma {:induction false} DedupNoDup<T>(s: seq<T>)
    ensures NoDup(Dedup(s))
  {
    if s != [] {
      var p := s[..|s| - 1];
      DedupNoDup(p);
      DedupElements(p);
    }
  }

  /** The result lists each value at the place of its first occurrence:
      of two kept rows, the earlier one first occurs earlier in `s`. */
  lemma {:induction false} DedupFirstOccurrenceOrder<T>(s: seq<T>, i: nat, j: nat)
    requires i < j < |Dedup(s)|
    ensures Dedup(s)[i] in s && Dedup(s)[j] in s
    ensures FirstIndex(s, Dedup(s)[i]) < FirstIndex(s, Dedup(s)[j])
    decreases |s|
  {
    var p, last := s[..|s| - 1], s[|s| - 1];
    var d := Dedup(p);
    DedupElements(p);
    assert d[i] in d;
    assert Dedup(s)[i] == d[i] && FirstIndex(s, d[i]) == FirstIndex(p, d[i]);
    if j < |d| {
      assert Dedup(s)[j] == d[j] && d[j] in d;
      DedupFirstOccurrenceOrder(p, i, j);
    } else {
      assert Dedup(s)[j] == last && last !in p;
    }
  }

  /** A sequence without repetitions is left as it is. */
  lemma {:induction false} DedupOfNoDup<T>(s: seq<T>)
    requires NoDup(s)
    ensures Dedup(s) == s
  {
    if s != [] {
      var p := s[..|s| - 1];
      DedupOfNoDup(p);
      assert s[|s| - 1] !in p;
      assert p + [s[|s| - 1]] == s;
    }
  }

  /** Running drop_duplicates a second time changes nothing. */
  lemma DedupIdempotent<T>(s: seq<T>)
    ensures Dedup(Dedup(s)) == Dedup(s)
  {
    DedupNoDup(s);
    DedupOfNoDup(Dedup(s));
  }

  /** A sequence without repetitions is as long as its set of values. */
  lemma {:induction false} NoDupCard<T>(s: seq<T>)
    requires NoDup(s)
    ensures |Distinct(s)| == |s|
  {
    if s != [] {
      var p := s[..|s| - 1];
      NoDupCard(p);
      assert s == p + [s[|s| - 1]];
      assert Distinct(s) == Distinct(p) + {s[|s| - 1]};
    }
  }

  /** The de-duplicated rows are as many as the distinct rows. */
  lemma DedupCard<T>(s: seq<T>)
    ensures |Dedup(s)| == |Distinct(s)|
  {
    DedupNoDup(s);
    DedupElements(s);
    NoDupCard(Dedup(s));
    assert Distinct(Dedup(s)) == Distinct(s);
  }

  /** `df.drop_duplicates(inplace=True)`: rows are compared as whole rows
      (missing values equal to each other) and the first of equal rows is
      kept. */
  method DropDuplicates(f: Frame) returns (g: Frame)
    ensures g == Frame(f.columns, Dedup(f.rows))
    ensures WellFormed(f) ==> WellFormed(g)
  {
    var kept: seq<Row> := [];
    var i := 0;
    while i < |f.rows|
      invariant 0 <= i <= |f.rows|
      invariant kept == Dedup(f.rows[..i])
    {
      DedupElements(f.rows[..i]);
      var row := f.rows[i];
      if row !in kept {
        kept := kept + [row];
      }
      assert f.rows[..i + 1][..i] == f.rows[..i];
      i := i + 1;
    }
    assert f.rows[..i] == f.rows;
    g := Frame(f.columns, kept);
    DedupElements(f.rows);
  }

  // ---------------------------------------------------------------------
  // Column selection, renaming and assignment
  // ---------------------------------------------------------------------

  /** The first label of `want` that `have` lacks. */
  function Absent(want: seq<string>, have: seq<string>): (r: Option<string>)
    ensures r.Some? ==> r.value in want && r.value !in have
    ensures r.None? ==> forall c :: c in want ==> c in have
  {
    if want == [] then None
    else if want[0] !in have then Some(want[0])
    else Absent(want[1..], have)
  }

  function Restrict(r: Row, columns: seq<string>): Row
  {
    map c | c in columns :: Get(r, c)
  }

  /** `df[columns]`: a KeyError names a missing label. */
  function Select(f: Frame, columns: seq<string>): (r: Result<Frame>)
    ensures r.Success? && NoDup(columns) ==> WellFormed(r.value)
  {
    match Absent(columns, f.columns)
    case Some(c) => Failure(KeyError(c))
    case None => Success(Frame(columns, seq(|f.rows|, i requires 0 <= i < |f.rows| => Restrict(f.rows[i], columns))))
  }

  /** Selection fails exactly when a label is missing, keeps every row and
      every selected cell, and yields a well-formed frame. */
  lemma SelectSpec(f: Frame, columns: seq<string>)
    requires NoDup(columns)
    ensures Select(f, columns).Success? <==> forall c :: c in columns ==> c in f.columns
    ensures Select(f, columns).Success? ==>
              var g := Select(f, columns).value;
              && g.columns == columns
              && |g.rows| == |f.rows|
              && WellFormed(g)
              && forall i, c :: 0 <= i < |f.rows| && c in columns ==> g.rows[i][c] == Get(f.rows[i], c)
  {
  }

  /** The label a rename mapping gives to `c`; labels it does not mention keep
      their name. */
  function NewName(m: map<string, string>, c: string): string
  {
    if c in m then m[c] else c
  }

  function RenamedColumns(columns: seq<string>, m: map<string, string>): (r: seq<string>)
    ensures |r| == |columns|
    ensures forall i :: 0 <= i < |columns| ==> r[i] == NewName(m, columns[i])
  {
    seq(|columns|, i requires 0 <= i < |columns| => NewName(m, columns[i]))
  }

  predicate InjectiveOn(m: map<string, string>, labels: set<string>)
  {
    forall a, b :: a in labels && b in labels && NewName(m, a) == NewName(m, b) ==> a == b
  }

  lemma RenamedNoDupInjective(columns: seq<string>, m: map<string, string>)
    requires NoDup(RenamedColumns(columns, m))
    ensures InjectiveOn(m, ColumnSet(columns))
  {
    var r := RenamedColumns(columns, m);
    forall a, b | a in ColumnSet(columns) && b in ColumnSet(columns) && NewName(m, a) == NewName(m, b)
      ensures a == b
    {
      var i :| 0 <= i < |columns| && columns[i] == a;
      var j :| 0 <= j < |columns| && columns[j] == b;
      assert r[i] == r[j];
    }
  }

  function RenameRow(r: Row, m: map<string, string>): Row
    requires InjectiveOn(m, r.Keys)
  {
    map c | c in r.Keys :: NewName(m, c) := r[c]
  }

  /** `df.rename(columns=m)`. pandas would accept a rename that gives two
      columns one label; a frame here cannot hold that, so it is reported. */
  function Rename(f: Frame, m: map<string, string>): Result<Frame>
    requires WellFormed(f)
  {
    var columns := RenamedColumns(f.columns, m);
    if !NoDup(columns) then Failure(DuplicateColumns)
    else
      RenamedNoDupInjective(f.columns, m);
      Success(Frame(columns, seq(|f.rows|, i requires 0 <= i < |f.rows| => RenameRow(f.rows[i], m))))
  }

  /** A renamed row holds each cell under its column's new label, and no
      other label. */
  lemma RenameRowSpec(r: Row, m: map<string, string>)
    requires InjectiveOn(m, r.Keys)
    ensures RenameRow(r, m).Keys == set c | c in r.Keys :: NewName(m, c)
    ensures forall c :: c in r.Keys ==> RenameRow(r, m)[NewName(m, c)] == r[c]
  {
  }

  /** The labels of the renamed header are the new names of the old ones. */
  lemma RenamedColumnSet(columns: seq<string>, m: map<string, string>)
    ensures ColumnSet(RenamedColumns(columns, m)) == set c | c in columns :: NewName(m, c)
  {
    var r := RenamedColumns(columns, m);
    forall x | x in ColumnSet(r) ensures exists c :: c in columns && NewName(m, c) == x {
      var k :| 0 <= k < |r| && r[k] == x;
      assert columns[k] in columns;
    }
    forall c | c in columns ensures NewName(m, c) in ColumnSet(r) {
      var k :| 0 <= k < |columns| && columns[k] == c;
      assert r[k] == NewName(m, c);
    }
  }

  /** The rows of a successful rename are the renamed rows. */
  lemma RenamedRows(f: Frame, m: map<string, string>)
    requires WellFormed(f) && Rename(f, m).Success?
    ensures InjectiveOn(m, ColumnSet(f.columns))
    ensures var g := Rename(f, m).value;
            && g.columns == RenamedColumns(f.columns, m)
            && |g.rows| == |f.rows|
            && forall i :: 0 <= i < |f.rows| ==> f.rows[i].Keys == ColumnSet(f.columns) && g.rows[i] == RenameRow(f.rows[i], m)
  {
    RenamedNoDupInjective(f.columns, m);
    var g := Rename(f, m).value;
    forall i | 0 <= i < |f.rows|
      ensures f.rows[i].Keys == ColumnSet(f.columns) && g.rows[i] == RenameRow(f.rows[i], m)
    {
      assert f.rows[i] in f.rows;
    }
  }

  /** A successful rename keeps the frame well formed, keeps every row and
      moves each cell to its column's new label. */
  lemma RenameSpec(f: Frame, m: map<string, string>)
    requires WellFormed(f)
    ensures Rename(f, m).Success? <==> NoDup(RenamedColumns(f.columns, m))
    ensures Rename(f, m).Success? ==>
              var g := Rename(f, m).value;
              && g.columns == RenamedColumns(f.columns, m)
              && |g.rows| == |f.rows|
              && WellFormed(g)
              && forall i, c :: 0 <= i < |f.rows| && c in f.columns ==> g.rows[i][NewName(m, c)] == f.rows[i][c]
  {
    if Rename(f, m).Success? {
      var g := Rename(f, m).value;
      RenamedRows(f, m);
      RenamedColumnSet(f.columns, m);
      forall i | 0 <= i < |f.rows|
        ensures g.rows[i].Keys == ColumnSet(g.columns)
        ensures forall c :: c in f.columns ==> g.rows[i][NewName(m, c)] == f.rows[i][c]
      {
        RenameRowSpec(f.rows[i], m);
      }
      forall r | r in g.rows ensures r.Keys == ColumnSet(g.columns) {
        var i :| 0 <= i < |g.rows| && g.rows[i] == r;
      }
    }
  }

  /** Selecting present, distinct columns and then renaming them apart
      always succeeds: the result has the renamed labels and every selected
      cell of every row under its new label. */
  lemma SelectThenRename(f: Frame, columns: seq<string>, m: map<string, string>)
    requires NoDup(columns) && NoDup(RenamedColumns(columns, m))
    requires forall c :: c in columns ==> c in f.columns
    ensures Select(f, columns).Success?
    ensures Rename(Select(f, columns).value, m).Success?
    ensures var out := Rename(Select(f, columns).value, m).value;
            && out.columns == RenamedColumns(columns, m)
            && WellFormed(out)
            && |out.rows| == |f.rows|
            && forall i, c :: 0 <= i < |f.rows| && c in columns ==>
                 NewName(m, c) in out.rows[i] && out.rows[i][NewName(m, c)] == Get(f.rows[i], c)
  {
    SelectSpec(f, columns);
    RenameSpec(Select(f, columns).value, m);
  }

  /** Renaming never merges two rows with the same labels. */
  lemma RenameRowInjective(r1: Row, r2: Row, m: map<string, string>)
    requires r1.Keys == r2.Keys && InjectiveOn(m, r1.Keys)
    requires RenameRow(r1, m) == RenameRow(r2, m)
    ensures r1 == r2
  {
    RenameRowSpec(r1, m);
    RenameRowSpec(r2, m);
    forall c | c in r1.Keys ensures r1[c] == r2[c] {
      assert RenameRow(r1, m)[NewName(m, c)] == RenameRow(r2, m)[NewName(m, c)];
    }
  }

  /** Renaming neither merges nor splits rows. */
  lemma RenameKeepsDistinctRows(f: Frame, m: map<string, string>)
    requires WellFormed(f) && Rename(f, m).Success?
    ensures |Distinct(Rename(f, m).value.rows)| == |Distinct(f.rows)|
  {
    var g := Rename(f, m).value;
    RenamedRows(f, m);
    var F := (r: Row) => if InjectiveOn(m, r.Keys) then RenameRow(r, m) else r;
    forall x, y | x in f.rows && y in f.rows && F(x) == F(y)
      ensures x == y
    {
      assert x.Keys == ColumnSet(f.columns) == y.Keys;
      RenameRowInjective(x, y, m);
    }
    ImageCard(f.rows, g.rows, F);
  }

  /** `df[name] = values`: overwrites the column, or appends it as the last
      column when the frame does not have it yet. */
  function SetColumn(f: Frame, name: string, values: seq<Value>): Frame
    requires |values| == |f.rows|
  {
    Frame(if name in f.columns then f.columns else f.columns + [name],
          seq(|f.rows|, i requires 0 <= i < |f.rows| => f.rows[i][name := values[i]]))
  }

  /** Column assignment keeps the frame well formed and every other cell. */
  lemma SetColumnSpec(f: Frame, name: string, values: seq<Value>)
    requires WellFormed(f) && |values| == |f.rows|
    ensures var g := SetColumn(f, name, values);
            && WellFormed(g)
            && |g.rows| == |f.rows|
            && ColumnSet(g.columns) == ColumnSet(f.columns) + {name}
            && (forall i :: 0 <= i < |f.rows| ==> g.rows[i][name] == values[i])
            && (forall i, c :: 0 <= i < |f.rows| && c in f.columns ==> c in f.rows[i] && c in g.rows[i])
            && (forall i, c :: 0 <= i < |f.rows| && c in f.columns && c != name ==> g.rows[i][c] == f.rows[i][c])
  {
    var g := SetColumn(f, name, values);
    forall r | r in g.rows ensures r.Keys == ColumnSet(g.columns) {
      var i :| 0 <= i < |g.rows| && g.rows[i] == r;
      assert f.rows[i] in f.rows;
    }
  }

  // ---------------------------------------------------------------------
  // Counting
  // ---------------------------------------------------------------------

  /** Mapping a sequence element by element through a function that never
      sends two of its elements to one keeps the number of distinct elements. */
  lemma ImageCard<A, B>(s: seq<A>, t: seq<B>, F: A -> B)
    requires |t| == |s| && forall i :: 0 <= i < |s| ==> t[i] == F(s[i])
    requires forall x, y :: x in s && y in s && F(x) == F(y) ==> x == y
    ensures |Distinct(t)| == |Distinct(s)|
  {
    var R := (o: B, x: A) => x in s && o == F(x);
    forall x | x in Distinct(s) ensures exists o :: o in Distinct(t) && R(o, x) {
      var i :| 0 <= i < |s| && s[i] == x;
      assert t[i] in Distinct(t) && R(t[i], x);
    }
    CoverCard(Distinct(t), Distinct(s), R);
    var S := (x: A, o: B) => x in s && o == F(x);
    forall o | o in Distinct(t) ensures exists x :: x in Distinct(s) && S(x, o) {
      var i :| 0 <= i < |t| && t[i] == o;
      assert s[i] in Distinct(s) && S(s[i], o);
    }
    CoverCard(Distinct(s), Distinct(t), S);
  }

  /** If every element of `b` is related to some element of `a`, and no
      element of `a` is related to two elements of `b`, then `a` is at least
      as large as `b`. */
  lemma {:induction false} CoverCard<A, B>(a: set<A>, b: set<B>, R: (A, B) -> bool)
    requires forall y :: y in b ==> exists x :: x in a && R(x, y)
    requires forall x, y1, y2 :: x in a && y1 in b && y2 in b && R(x, y1) && R(x, y2) ==> y1 == y2
    ensures |a| >= |b|
    decreases b
  {
    if b != {} {
      var y :| y in b;
      var x :| x in a && R(x, y);
      var a', b' := a - {x}, b - {y};
      forall y' | y' in b' ensures exists x' :: x' in a' && R(x', y') {
        var x' :| x' in a && R(x', y');
        assert x' != x;
        assert x' in a';
      }
      CoverCard(a', b', R);
    }
  }
}
