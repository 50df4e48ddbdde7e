/** `DataFrame.merge(..., how="left")`: every left row is kept, in order; a
    left row with k >= 1 matching right rows appears k times (matches in
    right-table order), and one with none appears once with missing values in
    the right-hand columns. Missing keys match each other, as in pandas. */
module Joins {
  import opened Values
  import opened Frames

  /** `on=key` (one shared key column, kept once) or
      `left_on=leftKey, right_on=rightKey` (both columns kept). */
  datatype JoinKey = On(key: string) | LeftRightOn(leftKey: string, rightKey: string)
  {
    function LeftKey(): string { if On? then key else leftKey }
    function RightKey(): string { if On? then key else rightKey }
  }

  /** Where an output column takes its cells from. */
  datatype Origin = FromLeft(col: string) | FromRight(col: string)

  datatype OutColumn = OutColumn(name: string, origin: Origin)

  /** A column both sides carry gets the side's suffix; the shared `on` key
      does not. */
  predicate Overlaps(c: string, leftColumns: seq<string>, rightColumns: seq<string>, key: JoinKey)
  {
    c in leftColumns && c in rightColumns && !(key.On? && c == key.key)
  }

  function Suffixed(c: string, overlap: bool, suffix: string): string
  {
    if overlap then c + suffix else c
  }

  function LeftPlan(leftColumns: seq<string>, rightColumns: seq<string>, key: JoinKey, suffix: string): (plan: seq<OutColumn>)
    ensures |plan| == |leftColumns|
    ensures forall i :: 0 <= i < |leftColumns| ==> plan[i].origin == FromLeft(leftColumns[i])
  {
    seq(|leftColumns|, i requires 0 <= i < |leftColumns| =>
      OutColumn(Suffixed(leftColumns[i], Overlaps(leftColumns[i], leftColumns, rightColumns, key), suffix), FromLeft(leftColumns[i])))
  }

  function RightPlan(rightColumns: seq<string>, leftColumns: seq<string>, key: JoinKey, suffix: string): (plan: seq<OutColumn>)
    ensures forall e :: e in plan ==> e.origin.FromRight?
  {
    if rightColumns == [] then []
    else
      var c := rightColumns[|rightColumns| - 1];
      RightPlan(rightColumns[..|rightColumns| - 1], leftColumns, key, suffix)
      + (if key.On? && c == key.key then []
         else [OutColumn(Suffixed(c, Overlaps(c, leftColumns, rightColumns, key), suffix), FromRight(c))])
  }

  /** The output columns in pandas order: the left columns, then the right
      ones (without a shared `on` key). */
  function MergePlan(leftColumns: seq<string>, rightColumns: seq<string>, key: JoinKey, leftSuffix: string, rightSuffix: string): seq<OutColumn>
  {
    LeftPlan(leftColumns, rightColumns, key, leftSuffix) + RightPlan(rightColumns, leftColumns, key, rightSuffix)
  }

  function Names(plan: seq<OutColumn>): (names: seq<string>)
    ensures |names| == |plan|
    ensures forall i :: 0 <= i < |plan| ==> names[i] == plan[i].name
  {
    seq(|plan|, i requires 0 <= i < |plan| => plan[i].name)
  }

  /** The cell an output column takes from a left row and its match, if any. */
  function Source(origin: Origin, l: Row, r: Option<Row>): Value
  {
    match origin
    case FromLeft(c) => Get(l, c)
    case FromRight(c) => if r.Some? then Get(r.value, c) else Null
  }

  /** The output row for a left row and its match (None: no match). */
  function Fill(plan: seq<OutColumn>, l: Row, r: Option<Row>): (o: Row)
    ensures forall e :: e in plan ==> e.name in o
    decreases |plan|
  {
    if plan == [] then map[]
    else
      var e := plan[|plan| - 1];
      Fill(plan[..|plan| - 1], l, r)[e.name := Source(e.origin, l, r)]
  }

  predicate KeysMatch(l: Row, r: Row, key: JoinKey)
  {
    Get(l, key.LeftKey()) == Get(r, key.RightKey())
  }

  /** The right rows that match `l`, in right-table order. */
  function Matches(l: Row, rights: seq<Row>, key: JoinKey): seq<Row>
    decreases |rights|
  {
    if rights == [] then []
    else
      var r := rights[|rights| - 1];
      Matches(l, rights[..|rights| - 1], key) + (if KeysMatch(l, r, key) then [r] else [])
  }

  /** The output rows one left row produces. */
  function Expand(l: Row, rights: seq<Row>, key: JoinKey, plan: seq<OutColumn>): seq<Row>
  {
    var ms := Matches(l, rights, key);
    if ms == [] then [Fill(plan, l, None)]
    else seq(|ms|, i requires 0 <= i < |ms| => Fill(plan, l, Some(ms[i])))
  }

  /** Applies `f` to every element and concatenates the results in order. */
  function FlatMap<A, B>(s: seq<A>, f: A -> seq<B>): seq<B>
    decreases |s|
  {
    if s == [] then [] else FlatMap(s[..|s| - 1], f) + f(s[|s| - 1])
  }

  function JoinRows(lefts: seq<Row>, rights: seq<Row>, key: JoinKey, plan: seq<OutColumn>): seq<Row>
  {
    FlatMap(lefts, l => Expand(l, rights, key, plan))
  }

  /** Suffixing gives two left columns one label, or two right columns one
      label: pandas checks each side on its own, after dropping a shared
      `on` key from the right side. */
  predicate SuffixClash(leftColumns: seq<string>, rightColumns: seq<string>, key: JoinKey, leftSuffix: string, rightSuffix: string)
  {
    || !NoDup(Names(LeftPlan(leftColumns, rightColumns, key, leftSuffix)))
    || !NoDup(Names(RightPlan(rightColumns, leftColumns, key, rightSuffix)))
  }

  /** `left.merge(right, ..., how="left", suffixes=(leftSuffix, rightSuffix))`:
      a missing key column raises KeyError; suffixes that give two columns of
      one side the same label raise MergeError. A left label equal to a right
      one is accepted by pandas, but a frame here cannot hold a label twice,
      so that case is reported as DuplicateColumns. */
  function Merge(left: Frame, right: Frame, key: JoinKey, leftSuffix: string, rightSuffix: string): Result<Frame>
  {
    if key.RightKey() !in right.columns then Failure(KeyError(key.RightKey()))
    else if key.LeftKey() !in left.columns then Failure(KeyError(key.LeftKey()))
    else if SuffixClash(left.columns, right.columns, key, leftSuffix, rightSuffix) then Failure(MergeError)
    else
      var plan := MergePlan(left.columns, right.columns, key, leftSuffix, rightSuffix);
      if !NoDup(Names(plan)) then Failure(DuplicateColumns)
      else Success(Frame(Names(plan), JoinRows(left.rows, right.rows, key, plan)))
  }

  /** Suffixing the left `a` gives `a_x`, a label the left side already
      has: pandas raises MergeError. */
  lemma SameSideClashExample()
    ensures Merge(Frame(["k", "a", "a_x"], []), Frame(["k", "a"], []), On("k"), "_x", "_y") == Failure(MergeError)
  {
    assert "a" + "_x" == "a_x";
    var lp := LeftPlan(["k", "a", "a_x"], ["k", "a"], On("k"), "_x");
    assert lp[1].name == "a_x" == lp[2].name;
  }

  /** Suffixing the right `a` gives `a_y`, a label only the left side has:
      pandas checks each side on its own and accepts this, but the joined
      frame would carry `a_y` twice, which is DuplicateColumns here. */
  lemma CrossSideClashExample()
    ensures Merge(Frame(["k", "a", "a_y"], []), Frame(["k", "a"], []), On("k"), "_x", "_y") == Failure(DuplicateColumns)
  {
    CrossSideLabels();
    CrossSidePlan();
    var plan := MergePlan(["k", "a", "a_y"], ["k", "a"], On("k"), "_x", "_y");
    assert Names(plan)[2] == Names(plan)[3];
  }

  /** Each side's labels in `CrossSideClashExample` are distinct. */
  lemma CrossSideLabels()
    ensures Names(LeftPlan(["k", "a", "a_y"], ["k", "a"], On("k"), "_x")) == ["k", "a_x", "a_y"]
    ensures NoDup(Names(LeftPlan(["k", "a", "a_y"], ["k", "a"], On("k"), "_x")))
    ensures RightPlan(["k", "a"], ["k", "a", "a_y"], On("k"), "_y") == [OutColumn("a_y", FromRight("a"))]
  {
    assert "a_x"[2] != "a_y"[2] && |"k"| != |"a_x"|;
    assert "a" + "_x" == "a_x" && "a" + "_y" == "a_y";
    assert RightPlan(["k"], ["k", "a", "a_y"], On("k"), "_y") == [];
    assert ["k", "a"][..1] == ["k"];
  }

  /** The joined labels in `CrossSideClashExample` repeat `a_y`. */
  lemma CrossSidePlan()
    ensures Names(MergePlan(["k", "a", "a_y"], ["k", "a"], On("k"), "_x", "_y")) == ["k", "a_x", "a_y", "a_y"]
  {
    CrossSideLabels();
  }

  /** The shared `on` key is dropped from the right side before pandas
      looks for suffix clashes: the right `a` suffixed to `ab` does not
      clash with the right key `ab`, only with the left one. */
  lemma SharedKeyDroppedExample()
    ensures Merge(Frame(["ab", "a"], []), Frame(["ab", "a"], []), On("ab"), "_x", "b") == Failure(DuplicateColumns)
  {
    assert "a" + "_x" == "a_x" && "a" + "b" == "ab";
    assert |"ab"| != |"a_x"|;
    assert RightPlan(["ab"], ["ab", "a"], On("ab"), "b") == [];
    assert ["ab", "a"][..1] == ["ab"];
    var rp := RightPlan(["ab", "a"], ["ab", "a"], On("ab"), "b");
    assert rp == [OutColumn("ab", FromRight("a"))];
    var plan := MergePlan(["ab", "a"], ["ab", "a"], On("ab"), "_x", "b");
    assert Names(plan)[0] == Names(plan)[2];
  }

  /** The inner scan of the merge: the right rows whose key equals the left
      row's, in right-table order. */
  method CollectMatches(l: Row, rights: seq<Row>, key: JoinKey) returns (ms: seq<Row>)
    ensures ms == Matches(l, rights, key)
  {
    ms := [];
    var j := 0;
    while j < |rights|
      invariant 0 <= j <= |rights|
      invariant ms == Matches(l, rights[..j], key)
    {
      var r := rights[j];
      if Get(l, key.LeftKey()) == Get(r, key.RightKey()) {
        ms := ms + [r];
      }
      assert rights[..j + 1][..j] == rights[..j];
      j := j + 1;
    }
    assert rights[..j] == rights;
  }

  /** The output rows of one left row: one per match, in right-table order,
      or one null-filled row when nothing matches. */
  method ExpandRow(l: Row, rights: seq<Row>, key: JoinKey, plan: seq<OutColumn>) returns (produced: seq<Row>)
    ensures produced == Expand(l, rights, key, plan)
  {
    var ms := CollectMatches(l, rights, key);
    if ms == [] {
      produced := [Fill(plan, l, None)];
    } else {
      produced := seq(|ms|, k requires 0 <= k < |ms| => Fill(plan, l, Some(ms[k])));
    }
  }

  /** The row loop of the merge: the left rows' output rows, in left order. */
  method JoinLoop(lefts: seq<Row>, rights: seq<Row>, key: JoinKey, plan: seq<OutColumn>) returns (out: seq<Row>)
    ensures out == JoinRows(lefts, rights, key, plan)
  {
    out := [];
    var i := 0;
    while i < |lefts|
      invariant 0 <= i <= |lefts|
      invariant out == JoinRows(lefts[..i], rights, key, plan)
    {
      var produced := ExpandRow(lefts[i], rights, key, plan);
      JoinRowsOrder(lefts[..i], [lefts[i]], lefts[i], rights, key, plan);
      assert lefts[..i + 1] == lefts[..i] + [lefts[i]];
      out := out + produced;
      i := i + 1;
    }
    assert lefts[..i] == lefts;
  }

  /** The merge itself: the key checks, the column plan, then the row loop. */
  method LeftMerge(left: Frame, right: Frame, key: JoinKey, leftSuffix: string, rightSuffix: string) returns (res: Result<Frame>)
    ensures res == Merge(left, right, key, leftSuffix, rightSuffix)
  {
    if key.RightKey() !in right.columns {
      return Failure(KeyError(key.RightKey()));
    }
    if key.LeftKey() !in left.columns {
      return Failure(KeyError(key.LeftKey()));
    }
    if SuffixClash(left.columns, right.columns, key, leftSuffix, rightSuffix) {
      return Failure(MergeError);
    }
    var plan := MergePlan(left.columns, right.columns, key, leftSuffix, rightSuffix);
    if !NoDup(Names(plan)) {
      return Failure(DuplicateColumns);
    }
    var out := JoinLoop(left.rows, right.rows, key, plan);
    return Success(Frame(Names(plan), out));
  }

  // ---------------------------------------------------------------------
  // Laws of the left-outer merge
  // ---------------------------------------------------------------------

  /** The matches are exactly the right rows whose key equals the left
      row's key. */
  lemma {:induction false} MatchesSpec(l: Row, rights: seq<Row>, key: JoinKey)
    ensures forall r :: r in Matches(l, rights, key) <==> r in rights && KeysMatch(l, r, key)
    ensures |Matches(l, rights, key)| <= |rights|
    decreases |rights|
  {
    if rights != [] {
      var p := rights[..|rights| - 1];
      MatchesSpec(l, p, key);
      assert rights == p + [rights[|rights| - 1]];
    }
  }

  /** `o` carries the cells of left row `l` in every left-hand column. */
  ghost predicate Carries(plan: seq<OutColumn>, o: Row, l: Row)
  {
    forall e :: e in plan && e.origin.FromLeft? ==> e.name in o && o[e.name] == Get(l, e.origin.col)
  }

  lemma NamesSnoc(plan: seq<OutColumn>)
    requires plan != []
    ensures ColumnSet(Names(plan)) == ColumnSet(Names(plan[..|plan| - 1])) + {plan[|plan| - 1].name}
  {
    var n := |plan| - 1;
    assert Names(plan) == Names(plan[..n]) + [plan[n].name];
  }

  /** An output row has exactly the plan's labels. */
  lemma {:induction false} FillKeys(plan: seq<OutColumn>, l: Row, r: Option<Row>)
    ensures Fill(plan, l, r).Keys == ColumnSet(Names(plan))
    decreases |plan|
  {
    if plan != [] {
      FillKeys(plan[..|plan| - 1], l, r);
      NamesSnoc(plan);
    }
  }

  /** Each label holds the cell its origin names. */
  lemma {:induction false} FillValues(plan: seq<OutColumn>, l: Row, r: Option<Row>)
    requires NoDup(Names(plan))
    ensures forall e :: e in plan ==> Fill(plan, l, r)[e.name] == Source(e.origin, l, r)
    decreases |plan|
  {
    if plan != [] {
      var n := |plan| - 1;
      var p := plan[..n];
      FillValues(p, l, r);
      forall e | e in plan ensures Fill(plan, l, r)[e.name] == Source(e.origin, l, r) {
        var i :| 0 <= i < |plan| && plan[i] == e;
        if i < n {
          assert p[i] == e;
        }
      }
    }
  }

  lemma FillSpec(plan: seq<OutColumn>, l: Row, r: Option<Row>)
    requires NoDup(Names(plan))
    ensures Fill(plan, l, r).Keys == ColumnSet(Names(plan))
    ensures forall e :: e in plan ==> Fill(plan, l, r)[e.name] == Source(e.origin, l, r)
  {
    FillKeys(plan, l, r);
    FillValues(plan, l, r);
  }

  /** Every output row carries its left row. */
  lemma FillCarries(plan: seq<OutColumn>, l: Row, r: Option<Row>)
    requires NoDup(Names(plan))
    ensures Carries(plan, Fill(plan, l, r), l)
  {
    FillValues(plan, l, r);
  }

  /** One left row: a row with no match yields exactly one row whose
      right-hand cells are all missing; a row with k >= 1 matches yields k
      rows, the i-th carrying the i-th match. Either way every produced row
      carries the left row. */
  lemma ExpandSpec(l: Row, rights: seq<Row>, key: JoinKey, plan: seq<OutColumn>)
    requires NoDup(Names(plan))
    ensures var ms := Matches(l, rights, key);
            var xs := Expand(l, rights, key, plan);
            && |xs| == (if ms == [] then 1 else |ms|)
            && (forall o :: o in xs ==> Carries(plan, o, l))
            && (ms == [] ==> forall e :: e in plan && e.origin.FromRight? ==> xs[0][e.name] == Null)
            && (forall i, e :: 0 <= i < |ms| && e in plan && e.origin.FromRight? ==>
                  xs[i][e.name] == Get(ms[i], e.origin.col))
  {
    var ms := Matches(l, rights, key);
    var xs := Expand(l, rights, key, plan);
    if ms == [] {
      FillSpec(plan, l, None);
      FillCarries(plan, l, None);
    } else {
      forall o | o in xs ensures Carries(plan, o, l) {
        var i :| 0 <= i < |xs| && xs[i] == o;
        FillCarries(plan, l, Some(ms[i]));
      }
      forall i, e | 0 <= i < |ms| && e in plan && e.origin.FromRight?
        ensures xs[i][e.name] == Get(ms[i], e.origin.col)
      {
        FillSpec(plan, l, Some(ms[i]));
      }
    }
  }

  /** Flat-mapping a concatenation concatenates the results. */
  lemma {:induction false} FlatMapAppend<A, B>(a: seq<A>, b: seq<A>, f: A -> seq<B>)
    ensures FlatMap(a + b, f) == FlatMap(a, f) + FlatMap(b, f)
    decreases |b|
  {
    if b == [] {
      assert a + b == a;
    } else {
      var n := |b| - 1;
      FlatMapAppend(a, b[..n], f);
      assert (a + b)[..|a + b| - 1] == a + b[..n];
    }
  }

  /** The results of the i-th element sit right after those of the earlier
      elements. */
  lemma FlatMapAt<A, B>(s: seq<A>, f: A -> seq<B>, i: nat)
    requires i < |s|
    ensures var k := |FlatMap(s[..i], f)|;
            k + |f(s[i])| <= |FlatMap(s, f)| && FlatMap(s, f)[k..k + |f(s[i])|] == f(s[i])
  {
    assert s == s[..i] + ([s[i]] + s[i + 1..]);
    FlatMapAppend(s[..i], [s[i]] + s[i + 1..], f);
    FlatMapAppend([s[i]], s[i + 1..], f);
    assert [s[i]][..0] == [];
  }

  /** Every element of the result comes from some element of `s`. */
  lemma {:induction false} FlatMapFrom<A, B>(s: seq<A>, f: A -> seq<B>)
    ensures forall y :: y in FlatMap(s, f) ==> exists i :: 0 <= i < |s| && y in f(s[i])
    decreases |s|
  {
    if s != [] {
      var n := |s| - 1;
      FlatMapFrom(s[..n], f);
      forall y | y in FlatMap(s, f) ensures exists i :: 0 <= i < |s| && y in f(s[i]) {
        if y in FlatMap(s[..n], f) {
          var i :| 0 <= i < n && y in f(s[..n][i]);
          assert s[..n][i] == s[i];
        } else {
          assert y in f(s[n]);
        }
      }
    }
  }

  /** At least one result per element gives at least as many results as
      elements. */
  lemma {:induction false} FlatMapLength<A, B>(s: seq<A>, f: A -> seq<B>)
    requires forall x :: x in s ==> |f(x)| >= 1
    ensures |FlatMap(s, f)| >= |s|
    decreases |s|
  {
    if s != [] {
      FlatMapLength(s[..|s| - 1], f);
      assert s[|s| - 1] in s;
    }
  }

  /** The output is built left row by left row, in left-table order: merging
      a concatenation of left rows concatenates the outputs, and one left
      row yields exactly its own expansion. */
  lemma JoinRowsOrder(a: seq<Row>, b: seq<Row>, l: Row, rights: seq<Row>, key: JoinKey, plan: seq<OutColumn>)
    ensures JoinRows(a + b, rights, key, plan) == JoinRows(a, rights, key, plan) + JoinRows(b, rights, key, plan)
    ensures JoinRows([l], rights, key, plan) == Expand(l, rights, key, plan)
  {
    var f := x => Expand(x, rights, key, plan);
    FlatMapAppend(a, b, f);
    assert [l][..0] == [];
    assert JoinRows([l], rights, key, plan) == JoinRows([], rights, key, plan) + Expand(l, rights, key, plan);
  }

  /** The merge never shortens the left table. */
  lemma JoinRowsLength(lefts: seq<Row>, rights: seq<Row>, key: JoinKey, plan: seq<OutColumn>)
    requires NoDup(Names(plan))
    ensures |JoinRows(lefts, rights, key, plan)| >= |lefts|
  {
    var f := l => Expand(l, rights, key, plan);
    forall l | l in lefts ensures |f(l)| >= 1 {
      ExpandSpec(l, rights, key, plan);
    }
    FlatMapLength(lefts, f);
  }

  /** The merge never loses a left row: each one is carried by an output row. */
  lemma JoinRowsKeepLefts(lefts: seq<Row>, rights: seq<Row>, key: JoinKey, plan: seq<OutColumn>)
    requires NoDup(Names(plan))
    ensures forall i :: 0 <= i < |lefts| ==>
              exists o :: o in JoinRows(lefts, rights, key, plan) && Carries(plan, o, lefts[i])
  {
    var f := l => Expand(l, rights, key, plan);
    var out := JoinRows(lefts, rights, key, plan);
    forall i | 0 <= i < |lefts|
      ensures exists o :: o in out && Carries(plan, o, lefts[i])
    {
      FlatMapAt(lefts, f, i);
      ExpandSpec(lefts[i], rights, key, plan);
      var k := |FlatMap(lefts[..i], f)|;
      var xs := f(lefts[i]);
      assert xs[0] in xs;
      assert out[k] == xs[0];
    }
  }

  /** The merge invents no row: every output row carries some left row. */
  lemma JoinRowsFromLefts(lefts: seq<Row>, rights: seq<Row>, key: JoinKey, plan: seq<OutColumn>)
    requires NoDup(Names(plan))
    ensures forall o :: o in JoinRows(lefts, rights, key, plan) ==>
              exists i :: 0 <= i < |lefts| && Carries(plan, o, lefts[i])
  {
    var f := l => Expand(l, rights, key, plan);
    FlatMapFrom(lefts, f);
    forall o | o in JoinRows(lefts, rights, key, plan)
      ensures exists i :: 0 <= i < |lefts| && Carries(plan, o, lefts[i])
    {
      var i :| 0 <= i < |lefts| && o in f(lefts[i]);
      ExpandSpec(lefts[i], rights, key, plan);
    }
  }

  /** Every output row has exactly the merged frame's labels. */
  lemma JoinRowsKeys(lefts: seq<Row>, rights: seq<Row>, key: JoinKey, plan: seq<OutColumn>)
    requires NoDup(Names(plan))
    ensures forall o :: o in JoinRows(lefts, rights, key, plan) ==> o.Keys == ColumnSet(Names(plan))
  {
    var f := l => Expand(l, rights, key, plan);
    FlatMapFrom(lefts, f);
    forall o | o in JoinRows(lefts, rights, key, plan)
      ensures o.Keys == ColumnSet(Names(plan))
    {
      var i :| 0 <= i < |lefts| && o in f(lefts[i]);
      var ms := Matches(lefts[i], rights, key);
      var xs := f(lefts[i]);
      var j :| 0 <= j < |xs| && xs[j] == o;
      if ms == [] {
        FillSpec(plan, lefts[i], None);
      } else {
        FillSpec(plan, lefts[i], Some(ms[j]));
      }
    }
  }

  /** Every left column has an output column that takes its cells. */
  lemma LeftColumnsKept(leftColumns: seq<string>, rightColumns: seq<string>, key: JoinKey, leftSuffix: string, rightSuffix: string)
    ensures forall c :: c in leftColumns ==>
              exists e :: e in MergePlan(leftColumns, rightColumns, key, leftSuffix, rightSuffix) && e.origin == FromLeft(c)
  {
    var plan := MergePlan(leftColumns, rightColumns, key, leftSuffix, rightSuffix);
    forall c | c in leftColumns
      ensures exists e :: e in plan && e.origin == FromLeft(c)
    {
      var i :| 0 <= i < |leftColumns| && leftColumns[i] == c;
      assert plan[i] in plan;
    }
  }

  /** The right-hand plan reads exactly the right columns other than a
      shared `on` key. */
  lemma {:induction false} RightPlanSpec(rightColumns: seq<string>, leftColumns: seq<string>, key: JoinKey, suffix: string)
    ensures forall e :: e in RightPlan(rightColumns, leftColumns, key, suffix) ==>
              e.origin.col in rightColumns && !(key.On? && e.origin.col == key.key)
    ensures forall c :: c in rightColumns && !(key.On? && c == key.key) ==>
              exists e :: e in RightPlan(rightColumns, leftColumns, key, suffix) && e.origin == FromRight(c)
    decreases |rightColumns|
  {
    if rightColumns != [] {
      var prefix, c := rightColumns[..|rightColumns| - 1], rightColumns[|rightColumns| - 1];
      RightPlanSpec(prefix, leftColumns, key, suffix);
      var before := RightPlan(prefix, leftColumns, key, suffix);
      var plan := RightPlan(rightColumns, leftColumns, key, suffix);
      assert rightColumns == prefix + [c];
      forall d | d in rightColumns && !(key.On? && d == key.key)
        ensures exists e :: e in plan && e.origin == FromRight(d)
      {
        if d in prefix {
          var e :| e in before && e.origin == FromRight(d);
          assert e in plan;
        } else {
          assert d == c;
          assert plan[|plan| - 1].origin == FromRight(c);
        }
      }
    }
  }

  /** Every right column other than a shared `on` key has an output column
      that takes its cells, and no right-hand output column reads anything
      else. */
  lemma RightColumnsKept(leftColumns: seq<string>, rightColumns: seq<string>, key: JoinKey, leftSuffix: string, rightSuffix: string)
    ensures forall c :: c in rightColumns && !(key.On? && c == key.key) ==>
              exists e :: e in MergePlan(leftColumns, rightColumns, key, leftSuffix, rightSuffix) && e.origin == FromRight(c)
    ensures forall e :: e in MergePlan(leftColumns, rightColumns, key, leftSuffix, rightSuffix) && e.origin.FromRight? ==>
              e.origin.col in rightColumns && !(key.On? && e.origin.col == key.key)
  {
    var lp := LeftPlan(leftColumns, rightColumns, key, leftSuffix);
    var rp := RightPlan(rightColumns, leftColumns, key, rightSuffix);
    RightPlanSpec(rightColumns, leftColumns, key, rightSuffix);
    forall c | c in rightColumns && !(key.On? && c == key.key)
      ensures exists e: OutColumn :: e in lp + rp && e.origin == FromRight(c)
    {
      var e :| e in rp && e.origin == FromRight(c);
      assert e in lp + rp;
    }
    assert forall e :: e in lp ==> e.origin.FromLeft? by {
      forall e | e in lp ensures e.origin.FromLeft? {
        var i :| 0 <= i < |lp| && lp[i] == e;
      }
    }
  }

  /** Two different left rows of a well-formed frame are never carried by
      one output row. */
  lemma CarriesUnique(left: Frame, plan: seq<OutColumn>, o: Row, l1: Row, l2: Row)
    requires WellFormed(left) && l1 in left.rows && l2 in left.rows
    requires forall c :: c in left.columns ==> exists e :: e in plan && e.origin == FromLeft(c)
    requires Carries(plan, o, l1) && Carries(plan, o, l2)
    ensures l1 == l2
  {
    assert l1.Keys == ColumnSet(left.columns) == l2.Keys;
    forall c | c in l1.Keys ensures l1[c] == l2[c] {
      var e :| e in plan && e.origin == FromLeft(c);
    }
  }

  /** The rows of a successful merge. */
  lemma MergeRows(left: Frame, right: Frame, key: JoinKey, leftSuffix: string, rightSuffix: string)
    requires Merge(left, right, key, leftSuffix, rightSuffix).Success?
    ensures var plan := MergePlan(left.columns, right.columns, key, leftSuffix, rightSuffix);
            && NoDup(Names(plan))
            && Merge(left, right, key, leftSuffix, rightSuffix).value == Frame(Names(plan), JoinRows(left.rows, right.rows, key, plan))
  {
  }

  /** Left rows of a well-formed frame map onto distinct rows of the merge. */
  lemma {:induction false} MergeDistinctRows(left: Frame, plan: seq<OutColumn>, out: seq<Row>)
    requires WellFormed(left)
    requires forall c :: c in left.columns ==> exists e :: e in plan && e.origin == FromLeft(c)
    requires forall i :: 0 <= i < |left.rows| ==> exists o :: o in out && Carries(plan, o, left.rows[i])
    ensures |Distinct(out)| >= |Distinct(left.rows)|
  {
    var R := (o: Row, l: Row) => l in left.rows && Carries(plan, o, l);
    forall l | l in Distinct(left.rows)
      ensures exists o :: o in Distinct(out) && R(o, l)
    {
      var i :| 0 <= i < |left.rows| && left.rows[i] == l;
      var o :| o in out && Carries(plan, o, left.rows[i]);
      assert o in Distinct(out);
    }
    forall o, l1, l2 | o in Distinct(out) && l1 in Distinct(left.rows) && l2 in Distinct(left.rows) && R(o, l1) && R(o, l2)
      ensures l1 == l2
    {
      CarriesUnique(left, plan, o, l1, l2);
    }
    CoverCard(Distinct(out), Distinct(left.rows), R);
  }

  /** The joined rows under a plan with distinct labels that keeps every
      left column form a well-formed frame that is at least as long as the
      left frame and has at least as many distinct rows. */
  lemma JoinedFrame(left: Frame, rights: seq<Row>, key: JoinKey, plan: seq<OutColumn>)
    requires WellFormed(left) && NoDup(Names(plan))
    requires forall c :: c in left.columns ==> exists e :: e in plan && e.origin == FromLeft(c)
    ensures var out := Frame(Names(plan), JoinRows(left.rows, rights, key, plan));
            && WellFormed(out)
            && |out.rows| >= |left.rows|
            && |Distinct(out.rows)| >= |Distinct(left.rows)|
  {
    var out := JoinRows(left.rows, rights, key, plan);
    JoinRowsLength(left.rows, rights, key, plan);
    JoinRowsKeepLefts(left.rows, rights, key, plan);
    JoinRowsKeys(left.rows, rights, key, plan);
    MergeDistinctRows(left, plan, out);
  }

  /** A successful merge of a well-formed left frame is well formed, is at
      least as long as the left frame, and has at least as many distinct rows. */
  lemma MergeSpec(left: Frame, right: Frame, key: JoinKey, leftSuffix: string, rightSuffix: string)
    requires WellFormed(left)
    requires Merge(left, right, key, leftSuffix, rightSuffix).Success?
    ensures var out := Merge(left, right, key, leftSuffix, rightSuffix).value;
            && WellFormed(out)
            && |out.rows| >= |left.rows|
            && |Distinct(out.rows)| >= |Distinct(left.rows)|
  {
    MergeRows(left, right, key, leftSuffix, rightSuffix);
    LeftColumnsKept(left.columns, right.columns, key, leftSuffix, rightSuffix);
    JoinedFrame(left, right.rows, key, MergePlan(left.columns, right.columns, key, leftSuffix, rightSuffix));
  }
}
