/** Reward coercion, classification of every joined record, and the final
    report: the valid records in their joined order, cut down to the report's
    columns and renamed. */
module Report {
  import opened Values
  import opened Frames
  import opened Eligibility

  // ---------------------------------------------------------------------
  // pd.to_numeric(df["reward_value"], errors="coerce")
  // ---------------------------------------------------------------------

  /** `pd.to_numeric(errors="coerce")` on one cell. */
  function ToNumeric(v: Value, lib: Library): (r: Value)
    ensures r.Null? || r.Number?
    ensures !v.Null? && !v.Number? ==> (r.Number? <==> lib.parseNumber(v).Some?)
  {
    match v
    case Null => Null
    case Number(_) => v
    case _ =>
      match lib.parseNumber(v)
      case Some(x) => Number(x)
      case None => Null
  }

  /** `df["reward_value"] = pd.to_numeric(df["reward_value"], errors="coerce")`. */
  function CoerceRewards(f: Frame, lib: Library): Result<Frame>
  {
    if "reward_value" !in f.columns then Failure(KeyError("reward_value"))
    else Success(SetColumn(f, "reward_value", seq(|f.rows|, i requires 0 <= i < |f.rows| => ToNumeric(Get(f.rows[i], "reward_value"), lib))))
  }

  /** Coercion fails only on a missing column; otherwise it leaves every
      reward a number or missing, keeps numbers and missing values as they
      were, and touches no other cell. */
  lemma CoerceRewardsSpec(f: Frame, lib: Library)
    requires WellFormed(f)
    ensures CoerceRewards(f, lib).Failure? <==> "reward_value" !in f.columns
    ensures CoerceRewards(f, lib).Success? ==>
              var g := CoerceRewards(f, lib).value;
              && WellFormed(g)
              && g.columns == f.columns
              && |g.rows| == |f.rows|
              && (forall i :: 0 <= i < |f.rows| ==> "reward_value" in f.rows[i] && "reward_value" in g.rows[i])
              && (forall i :: 0 <= i < |f.rows| ==> g.rows[i]["reward_value"].Null? || g.rows[i]["reward_value"].Number?)
              && (forall i :: 0 <= i < |f.rows| && (f.rows[i]["reward_value"].Null? || f.rows[i]["reward_value"].Number?) ==>
                    g.rows[i]["reward_value"] == f.rows[i]["reward_value"])
              && (forall i, c :: 0 <= i < |f.rows| && c in f.columns ==> c in f.rows[i] && c in g.rows[i])
              && (forall i, c :: 0 <= i < |f.rows| && c in f.columns && c != "reward_value" ==> g.rows[i][c] == f.rows[i][c])
  {
    if "reward_value" in f.columns {
      SetColumnSpec(f, "reward_value", seq(|f.rows|, i requires 0 <= i < |f.rows| => ToNumeric(Get(f.rows[i], "reward_value"), lib)));
      forall i | 0 <= i < |f.rows| ensures "reward_value" in f.rows[i] {
        assert f.rows[i] in f.rows;
      }
    }
  }

  // ---------------------------------------------------------------------
  // df["is_business_logic_valid"] = df.apply(is_valid_referral, axis=1)
  // ---------------------------------------------------------------------

  /** The first row whose compared cells are not numbers or timestamps, and
      the label of its first such cell. */
  function FirstUntyped(rows: seq<Row>): (r: Option<string>)
    ensures r.None? <==> forall i :: 0 <= i < |rows| ==> Typed(rows[i])
  {
    if rows == [] then None
    else if !Typed(rows[0]) then
      var row := rows[0];
      Some(if !(Get(row, "reward_value").Number? || Get(row, "reward_value").Null?) then "reward_value"
           else if !(Get(row, "transaction_at").Stamp? || Get(row, "transaction_at").Null?) then "transaction_at"
           else if !(Get(row, "referral_at").Stamp? || Get(row, "referral_at").Null?) then "referral_at"
           else "membership_expired_date")
    else
      var rest := FirstUntyped(rows[1..]);
      assert forall i :: 0 <= i < |rows| - 1 ==> rows[1..][i] == rows[i + 1];
      rest
  }

  /** The validity flag of every row. A row whose compared cells are not
      numbers or timestamps stops the apply with a TypeError. */
  function Classify(f: Frame): Result<Frame>
  {
    match FirstUntyped(f.rows)
    case Some(c) => Failure(TypeError(c))
    case None =>
      Success(SetColumn(f, "is_business_logic_valid", seq(|f.rows|, i requires 0 <= i < |f.rows| => Flag(IsValidReferral(f.rows[i])))))
  }

  /** Classification succeeds exactly on typed rows and then writes each
      row's verdict into `is_business_logic_valid`, keeping every other cell. */
  lemma ClassifySpec(f: Frame)
    requires WellFormed(f)
    ensures Classify(f).Success? <==> forall i :: 0 <= i < |f.rows| ==> Typed(f.rows[i])
    ensures Classify(f).Success? ==>
              var g := Classify(f).value;
              && WellFormed(g)
              && ColumnSet(g.columns) == ColumnSet(f.columns) + {"is_business_logic_valid"}
              && |g.rows| == |f.rows|
              && (forall i :: 0 <= i < |f.rows| ==> "is_business_logic_valid" in g.rows[i])
              && (forall i :: 0 <= i < |f.rows| ==> g.rows[i]["is_business_logic_valid"] == Flag(IsValidReferral(f.rows[i])))
              && (forall i, c :: 0 <= i < |f.rows| && c in f.columns ==> c in f.rows[i] && c in g.rows[i])
              && (forall i, c :: 0 <= i < |f.rows| && c in f.columns && c != "is_business_logic_valid" ==> g.rows[i][c] == f.rows[i][c])
  {
    if Classify(f).Success? {
      SetColumnSpec(f, "is_business_logic_valid", seq(|f.rows|, i requires 0 <= i < |f.rows| => Flag(IsValidReferral(f.rows[i]))));
    }
  }

  /** After classification every row carries a flag. */
  lemma ClassifiedFlags(f: Frame)
    requires WellFormed(f) && Classify(f).Success?
    ensures forall r :: r in Classify(f).value.rows ==> Get(r, "is_business_logic_valid").Flag?
  {
    ClassifySpec(f);
    var g := Classify(f).value;
    forall r | r in g.rows
      ensures Get(r, "is_business_logic_valid").Flag?
    {
      var i :| 0 <= i < |g.rows| && g.rows[i] == r;
    }
  }

  // ---------------------------------------------------------------------
  // df[df["is_business_logic_valid"] == True]
  // ---------------------------------------------------------------------

  predicate FlaggedValid(row: Row)
  {
    Get(row, "is_business_logic_valid") == Flag(true)
  }

  /** The boolean mask filter, keeping row order. */
  function KeepValid(rows: seq<Row>): seq<Row>
    decreases |rows|
  {
    if rows == [] then []
    else KeepValid(rows[..|rows| - 1]) + (if FlaggedValid(rows[|rows| - 1]) then [rows[|rows| - 1]] else [])
  }

  /** The filter keeps exactly the valid rows. */
  lemma {:induction false} KeepValidElements(rows: seq<Row>)
    ensures forall r :: r in KeepValid(rows) <==> r in rows && FlaggedValid(r)
    ensures |KeepValid(rows)| <= |rows|
    decreases |rows|
  {
    if rows != [] {
      var prefix := rows[..|rows| - 1];
      KeepValidElements(prefix);
      assert rows == prefix + [rows[|rows| - 1]];
    }
  }

  /** The filter distributes over concatenation, so it keeps the valid rows
      in their original relative order. */
  lemma {:induction false} KeepValidAppend(a: seq<Row>, b: seq<Row>)
    ensures KeepValid(a + b) == KeepValid(a) + KeepValid(b)
    decreases |b|
  {
    if b == [] {
      assert a + b == a;
    } else {
      var prefix := b[..|b| - 1];
      KeepValidAppend(a, prefix);
      assert (a + b)[..|a + b| - 1] == a + prefix;
      assert (a + b)[|a + b| - 1] == b[|b| - 1];
    }
  }

  /** Filtering a filtered sequence changes nothing. */
  lemma {:induction false} KeepValidIdempotent(rows: seq<Row>)
    ensures KeepValid(KeepValid(rows)) == KeepValid(rows)
    decreases |rows|
  {
    if rows != [] {
      var prefix, last := rows[..|rows| - 1], rows[|rows| - 1];
      KeepValidIdempotent(prefix);
      var tail := if FlaggedValid(last) then [last] else [];
      KeepValidAppend(KeepValid(prefix), tail);
      if FlaggedValid(last) {
        assert KeepValid([last]) == KeepValid([]) + [last];
      }
    }
  }

  /** The records the referral rule accepts, in their order: the
      specification of classifying and then filtering on the flag. */
  function Accepted(rows: seq<Row>): (kept: seq<Row>)
    requires forall i :: 0 <= i < |rows| ==> Typed(rows[i])
    decreases |rows|
  {
    if rows == [] then []
    else
      var prefix := rows[..|rows| - 1];
      assert forall i :: 0 <= i < |prefix| ==> prefix[i] == rows[i];
      Accepted(prefix) + (if IsValidReferral(rows[|rows| - 1]) then [rows[|rows| - 1]] else [])
  }

  /** A record is accepted exactly when it is one of the rows and the rule
      holds for it. */
  lemma {:induction false} AcceptedElements(rows: seq<Row>)
    requires forall i :: 0 <= i < |rows| ==> Typed(rows[i])
    ensures forall r :: r in Accepted(rows) <==> r in rows && Typed(r) && IsValidReferral(r)
    decreases |rows|
  {
    if rows != [] {
      var prefix := rows[..|rows| - 1];
      AcceptedElements(prefix);
      assert rows == prefix + [rows[|rows| - 1]];
    }
  }

  /** Filtering the flagged rows on the flag keeps, in order, the rows the
      rule accepts, each now carrying the flag true. */
  lemma {:induction false} KeepValidOfFlagged(rows: seq<Row>, flagged: seq<Row>)
    requires forall i :: 0 <= i < |rows| ==> Typed(rows[i])
    requires |flagged| == |rows|
    requires forall i :: 0 <= i < |rows| ==> flagged[i] == rows[i]["is_business_logic_valid" := Flag(IsValidReferral(rows[i]))]
    ensures |KeepValid(flagged)| == |Accepted(rows)|
    ensures forall i :: 0 <= i < |Accepted(rows)| ==>
              KeepValid(flagged)[i] == Accepted(rows)[i]["is_business_logic_valid" := Flag(true)]
    decreases |rows|
  {
    if rows != [] {
      var n := |rows| - 1;
      var prefix, fprefix := rows[..n], flagged[..n];
      KeepValidOfFlagged(prefix, fprefix);
      assert Get(flagged[n], "is_business_logic_valid") == Flag(IsValidReferral(rows[n]));
    }
  }

  // ---------------------------------------------------------------------
  // Final selection and renaming
  // ---------------------------------------------------------------------

  /** The report's columns, in order, before renaming: the referral and
      the two people, then its outcome. */
  const ReportColumns: seq<string> := ReferralColumns + OutcomeColumns

  const ReferralColumns: seq<string> := [
    "id", "referral_id", "referral_source", "referral_source_category", "referral_at",
    "referrer_id", "referrer_name", "referrer_phone_number", "referrer_homeclub",
    "referee_id", "referee_name", "referee_phone"]

  const OutcomeColumns: seq<string> := [
    "referral_status", "reward_value",
    "transaction_id", "transaction_status", "transaction_at", "transaction_location",
    "transaction_type", "updated_at", "created_at", "is_business_logic_valid"]

  const ReportRenames: map<string, string> := map[
    "id" := "referral_details_id",
    "reward_value" := "num_reward_days",
    "created_at" := "reward_granted_at"]

  /** The report's header as written. */
  const ReportHeader: seq<string> := ReferralHeader + OutcomeHeader

  const ReferralHeader: seq<string> := [
    "referral_details_id", "referral_id", "referral_source", "referral_source_category", "referral_at",
    "referrer_id", "referrer_name", "referrer_phone_number", "referrer_homeclub",
    "referee_id", "referee_name", "referee_phone"]

  const OutcomeHeader: seq<string> := [
    "referral_status", "num_reward_days",
    "transaction_id", "transaction_status", "transaction_at", "transaction_location",
    "transaction_type", "updated_at", "reward_granted_at", "is_business_logic_valid"]

  /** `final_df = df[mask].copy()[ReportColumns]` renamed by `ReportRenames`. */
  function FinalReport(f: Frame): Result<Frame>
  {
    var selected :- Select(Frame(f.columns, KeepValid(f.rows)), ReportColumns);
    ReportColumnsDistinct();
    Rename(selected, ReportRenames)
  }

  lemma ReportColumnsDistinct()
    ensures NoDup(ReportColumns)
  {
    ReferralColumnsDistinct();
    OutcomeColumnsDistinct();
    ColumnGroupsDisjoint();
    NoDupAppend(ReferralColumns, OutcomeColumns);
  }

  lemma ReferralColumnsDistinct()
    ensures NoDup(ReferralColumns)
  {
  }

  lemma OutcomeColumnsDistinct()
    ensures NoDup(OutcomeColumns)
  {
  }

  lemma ColumnGroupsDisjoint()
    ensures forall c :: c in ReferralColumns ==> c !in OutcomeColumns
  {
  }

  lemma ReportHeaderDistinct()
    ensures NoDup(ReportHeader)
  {
    ReferralHeaderDistinct();
    OutcomeHeaderDistinct();
    HeaderGroupsDisjoint();
    NoDupAppend(ReferralHeader, OutcomeHeader);
  }

  lemma ReferralHeaderDistinct()
    ensures NoDup(ReferralHeader)
  {
  }

  lemma OutcomeHeaderDistinct()
    ensures NoDup(OutcomeHeader)
  {
  }

  lemma HeaderGroupsDisjoint()
    ensures forall c :: c in ReferralHeader ==> c !in OutcomeHeader
  {
  }

  /** Only the three renamed columns change name. */
  lemma ReportHeaderRenamed()
    ensures RenamedColumns(ReportColumns, ReportRenames) == ReportHeader
  {
    var r := RenamedColumns(ReportColumns, ReportRenames);
    forall i | 0 <= i < |ReportColumns|
      ensures r[i] == ReportHeader[i]
    {
      if i != 0 && i != 13 && i != 20 {
        assert ReportColumns[i] == ReportHeader[i];
        assert ReportColumns[i] !in ReportRenames;
      }
    }
  }

  /** The report fails exactly when a report column is missing. */
  lemma FinalReportSucceeds(f: Frame)
    ensures FinalReport(f).Success? <==> forall c :: c in ReportColumns ==> c in f.columns
  {
    ReportColumnsDistinct();
    var g := Frame(f.columns, KeepValid(f.rows));
    SelectSpec(g, ReportColumns);
    if forall c :: c in ReportColumns ==> c in f.columns {
      ReportHeaderDistinct();
      ReportHeaderRenamed();
      SelectThenRename(g, ReportColumns, ReportRenames);
    }
  }

  /** A report has the renamed header and, in order, one row per valid
      record, each holding that record's cells under their report names. */
  lemma FinalReportRows(f: Frame)
    requires forall c :: c in ReportColumns ==> c in f.columns
    ensures FinalReport(f).Success?
    ensures var out := FinalReport(f).value;
            var kept := KeepValid(f.rows);
            && out.columns == ReportHeader
            && WellFormed(out)
            && |out.rows| == |kept|
            && forall i, c :: 0 <= i < |kept| && c in ReportColumns ==>
                 NewName(ReportRenames, c) in out.rows[i] && out.rows[i][NewName(ReportRenames, c)] == Get(kept[i], c)
  {
    ReportColumnsDistinct();
    ReportHeaderDistinct();
    ReportHeaderRenamed();
    SelectThenRename(Frame(f.columns, KeepValid(f.rows)), ReportColumns, ReportRenames);
  }

  /** Every reported record is flagged valid. */
  lemma FinalReportAllValid(f: Frame)
    requires FinalReport(f).Success?
    ensures forall r :: r in FinalReport(f).value.rows ==> FlaggedValid(r)
  {
    FinalReportSucceeds(f);
    FinalReportRows(f);
    var out := FinalReport(f).value;
    var kept := KeepValid(f.rows);
    var flag := "is_business_logic_valid";
    KeepValidElements(f.rows);
    assert NewName(ReportRenames, flag) == flag;
    assert ReportColumns[21] == flag;
    forall r | r in out.rows
      ensures FlaggedValid(r)
    {
      var i :| 0 <= i < |out.rows| && out.rows[i] == r;
      assert kept[i] in kept;
      assert r[flag] == Get(kept[i], flag);
    }
  }

  /** A report that was produced has the report header, is well formed and
      lists only records flagged valid. */
  lemma FinalReportSpec(f: Frame)
    requires FinalReport(f).Success?
    ensures var out := FinalReport(f).value;
            && out.columns == ReportHeader
            && WellFormed(out)
            && forall r :: r in out.rows ==> FlaggedValid(r)
  {
    FinalReportSucceeds(f);
    FinalReportRows(f);
    FinalReportAllValid(f);
  }

  /** `report` lists, in order, one row per accepted record of `rows`: each
      of `columns` other than the flag holds that record's cell, under its
      name after `renames`, and the flag is true. */
  predicate ListsAcceptedUnder(report: Frame, rows: seq<Row>, columns: seq<string>, renames: map<string, string>)
    requires forall i :: 0 <= i < |rows| ==> Typed(rows[i])
  {
    var acc := Accepted(rows);
    && |report.rows| == |acc|
    && (forall i, c :: 0 <= i < |acc| && c in columns && c != "is_business_logic_valid" ==>
          Get(report.rows[i], NewName(renames, c)) == Get(acc[i], c))
    && (forall i :: 0 <= i < |acc| ==> Get(report.rows[i], "is_business_logic_valid") == Flag(true))
  }

  /** The report's instance of `ListsAcceptedUnder`. */
  predicate ListsAccepted(report: Frame, rows: seq<Row>)
    requires forall i :: 0 <= i < |rows| ==> Typed(rows[i])
  {
    ListsAcceptedUnder(report, rows, ReportColumns, ReportRenames)
  }

  /** Classification sets each row's flag to the rule's verdict. */
  lemma ClassifiedRows(f: Frame)
    requires Classify(f).Success?
    ensures forall i :: 0 <= i < |f.rows| ==> Typed(f.rows[i])
    ensures var g := Classify(f).value;
            && |g.rows| == |f.rows|
            && forall i :: 0 <= i < |f.rows| ==>
                 g.rows[i] == f.rows[i]["is_business_logic_valid" := Flag(IsValidReferral(f.rows[i]))]
  {
  }

  /** Filtering rows flagged with the rule's verdict, selecting `columns`
      and renaming them lists the accepted records, when the flag is
      selected and keeps its name. */
  lemma FlaggedSelectionListsAccepted(g: Frame, rows: seq<Row>, columns: seq<string>, renames: map<string, string>)
    requires forall i :: 0 <= i < |rows| ==> Typed(rows[i])
    requires |g.rows| == |rows|
    requires forall i :: 0 <= i < |rows| ==> g.rows[i] == rows[i]["is_business_logic_valid" := Flag(IsValidReferral(rows[i]))]
    requires NoDup(columns) && NoDup(RenamedColumns(columns, renames))
    requires forall c :: c in columns ==> c in g.columns
    requires "is_business_logic_valid" in columns && NewName(renames, "is_business_logic_valid") == "is_business_logic_valid"
    ensures Select(Frame(g.columns, KeepValid(g.rows)), columns).Success?
    ensures Rename(Select(Frame(g.columns, KeepValid(g.rows)), columns).value, renames).Success?
    ensures ListsAcceptedUnder(Rename(Select(Frame(g.columns, KeepValid(g.rows)), columns).value, renames).value, rows, columns, renames)
  {
    var flag := "is_business_logic_valid";
    var kept := KeepValid(g.rows);
    SelectThenRename(Frame(g.columns, kept), columns, renames);
    KeepValidOfFlagged(rows, g.rows);
    var out := Rename(Select(Frame(g.columns, kept), columns).value, renames).value;
    var acc := Accepted(rows);
    forall i, c | 0 <= i < |acc| && c in columns && c != flag
      ensures Get(out.rows[i], NewName(renames, c)) == Get(acc[i], c)
    {
      assert Get(kept[i], c) == Get(acc[i], c);
    }
    forall i | 0 <= i < |acc|
      ensures Get(out.rows[i], flag) == Flag(true)
    {
      assert out.rows[i][NewName(renames, flag)] == Get(kept[i], flag);
    }
  }

  /** The report on rows flagged with the rule's verdict lists the
      accepted records. */
  lemma FlaggedReportListsAccepted(g: Frame, rows: seq<Row>)
    requires forall i :: 0 <= i < |rows| ==> Typed(rows[i])
    requires |g.rows| == |rows|
    requires forall i :: 0 <= i < |rows| ==> g.rows[i] == rows[i]["is_business_logic_valid" := Flag(IsValidReferral(rows[i]))]
    requires FinalReport(g).Success?
    ensures ListsAccepted(FinalReport(g).value, rows)
  {
    FinalReportSucceeds(g);
    ReportColumnsDistinct();
    ReportHeaderDistinct();
    ReportHeaderRenamed();
    assert NewName(ReportRenames, "is_business_logic_valid") == "is_business_logic_valid";
    assert ReportColumns[21] == "is_business_logic_valid";
    FlaggedSelectionListsAccepted(g, rows, ReportColumns, ReportRenames);
  }

  /** Classifying a frame and reporting on it lists exactly the records the
      referral rule accepts, in their order. */
  lemma ReportListsAccepted(f: Frame)
    requires Classify(f).Success? && FinalReport(Classify(f).value).Success?
    ensures forall i :: 0 <= i < |f.rows| ==> Typed(f.rows[i])
    ensures ListsAccepted(FinalReport(Classify(f).value).value, f.rows)
  {
    ClassifiedRows(f);
    FlaggedReportListsAccepted(Classify(f).value, f.rows);
  }
}
