/** The script from cleaning to the final report, stage by stage, with the
    frames reassigned as the script reassigns them. */
module Pipeline {
  import opened Values
  import opened Frames
  import opened Joins
  import opened Cleaning
  import opened Timezones
  import opened JoinChain
  import opened Standardize
  import opened Eligibility
  import opened Report

  /** The timezone stage. Transactions, leads and users convert their time
      column only when they carry the zone column; the referrals then take
      their referrer's home-club zone through a left merge and convert both
      of their time columns unconditionally. Results, in order: transactions,
      leads, users, referrals. */
  method LocalizeTimes(paid: Frame, leads: Frame, users: Frame, referrals: Frame, lib: Library)
    returns (res: Result<(Frame, Frame, Frame, Frame)>)
    requires WellFormed(paid) && WellFormed(leads) && WellFormed(users) && WellFormed(referrals)
    ensures res.Success? ==>
              && WellFormed(res.value.0) && |res.value.0.rows| == |paid.rows|
              && WellFormed(res.value.1) && |res.value.1.rows| == |leads.rows|
              && WellFormed(res.value.2) && |res.value.2.rows| == |users.rows|
              && WellFormed(res.value.3) && |res.value.3.rows| >= |referrals.rows|
  {
    ConvertIfZonedSpec(paid, "transaction_at", "timezone_transaction", lib);
    var paid' :- ConvertIfZoned(paid, "transaction_at", "timezone_transaction", lib);
    ConvertIfZonedSpec(leads, "created_at", "timezone_location", lib);
    var leads' :- ConvertIfZoned(leads, "created_at", "timezone_location", lib);
    ConvertIfZonedSpec(users, "membership_expired_date", "timezone_homeclub", lib);
    var users' :- ConvertIfZoned(users, "membership_expired_date", "timezone_homeclub", lib);

    var zones :- Select(users', ["user_id", "timezone_homeclub"]);
    var key := LeftRightOn("referrer_id", "user_id");
    var merged :- LeftMerge(referrals, zones, key, "_x", "_y");
    MergeSpec(referrals, zones, key, "_x", "_y");
    ConvertColumnSpec(merged, "referral_at", "timezone_homeclub", lib);
    var converted :- ConvertColumn(merged, "referral_at", "timezone_homeclub", lib);
    ConvertColumnSpec(converted, "updated_at", "timezone_homeclub", lib);
    var referrals' :- ConvertColumn(converted, "updated_at", "timezone_homeclub", lib);
    return Success((paid', leads', users', referrals'));
  }

  /** Source categories and string standardisation of the joined frame:
      it fails exactly when categorising does, and otherwise yields the
      categorised frame with every string column standardised. */
  method CategorizeAndStandardize(df: Frame, lib: Library) returns (res: Result<Frame>)
    requires WellFormed(df)
    ensures res.Success? <==> Categorize(df).Success?
    ensures res.Failure? ==> res == Failure(Categorize(df).error)
    ensures res.Success? ==>
              && res.value == Standardized(Categorize(df).value, StringColumns, lib)
              && WellFormed(res.value) && |res.value.rows| == |df.rows|
  {
    var categorized :- Categorize(df);
    SetColumnSpec(df, "referral_source_category", SourceCategories(df.rows).value);
    var standardized := StandardizeStrings(categorized, lib);
    StandardizedSpec(categorized, StringColumns, lib);
    return Success(standardized);
  }

  /** Reward coercion, classification and the report. The classified frame
      is the coerced frame with each record's verdict; the report is its
      final selection, has the report header, and lists in order exactly the
      coerced records the rule accepts. */
  method Validate(df: Frame, lib: Library) returns (res: Result<(Frame, Frame)>)
    requires WellFormed(df)
    ensures res.Success? ==>
              var (classified, report) := res.value;
              && CoerceRewards(df, lib).Success?
              && Classify(CoerceRewards(df, lib).value) == Success(classified)
              && (forall i :: 0 <= i < |CoerceRewards(df, lib).value.rows| ==> Typed(CoerceRewards(df, lib).value.rows[i]))
              && ListsAccepted(report, CoerceRewards(df, lib).value.rows)
              && WellFormed(classified)
              && |classified.rows| == |df.rows|
              && (forall r :: r in classified.rows ==> Get(r, "is_business_logic_valid").Flag?)
              && FinalReport(classified) == Success(report)
              && report.columns == ReportHeader
              && WellFormed(report)
              && forall r :: r in report.rows ==> FlaggedValid(r)
  {
    var coerced :- CoerceRewards(df, lib);
    CoerceRewardsSpec(df, lib);
    var classified :- Classify(coerced);
    ClassifySpec(coerced);
    ClassifiedFlags(coerced);
    var report :- FinalReport(classified);
    FinalReportSpec(classified);
    ReportListsAccepted(coerced);
    return Success((classified, report));
  }

  /** The whole run on the seven loaded tables: cleaning, timezones, joins,
      standardisation, classification and the report. Any pandas error on
      the way is the result instead. A run yields the joined frame, the
      classified frame and the report: the joined frame is well formed with
      no two equal rows; categorised, standardised and coerced it classifies
      to the classified frame, and the report lists exactly the records the
      rule accepts among them. */
  method RunPipeline(raw: map<string, Frame>, lib: Library) returns (res: Result<(Frame, Frame, Frame)>)
    requires forall name :: name in TableNames ==> name in raw && WellFormed(raw[name])
    ensures res.Success? ==>
              var (joined, classified, report) := res.value;
              && WellFormed(joined)
              && NoDup(joined.rows)
              && Categorize(joined).Success?
              && var df := Standardized(Categorize(joined).value, StringColumns, lib);
                 && WellFormed(df)
                 && |df.rows| == |joined.rows|
                 && CoerceRewards(df, lib).Success?
                 && Classify(CoerceRewards(df, lib).value) == Success(classified)
                 && (forall i :: 0 <= i < |CoerceRewards(df, lib).value.rows| ==> Typed(CoerceRewards(df, lib).value.rows[i]))
                 && ListsAccepted(report, CoerceRewards(df, lib).value.rows)
                 && WellFormed(classified)
                 && |classified.rows| == |joined.rows|
                 && FinalReport(classified) == Success(report)
                 && report.columns == ReportHeader
  {
    var tables := CleanTables(raw, lib);
    CleanedTablesWellFormed(raw, lib);
    assert "user_referrals" in TableNames && "user_referral_logs" in TableNames && "user_logs" in TableNames;
    assert "user_referral_statuses" in TableNames && "referral_rewards" in TableNames;
    assert "paid_transactions" in TableNames && "lead_logs" in TableNames;

    var localized :- LocalizeTimes(tables["paid_transactions"], tables["lead_logs"], tables["user_logs"], tables["user_referrals"], lib);
    var sources := Sources(localized.3, tables["user_referral_logs"], localized.2, tables["user_referral_statuses"],
                           tables["referral_rewards"], localized.0, localized.1);
    var joined :- JoinTables(sources);
    var df :- CategorizeAndStandardize(joined, lib);
    var validated :- Validate(df, lib);
    return Success((joined, validated.0, validated.1));
  }
}
