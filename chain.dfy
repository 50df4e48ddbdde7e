/** The join stage: seven left merges anchored on the referral table, the
    renames between them, and a final exact-row de-duplication. */
module JoinChain {
  import opened Values
  import opened Frames
  import opened Joins

  /** The frames the join stage reads, as the earlier stages leave them. */
  datatype Sources = Sources(
    referrals: Frame,
    referralLogs: Frame,
    users: Frame,
    statuses: Frame,
    rewards: Frame,
    paid: Frame,
    leads: Frame)

  /** A merge step keeps a well-formed frame well formed and loses none of
      its distinct rows. */
  lemma MergeStep(left: Frame, right: Frame, key: JoinKey, leftSuffix: string, rightSuffix: string, n: nat)
    requires WellFormed(left) && |Distinct(left.rows)| >= n
    requires Merge(left, right, key, leftSuffix, rightSuffix).Success?
    ensures var out := Merge(left, right, key, leftSuffix, rightSuffix).value;
            WellFormed(out) && |Distinct(out.rows)| >= n
  {
    MergeSpec(left, right, key, leftSuffix, rightSuffix);
  }

  /** A rename step keeps a well-formed frame well formed and keeps its
      distinct rows. */
  lemma RenameStep(f: Frame, m: map<string, string>, n: nat)
    requires WellFormed(f) && |Distinct(f.rows)| >= n
    requires Rename(f, m).Success?
    ensures WellFormed(Rename(f, m).value) && |Distinct(Rename(f, m).value.rows)| >= n
  {
    RenameSpec(f, m);
    RenameKeepsDistinctRows(f, m);
  }

  /** The merge chain. Each step either raises (a missing key or selected
      column, suffixes that give two columns of one side the same label, or
      a merge or rename that would give two columns one label) or keeps
      every referral: the joined frame is well formed, has no two equal rows,
      and has at least as many rows as the referral table has distinct rows. */
  method JoinTables(s: Sources) returns (res: Result<Frame>)
    requires WellFormed(s.referrals)
    ensures res.Success? ==>
              && WellFormed(res.value)
              && NoDup(res.value.rows)
              && |res.value.rows| >= |Distinct(s.referrals.rows)|
  {
    ghost var n := |Distinct(s.referrals.rows)|;

    // referral logs
    var key := LeftRightOn("referral_id", "user_referral_id");
    var df :- LeftMerge(s.referrals, s.referralLogs, key, "_x", "_y");
    MergeStep(s.referrals, s.referralLogs, key, "_x", "_y", n);

    // referral statuses, description renamed to referral_status
    var statuses :- Select(s.statuses, ["id", "description"]);
    key := LeftRightOn("user_referral_status_id", "id");
    var merged :- LeftMerge(df, statuses, key, "_x", "_y");
    MergeStep(df, statuses, key, "_x", "_y", n);
    df :- Rename(merged, map["description" := "referral_status"]);
    RenameStep(merged, map["description" := "referral_status"], n);

    // referral rewards
    key := LeftRightOn("referral_reward_id", "id");
    merged :- LeftMerge(df, s.rewards, key, "", "_reward");
    MergeStep(df, s.rewards, key, "", "_reward", n);
    df := merged;

    // paid transactions
    key := On("transaction_id");
    merged :- LeftMerge(df, s.paid, key, "_x", "_y");
    MergeStep(df, s.paid, key, "_x", "_y", n);
    df := merged;

    // referrer details
    var referrers :- Select(s.users, ["user_id", "name", "phone_number", "homeclub", "membership_expired_date", "is_deleted"]);
    key := LeftRightOn("referrer_id", "user_id");
    merged :- LeftMerge(df, referrers, key, "", "_referrer");
    MergeStep(df, referrers, key, "", "_referrer", n);
    var referrerNames := map["name" := "referrer_name", "phone_number" := "referrer_phone_number", "homeclub" := "referrer_homeclub"];
    df :- Rename(merged, referrerNames);
    RenameStep(merged, referrerNames, n);

    // referee details
    var referees :- Select(s.users, ["user_id", "name", "phone_number"]);
    key := LeftRightOn("referee_id", "user_id");
    merged :- LeftMerge(df, referees, key, "", "_referee");
    MergeStep(df, referees, key, "", "_referee", n);
    var refereeNames := map["name" := "referee_name", "phone_number" := "referee_phone"];
    df :- Rename(merged, refereeNames);
    RenameStep(merged, refereeNames, n);

    // lead sources
    var leads :- Select(s.leads, ["lead_id", "source_category"]);
    key := LeftRightOn("referee_id", "lead_id");
    merged :- LeftMerge(df, leads, key, "_x", "_y");
    MergeStep(df, leads, key, "_x", "_y", n);

    df := DropDuplicates(merged);
    DedupNoDup(merged.rows);
    DedupCard(merged.rows);
    return Success(df);
  }
}
