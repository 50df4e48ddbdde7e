/** The business rule that decides whether one joined referral record is a
    valid referral for the reward report. */
module Eligibility {
  import opened Values

  /** The cells the rule compares with `>` or reads `.month` of carry numbers
      or timestamps (or are missing), as they do once `reward_value` has been
      coerced and the time columns parsed; otherwise the comparison raises. */
  predicate Typed(row: Row)
  {
    && (Get(row, "reward_value").Number? || Get(row, "reward_value").Null?)
    && (Get(row, "transaction_at").Stamp? || Get(row, "transaction_at").Null?)
    && (Get(row, "referral_at").Stamp? || Get(row, "referral_at").Null?)
    && (Get(row, "membership_expired_date").Stamp? || Get(row, "membership_expired_date").Null?)
  }

  /** Condition B: a pending or failed referral that carries no reward. */
  predicate PendingWithoutReward(row: Row)
    requires Typed(row)
  {
    var reward := Get(row, "reward_value");
    && Get(row, "referral_status") in [Text("Menunggu"), Text("Tidak Berhasil")]
    && (reward.Null? || reward.x == 0.0)
  }

  /** Condition A: a successful referral with a reward, backed by a paid new
      transaction made after the referral and in the same calendar month
      number, while the referrer's membership was still running, for a
      referrer that is not deleted and a reward that was granted. */
  predicate SuccessfulWithReward(row: Row)
    requires Typed(row)
  {
    var reward := Get(row, "reward_value");
    var transactionAt := Get(row, "transaction_at");
    var referralAt := Get(row, "referral_at");
    var expires := Get(row, "membership_expired_date");
    && !reward.Null? && reward.x > 0.0
    && Get(row, "referral_status") == Text("Berhasil")
    && !Get(row, "transaction_id").Null?
    && Get(row, "transaction_status") == Text("Paid")
    && Get(row, "transaction_type") == Text("New")
    && !transactionAt.Null?
    && !referralAt.Null?
    && Later(transactionAt.t, referralAt.t)
    && transactionAt.t.month == referralAt.t.month
    && (expires.Null? || Later(expires.t, referralAt.t))
    && Get(row, "is_deleted") == Flag(false)
    && Get(row, "is_reward_granted") == Flag(true)
  }

  /** `is_valid_referral(row)`. */
  predicate IsValidReferral(row: Row)
    requires Typed(row)
  {
    PendingWithoutReward(row) || SuccessfulWithReward(row)
  }

  /** A pending or failed referral without a reward is valid whatever its
      other fields hold. */
  lemma PendingWithoutRewardIsValid(row: Row)
    requires Typed(row)
    requires Get(row, "referral_status") == Text("Menunggu") || Get(row, "referral_status") == Text("Tidak Berhasil")
    requires Get(row, "reward_value") == Null || Get(row, "reward_value") == Number(0.0)
    ensures IsValidReferral(row)
  {
  }

  /** A record with a reward, or with any status other than pending or
      failed, is valid exactly when every check of condition A passes. */
  lemma ValidOtherwiseOnlyBySuccess(row: Row)
    requires Typed(row)
    requires !(Get(row, "referral_status") == Text("Menunggu") || Get(row, "referral_status") == Text("Tidak Berhasil"))
             || (Get(row, "reward_value").Number? && Get(row, "reward_value").x != 0.0)
    ensures IsValidReferral(row) <==>
              var reward := Get(row, "reward_value");
              var transactionAt := Get(row, "transaction_at");
              var referralAt := Get(row, "referral_at");
              var expires := Get(row, "membership_expired_date");
              && reward.Number? && reward.x > 0.0
              && Get(row, "referral_status") == Text("Berhasil")
              && Get(row, "transaction_id") != Null
              && Get(row, "transaction_status") == Text("Paid")
              && Get(row, "transaction_type") == Text("New")
              && transactionAt.Stamp? && referralAt.Stamp?
              && Later(transactionAt.t, referralAt.t)
              && transactionAt.t.month == referralAt.t.month
              && (expires.Null? || Later(expires.t, referralAt.t))
              && Get(row, "is_deleted") == Flag(false)
              && Get(row, "is_reward_granted") == Flag(true)
  {
  }

  /** The two conditions never both hold: condition A needs the status
      "Berhasil" and a positive reward. */
  lemma ConditionsDisjoint(row: Row)
    requires Typed(row)
    ensures !(PendingWithoutReward(row) && SuccessfulWithReward(row))
  {
  }

  /** A missing `is_deleted` or `is_reward_granted`, or one that is not the
      exact flag the rule asks for, keeps a rewarded record out. */
  lemma InexactFlagsBlockReward(row: Row)
    requires Typed(row)
    requires Get(row, "is_deleted") != Flag(false) || Get(row, "is_reward_granted") != Flag(true)
    ensures IsValidReferral(row) <==> PendingWithoutReward(row)
    ensures Get(row, "reward_value").Number? && Get(row, "reward_value").x > 0.0 ==> !IsValidReferral(row)
  {
  }

  /** A transaction that is later than the referral but has a different
      month number is rejected for a rewarded record. */
  lemma DifferentMonthRejected(row: Row)
    requires Typed(row)
    requires Get(row, "reward_value").Number? && Get(row, "reward_value").x > 0.0
    requires Get(row, "transaction_at").Stamp? && Get(row, "referral_at").Stamp?
    requires Get(row, "transaction_at").t.month != Get(row, "referral_at").t.month
    ensures !IsValidReferral(row)
  {
  }

  /** Only the month number is compared: a transaction a year and a few days
      after the referral, in the same month number, passes condition A when
      every other check passes. */
  lemma SameMonthOtherYearAccepted(referralAt: DateTime, transactionAt: DateTime, row: Row)
    requires transactionAt.year > referralAt.year && transactionAt.month == referralAt.month
    requires row == map[
      "reward_value" := Number(10.0),
      "referral_status" := Text("Berhasil"),
      "transaction_id" := Text("T1"),
      "transaction_status" := Text("Paid"),
      "transaction_type" := Text("New"),
      "transaction_at" := Stamp(transactionAt),
      "referral_at" := Stamp(referralAt),
      "membership_expired_date" := Null,
      "is_deleted" := Flag(false),
      "is_reward_granted" := Flag(true)]
    ensures Typed(row) && IsValidReferral(row)
  {
  }

  function SampleRecord(transactionAt: DateTime, isDeleted: Value): Row
  {
    map[
      "reward_value" := Number(30.0),
      "referral_status" := Text("Berhasil"),
      "transaction_id" := Text("TRX-1"),
      "transaction_status" := Text("Paid"),
      "transaction_type" := Text("New"),
      "transaction_at" := Stamp(transactionAt),
      "referral_at" := Stamp(DateTime(2024, 3, 1, 0, 0, 0)),
      "membership_expired_date" := Stamp(DateTime(2025, 1, 1, 0, 0, 0)),
      "is_deleted" := isDeleted,
      "is_reward_granted" := Flag(true)]
  }

  /** A referral on 1 March 2024 with a paid new transaction on 15 March is
      valid; the same with the transaction on 15 April, or with a missing
      `is_deleted`, is not. */
  lemma SampleRecords()
    ensures Typed(SampleRecord(DateTime(2024, 3, 15, 0, 0, 0), Flag(false)))
    ensures IsValidReferral(SampleRecord(DateTime(2024, 3, 15, 0, 0, 0), Flag(false)))
    ensures Typed(SampleRecord(DateTime(2024, 4, 15, 0, 0, 0), Flag(false)))
    ensures !IsValidReferral(SampleRecord(DateTime(2024, 4, 15, 0, 0, 0), Flag(false)))
    ensures Typed(SampleRecord(DateTime(2024, 3, 15, 0, 0, 0), Null))
    ensures !IsValidReferral(SampleRecord(DateTime(2024, 3, 15, 0, 0, 0), Null))
  {
  }
}
