/** The rule-based recommendation engine of full.py: `suggest_products` and
    `suggest_investment`, with their label catalogs and message texts. */
module Recommendation {
  import opened Text
  import opened Messages

  /** What a recommender returns: an ordered list of catalog labels, or a
      single explanatory message. The source returns a Python list in the
      first case and a str in the second. */
  datatype Recommendation = Granted(labels: seq<string>) | Rejected(message: string)

  /** Product catalog of `suggest_products`, in catalog order. */
  const PRODUCTS: seq<string> := [
    "بطاقة ائتمانية Infinite",
    "تمويل شخصي مرابحة",
    "تمويل عقاري",
    "بطاقة ائتمانية Signature",
    "حساب توفير",
    "تمويل سيارة",
    "صكوك استثمارية",
    "صناديق استثمارية"
  ]

  /** Investment catalog of `suggest_investment`, in catalog order. */
  const INVESTMENTS: seq<string> := [
    "حساب توفير ( 2%)",
    "صكوك شرعية ( 3-4%)",
    "صناديق عقارية ( 5%+)",
    "استثمار في أسهم ( 10%)",
    "حساب جاري ( 1%)",
    "صناديق مالية ( 4%)",
    "استثمار في ذهب (مخاطر متوسطة)",
    "صناديق دولية ( 6%+)"
  ]

  /** Number of labels in the reduced offer (`products[:4]`, `investments[:4]`). */
  const SHORT_LIST: nat := 4

  /** The only message `suggest_investment` returns ("insufficient - focus on saving"). */
  const INSUFFICIENT_SURPLUS: string := "غير كافي - ركز على التوفير"

  /** Policy thresholds; every comparison against them is strict. */
  const FULL_OFFER_ELIGIBILITY: real := 80.0
  const SHORT_OFFER_ELIGIBILITY: real := 50.0
  const MAX_COMMITMENT_RATIO: real := 0.4
  const MIN_AGE: int := 30
  const MIN_MONTHS_IN_JOB: int := 12
  const FULL_INVESTMENT_SURPLUS: real := 5000.0
  const SHORT_INVESTMENT_SURPLUS: real := 1000.0

  /** The `reasons` list of `suggest_products`: one guarded append per check,
      in the order ratio, age, tenure. */
  function Reasons(commitmentRatio: real, age: int, monthsInJob: int): (reasons: seq<string>)
    ensures RATIO_REASON in reasons <==> commitmentRatio > MAX_COMMITMENT_RATIO
    ensures AGE_REASON in reasons <==> age < MIN_AGE
    ensures TENURE_REASON in reasons <==> monthsInJob < MIN_MONTHS_IN_JOB
  {
    (if commitmentRatio > MAX_COMMITMENT_RATIO then [RATIO_REASON] else [])
    + ((if age < MIN_AGE then [AGE_REASON] else [])
       + (if monthsInJob < MIN_MONTHS_IN_JOB then [TENURE_REASON] else []))
  }

  /** The reasons keep the fixed check order: they are a subsequence of
      ratio, age, tenure. */
  lemma ReasonsInFixedOrder(commitmentRatio: real, age: int, monthsInJob: int)
    ensures Subsequence(Reasons(commitmentRatio, age, monthsInJob), ALL_REASONS)
  {
    var tenure := if monthsInJob < MIN_MONTHS_IN_JOB then [TENURE_REASON] else [];
    assert Subsequence(tenure, [TENURE_REASON]) by {
      assert Subsequence<string>([], []);
      SubsequenceKeepOrSkip<string>(monthsInJob < MIN_MONTHS_IN_JOB, TENURE_REASON, [], []);
      assert tenure == tenure + [];
    }
    SubsequenceKeepOrSkip(age < MIN_AGE, AGE_REASON, tenure, [TENURE_REASON]);
    SubsequenceKeepOrSkip(commitmentRatio > MAX_COMMITMENT_RATIO, RATIO_REASON,
      (if age < MIN_AGE then [AGE_REASON] else []) + tenure, [AGE_REASON, TENURE_REASON]);
    assert [RATIO_REASON] + [AGE_REASON, TENURE_REASON] == ALL_REASONS;
    assert [AGE_REASON] + [TENURE_REASON] == [AGE_REASON, TENURE_REASON];
  }

  /** The reasons list is the only list in the fixed order that names exactly
      the checks that fired: which reasons appear determines the whole list. */
  lemma ReasonsCanonical(xs: seq<string>, commitmentRatio: real, age: int, monthsInJob: int)
    requires Subsequence(xs, ALL_REASONS)
    requires RATIO_REASON in xs <==> commitmentRatio > MAX_COMMITMENT_RATIO
    requires AGE_REASON in xs <==> age < MIN_AGE
    requires TENURE_REASON in xs <==> monthsInJob < MIN_MONTHS_IN_JOB
    ensures xs == Reasons(commitmentRatio, age, monthsInJob)
  {
    var reasons := Reasons(commitmentRatio, age, monthsInJob);
    ReasonsInFixedOrder(commitmentRatio, age, monthsInJob);
    forall x ensures x in xs <==> x in reasons {
      if x in xs { SubsequenceMembers(xs, ALL_REASONS, x); }
      if x in reasons { SubsequenceMembers(reasons, ALL_REASONS, x); }
    }
    SubsequenceDeterminedByMembers(xs, reasons, ALL_REASONS);
  }

  /** The string `suggest_products` returns on the rejection path. */
  function RejectionMessage(commitmentRatio: real, age: int, monthsInJob: int): (msg: string)
    ensures REJECTION_PREFIX <= msg
  {
    Compose(REJECTION_PREFIX, Reasons(commitmentRatio, age, monthsInJob), REASON_SEPARATOR, UNSPECIFIED_REASON)
  }

  /** `suggest_products`: the full catalog above 80, its first four labels
      above 50, otherwise a rejection message. */
  function SuggestProducts(eligibilityPercent: real, commitmentRatio: real, age: int, monthsInJob: int)
    : (r: Recommendation)
    ensures r == Granted(PRODUCTS) <==> eligibilityPercent > FULL_OFFER_ELIGIBILITY
    ensures r == Granted(PRODUCTS[..SHORT_LIST])
            <==> SHORT_OFFER_ELIGIBILITY < eligibilityPercent <= FULL_OFFER_ELIGIBILITY
    ensures r.Rejected? <==> eligibilityPercent <= SHORT_OFFER_ELIGIBILITY
    ensures r.Rejected? ==> r.message == RejectionMessage(commitmentRatio, age, monthsInJob)
  {
    if eligibilityPercent > FULL_OFFER_ELIGIBILITY then Granted(PRODUCTS)
    else if eligibilityPercent > SHORT_OFFER_ELIGIBILITY then Granted(PRODUCTS[..SHORT_LIST])
    else Rejected(RejectionMessage(commitmentRatio, age, monthsInJob))
  }

  /** `suggest_investment`: the full catalog when surplus and eligibility both
      clear the high bars, its first four labels when both clear the low
      bars, otherwise the fixed insufficiency message. */
  function SuggestInvestment(surplus: real, eligibilityPercent: real): (r: Recommendation)
    ensures r == Granted(INVESTMENTS)
            <==> surplus > FULL_INVESTMENT_SURPLUS && eligibilityPercent > FULL_OFFER_ELIGIBILITY
    ensures r == Granted(INVESTMENTS[..SHORT_LIST])
            <==> !(surplus > FULL_INVESTMENT_SURPLUS && eligibilityPercent > FULL_OFFER_ELIGIBILITY)
                 && surplus > SHORT_INVESTMENT_SURPLUS && eligibilityPercent > SHORT_OFFER_ELIGIBILITY
    ensures r == Rejected(INSUFFICIENT_SURPLUS)
            <==> !(surplus > FULL_INVESTMENT_SURPLUS && eligibilityPercent > FULL_OFFER_ELIGIBILITY)
                 && !(surplus > SHORT_INVESTMENT_SURPLUS && eligibilityPercent > SHORT_OFFER_ELIGIBILITY)
  {
    if surplus > FULL_INVESTMENT_SURPLUS && eligibilityPercent > FULL_OFFER_ELIGIBILITY then
      Granted(INVESTMENTS)
    else if surplus > SHORT_INVESTMENT_SURPLUS && eligibilityPercent > SHORT_OFFER_ELIGIBILITY then
      Granted(INVESTMENTS[..SHORT_LIST])
    else
      Rejected(INSUFFICIENT_SURPLUS)
  }

  /** The rejection message names the commitment-ratio reason (and its "40%")
      exactly when the ratio exceeds 0.4. */
  lemma RejectionNamesRatio(commitmentRatio: real, age: int, monthsInJob: int)
    ensures Occurs(RATIO_REASON, RejectionMessage(commitmentRatio, age, monthsInJob))
            <==> commitmentRatio > MAX_COMMITMENT_RATIO
    ensures Occurs("40%", RejectionMessage(commitmentRatio, age, monthsInJob))
            <==> commitmentRatio > MAX_COMMITMENT_RATIO
  {
    var reasons := Reasons(commitmentRatio, age, monthsInJob);
    ReasonsInFixedOrder(commitmentRatio, age, monthsInJob);
    PercentOnlyInRatioReason();
    RatioMarker();
    OccursSelf(RATIO_REASON);
    OccursCharacter("40%", RATIO_REASON, '%');
    MarkerOccursIffChosen(REJECTION_PREFIX, reasons, REASON_SEPARATOR, UNSPECIFIED_REASON,
                          ALL_REASONS, RATIO_REASON, RATIO_REASON, '%');
    MarkerOccursIffChosen(REJECTION_PREFIX, reasons, REASON_SEPARATOR, UNSPECIFIED_REASON,
                          ALL_REASONS, RATIO_REASON, "40%", '%');
  }

  /** The rejection message names the age reason (and its "30") exactly when
      the applicant is younger than 30. */
  lemma RejectionNamesAge(commitmentRatio: real, age: int, monthsInJob: int)
    ensures Occurs(AGE_REASON, RejectionMessage(commitmentRatio, age, monthsInJob)) <==> age < MIN_AGE
    ensures Occurs("30", RejectionMessage(commitmentRatio, age, monthsInJob)) <==> age < MIN_AGE
  {
    var reasons := Reasons(commitmentRatio, age, monthsInJob);
    ReasonsInFixedOrder(commitmentRatio, age, monthsInJob);
    ThreeOnlyInAgeReason();
    AgeMarker();
    OccursSelf(AGE_REASON);
    OccursCharacter("30", AGE_REASON, '3');
    MarkerOccursIffChosen(REJECTION_PREFIX, reasons, REASON_SEPARATOR, UNSPECIFIED_REASON,
                          ALL_REASONS, AGE_REASON, AGE_REASON, '3');
    MarkerOccursIffChosen(REJECTION_PREFIX, reasons, REASON_SEPARATOR, UNSPECIFIED_REASON,
                          ALL_REASONS, AGE_REASON, "30", '3');
  }

  /** The rejection message names the tenure reason (and its "12") exactly
      when the applicant has been in the job fewer than 12 months. */
  lemma RejectionNamesTenure(commitmentRatio: real, age: int, monthsInJob: int)
    ensures Occurs(TENURE_REASON, RejectionMessage(commitmentRatio, age, monthsInJob))
            <==> monthsInJob < MIN_MONTHS_IN_JOB
    ensures Occurs("12", RejectionMessage(commitmentRatio, age, monthsInJob))
            <==> monthsInJob < MIN_MONTHS_IN_JOB
  {
    var reasons := Reasons(commitmentRatio, age, monthsInJob);
    ReasonsInFixedOrder(commitmentRatio, age, monthsInJob);
    OneOnlyInTenureReason();
    TenureMarker();
    OccursSelf(TENURE_REASON);
    OccursCharacter("12", TENURE_REASON, '1');
    MarkerOccursIffChosen(REJECTION_PREFIX, reasons, REASON_SEPARATOR, UNSPECIFIED_REASON,
                          ALL_REASONS, TENURE_REASON, TENURE_REASON, '1');
    MarkerOccursIffChosen(REJECTION_PREFIX, reasons, REASON_SEPARATOR, UNSPECIFIED_REASON,
                          ALL_REASONS, TENURE_REASON, "12", '1');
  }

  /** The fallback text appears exactly when none of the three checks fired,
      and the message is then the prefix followed by the fallback. */
  lemma RejectionFallback(commitmentRatio: real, age: int, monthsInJob: int)
    ensures Occurs(UNSPECIFIED_REASON, RejectionMessage(commitmentRatio, age, monthsInJob))
            <==> !(commitmentRatio > MAX_COMMITMENT_RATIO) && !(age < MIN_AGE)
                 && !(monthsInJob < MIN_MONTHS_IN_JOB)
    ensures !(commitmentRatio > MAX_COMMITMENT_RATIO) && !(age < MIN_AGE) && !(monthsInJob < MIN_MONTHS_IN_JOB)
            ==> RejectionMessage(commitmentRatio, age, monthsInJob) == REJECTION_PREFIX + UNSPECIFIED_REASON
  {
    var reasons := Reasons(commitmentRatio, age, monthsInJob);
    ReasonsInFixedOrder(commitmentRatio, age, monthsInJob);
    DashOnlyInFallback();
    FallbackOccursIffNothingChosen(REJECTION_PREFIX, reasons, REASON_SEPARATOR, UNSPECIFIED_REASON,
                                   ALL_REASONS, '-');
  }
}
