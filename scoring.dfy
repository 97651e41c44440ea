/** The scoring pipeline of `predict_full` in full.py: eligibility, then
    monthly payment, then surplus, each predicted and rounded before it feeds
    the next stage, followed by the two recommenders. The three trained
    predictors and Python's `round(x, 1)` are parameters. */
module Scoring {
  import opened Messages
  import opened Recommendation
  import Text

  /** The request body (`FullInput`). */
  datatype ApplicantInput = ApplicantInput(
    income: int,
    commitments: int,
    delayInSama: int,
    jobType: string,
    monthsInJob: int,
    accountType: string,
    age: int,
    principal: int,
    termMonths: int)

  /** The row given to the eligibility predictor, one field per column, in
      the source's column order: income, commitments, credit-bureau delays,
      job type, months in job, account type, age. */
  datatype EligibilityFeatures = EligibilityFeatures(
    income: int,
    commitments: int,
    delayInSama: int,
    jobType: string,
    monthsInJob: int,
    accountType: string,
    age: int)

  /** The row given to the payment predictor: amount, repayment term, age,
      income and the (rounded) eligibility percentage. */
  datatype PaymentFeatures = PaymentFeatures(
    principal: int,
    termMonths: int,
    age: int,
    income: int,
    eligibilityPercent: real)

  /** The row given to the surplus predictor: income, commitments and the
      (rounded) monthly payment. */
  datatype SurplusFeatures = SurplusFeatures(
    income: int,
    commitments: int,
    monthlyPayment: real)

  /** What one call to a predictor's `predict` yields: its first output, or
      the error it raised. */
  datatype Prediction = Predicted(value: real) | PredictorError(message: string)

  /** The three models of the loaded bundle ("eligibility", "payment",
      "surplus"), each an opaque deterministic function of its row. */
  datatype Predictors = Predictors(
    eligibility: EligibilityFeatures -> Prediction,
    payment: PaymentFeatures -> Prediction,
    surplus: SurplusFeatures -> Prediction)

  /** The four-field response of `predict_full`: eligibility percentage,
      suggested products, financial surplus, investment option. */
  datatype ScoringResult = ScoringResult(
    eligibilityPercent: real,
    products: Recommendation,
    surplus: real,
    investment: Recommendation)

  /** A response, or the error a predictor raised (which aborts the request). */
  datatype Outcome = Scored(result: ScoringResult) | Failed(message: string)

  /** `commitments / income`, or 0 when income is not positive; the division
      is carried out only when the divisor is positive. */
  function CommitmentRatio(income: int, commitments: int): (ratio: real)
    ensures income > 0 ==> ratio * income as real == commitments as real
    ensures income <= 0 ==> ratio == 0.0
  {
    if income > 0 then commitments as real / income as real else 0.0
  }

  /** With a positive income the ratio check "above 40%" is the integer
      comparison 10 * commitments > 4 * income; with no income it never fires. */
  lemma RatioAboveLimitIff(income: int, commitments: int)
    ensures income > 0 ==>
              (CommitmentRatio(income, commitments) > MAX_COMMITMENT_RATIO
               <==> 10 * commitments > 4 * income)
    ensures income <= 0 ==> !(CommitmentRatio(income, commitments) > MAX_COMMITMENT_RATIO)
  {
    if income > 0 {
      var ratio, i := CommitmentRatio(income, commitments), income as real;
      assert ratio * i == commitments as real;
      if ratio > MAX_COMMITMENT_RATIO {
        assert ratio * i > MAX_COMMITMENT_RATIO * i;
      } else {
        assert ratio * i <= MAX_COMMITMENT_RATIO * i;
      }
    }
  }

  /** The eligibility row copies the seven applicant columns it names and
      leaves out the loan amount and term. */
  function EligibilityFeaturesOf(input: ApplicantInput): (row: EligibilityFeatures)
    ensures row.income == input.income && row.commitments == input.commitments
    ensures row.delayInSama == input.delayInSama && row.jobType == input.jobType
    ensures row.monthsInJob == input.monthsInJob && row.accountType == input.accountType
    ensures row.age == input.age
  {
    EligibilityFeatures(input.income, input.commitments, input.delayInSama, input.jobType,
                        input.monthsInJob, input.accountType, input.age)
  }

  /** The payment row: amount, term, age and income from the request, and
      the eligibility percentage handed in by the previous stage. */
  function PaymentFeaturesOf(input: ApplicantInput, eligibilityPercent: real): (row: PaymentFeatures)
    ensures row.principal == input.principal && row.termMonths == input.termMonths
    ensures row.age == input.age && row.income == input.income
    ensures row.eligibilityPercent == eligibilityPercent
  {
    PaymentFeatures(input.principal, input.termMonths, input.age, input.income, eligibilityPercent)
  }

  /** The surplus row: income and commitments from the request, and the
      monthly payment handed in by the previous stage. */
  function SurplusFeaturesOf(input: ApplicantInput, monthlyPayment: real): (row: SurplusFeatures)
    ensures row.income == input.income && row.commitments == input.commitments
    ensures row.monthlyPayment == monthlyPayment
  {
    SurplusFeatures(input.income, input.commitments, monthlyPayment)
  }

  /** Each row reads only its own columns: two requests that agree on those
      columns (and on the value handed in by the previous stage) give the
      same row, whatever their other fields hold. */
  lemma FeatureRowsReadOnlyTheirColumns(a: ApplicantInput, b: ApplicantInput, x: real)
    ensures a.income == b.income && a.commitments == b.commitments && a.delayInSama == b.delayInSama
            && a.jobType == b.jobType && a.monthsInJob == b.monthsInJob
            && a.accountType == b.accountType && a.age == b.age
            ==> EligibilityFeaturesOf(a) == EligibilityFeaturesOf(b)
    ensures a.principal == b.principal && a.termMonths == b.termMonths && a.age == b.age
            && a.income == b.income
            ==> PaymentFeaturesOf(a, x) == PaymentFeaturesOf(b, x)
    ensures a.income == b.income && a.commitments == b.commitments
            ==> SurplusFeaturesOf(a, x) == SurplusFeaturesOf(b, x)
  {
  }

  /** `predict_full` after the bundle is loaded: the stages run in dependency
      order, and the first predictor error aborts the request. */
  function PredictFull(input: ApplicantInput, models: Predictors, round: real -> real): (o: Outcome)
    // A response exists exactly when all three predictors answered on the
    // rows the stages build; the first error is passed through unchanged.
    ensures models.eligibility(EligibilityFeaturesOf(input)).PredictorError?
            ==> o == Failed(models.eligibility(EligibilityFeaturesOf(input)).message)
    ensures o.Scored? ==> models.eligibility(EligibilityFeaturesOf(input)).Predicted?
    ensures var ep := models.eligibility(EligibilityFeaturesOf(input));
            ep.Predicted? ==>
              var pp := models.payment(PaymentFeaturesOf(input, round(ep.value)));
              (pp.PredictorError? ==> o == Failed(pp.message))
              && (pp.Predicted? ==>
                    var sp := models.surplus(SurplusFeaturesOf(input, round(pp.value)));
                    (sp.PredictorError? ==> o == Failed(sp.message))
                    && (sp.Predicted? <==> o.Scored?))
    // The returned eligibility is the rounded prediction, and that rounded
    // value is what the payment predictor saw.
    ensures o.Scored? ==>
              o.result.eligibilityPercent == round(models.eligibility(EligibilityFeaturesOf(input)).value)
              && models.payment(PaymentFeaturesOf(input, o.result.eligibilityPercent)).Predicted?
    // The surplus predictor saw the rounded payment; the returned surplus is
    // its rounded prediction.
    ensures o.Scored? ==>
              var payment := round(models.payment(PaymentFeaturesOf(input, o.result.eligibilityPercent)).value);
              models.surplus(SurplusFeaturesOf(input, payment)).Predicted?
              && o.result.surplus == round(models.surplus(SurplusFeaturesOf(input, payment)).value)
    // Both recommenders are given the rounded values that are returned.
    ensures o.Scored? ==>
              o.result.products
                == SuggestProducts(o.result.eligibilityPercent, CommitmentRatio(input.income, input.commitments),
                                   input.age, input.monthsInJob)
              && o.result.investment == SuggestInvestment(o.result.surplus, o.result.eligibilityPercent)
  {
    match models.eligibility(EligibilityFeaturesOf(input))
    case PredictorError(e) => Failed(e)
    case Predicted(rawEligibility) =>
      var eligibilityPercent := round(rawEligibility);
      var commitmentRatio := CommitmentRatio(input.income, input.commitments);
      match models.payment(PaymentFeaturesOf(input, eligibilityPercent))
      case PredictorError(e) => Failed(e)
      case Predicted(rawPayment) =>
        var monthlyPayment := round(rawPayment);
        match models.surplus(SurplusFeaturesOf(input, monthlyPayment))
        case PredictorError(e) => Failed(e)
        case Predicted(rawSurplus) =>
          var surplus := round(rawSurplus);
          Scored(ScoringResult(
            eligibilityPercent,
            SuggestProducts(eligibilityPercent, commitmentRatio, input.age, input.monthsInJob),
            surplus,
            SuggestInvestment(surplus, eligibilityPercent)))
  }

  /** Two predictions that a consumer of rounded values cannot tell apart. */
  predicate SameAfterRounding(a: Prediction, b: Prediction, round: real -> real)
  {
    match a
    case Predicted(x) => b.Predicted? && round(x) == round(b.value)
    case PredictorError(_) => a == b
  }

  /** Only rounded predictions flow onward: predictors that agree after
      rounding on every row give the same outcome. */
  lemma OnlyRoundedPredictionsMatter(input: ApplicantInput, m1: Predictors, m2: Predictors, round: real -> real)
    requires forall f :: SameAfterRounding(m1.eligibility(f), m2.eligibility(f), round)
    requires forall f :: SameAfterRounding(m1.payment(f), m2.payment(f), round)
    requires forall f :: SameAfterRounding(m1.surplus(f), m2.surplus(f), round)
    ensures PredictFull(input, m1, round) == PredictFull(input, m2, round)
  {
    var ef := EligibilityFeaturesOf(input);
    assert SameAfterRounding(m1.eligibility(ef), m2.eligibility(ef), round);
    if m1.eligibility(ef).Predicted? {
      var pf := PaymentFeaturesOf(input, round(m1.eligibility(ef).value));
      assert SameAfterRounding(m1.payment(pf), m2.payment(pf), round);
      if m1.payment(pf).Predicted? {
        var sf := SurplusFeaturesOf(input, round(m1.payment(pf).value));
        assert SameAfterRounding(m1.surplus(sf), m2.surplus(sf), round);
      }
    }
  }

  /** The approved applicant: income 10000, commitments 1000, age 35, two
      years in the job, eligibility predicted at 85.0 and surplus at 6000.0. */
  lemma ExampleFullOffer(input: ApplicantInput, models: Predictors, round: real -> real)
    requires input.income == 10000 && input.commitments == 1000
    requires input.age == 35 && input.monthsInJob == 24
    requires models.eligibility(EligibilityFeaturesOf(input)) == Predicted(85.0) && round(85.0) == 85.0
    requires models.payment(PaymentFeaturesOf(input, 85.0)).Predicted?
    requires models.surplus(SurplusFeaturesOf(input, round(models.payment(PaymentFeaturesOf(input, 85.0)).value)))
             == Predicted(6000.0)
    requires round(6000.0) == 6000.0
    ensures CommitmentRatio(input.income, input.commitments) == 0.1
    ensures PredictFull(input, models, round)
            == Scored(ScoringResult(85.0, Granted(PRODUCTS), 6000.0, Granted(INVESTMENTS)))
  {
  }

  /** The rejected applicant: income 5000, commitments 3000 (ratio 0.6), age
      22, six months in the job, eligibility 40.0. All three reasons are
      given, in the fixed order, joined by the separator. */
  lemma ExampleAllThreeReasons()
    ensures CommitmentRatio(5000, 3000) == 0.6
    ensures SuggestProducts(40.0, CommitmentRatio(5000, 3000), 22, 6)
            == Rejected(REJECTION_PREFIX + RATIO_REASON + REASON_SEPARATOR + AGE_REASON
                        + REASON_SEPARATOR + TENURE_REASON)
  {
    assert Reasons(0.6, 22, 6) == [RATIO_REASON, AGE_REASON, TENURE_REASON];
    Text.ComposeThree(REJECTION_PREFIX, RATIO_REASON, AGE_REASON, TENURE_REASON,
                      REASON_SEPARATOR, UNSPECIFIED_REASON);
  }

  /** An eligibility predicted at exactly 50.0 takes the rejection path:
      the threshold is strict. */
  lemma ExampleBoundaryAtFifty(input: ApplicantInput, models: Predictors, round: real -> real)
    requires models.eligibility(EligibilityFeaturesOf(input)) == Predicted(50.0) && round(50.0) == 50.0
    requires PredictFull(input, models, round).Scored?
    ensures PredictFull(input, models, round).result.products
            == Rejected(RejectionMessage(CommitmentRatio(input.income, input.commitments),
                                         input.age, input.monthsInJob))
  {
  }
}
