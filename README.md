# Loan scoring and recommendation core

This project is a Dafny model of the scoring service in `full.py`. The service
takes one loan applicant's data and returns four things: an eligibility
percentage, suggested banking products, a projected monthly surplus and an
investment option.

- **Recommendation engine** (module `Recommendation`, `recommendation.dfy`).
  - `suggest_products` maps eligibility to one of three answers: the 8-label
    product catalog, its first 4 labels, or a rejection message. The message
    lists up to three reasons: commitment ratio above 0.4, age under 30, and
    under 12 months in the job. They are checked in that order and joined by
    an Arabic semicolon, with a fallback text when none applies.
  - `suggest_investment` maps surplus and eligibility to the 8-label
    investment catalog, its first 4 labels, or a fixed "insufficient" message.
  - The answer that is either a list or a string becomes the tagged datatype
    `Recommendation = Granted(labels) | Rejected(message)`.
  - The catalogs, reason texts, separator, prefix and thresholds are constants
    with the source's literal values. Every comparison is strict.
- **Scoring pipeline** (module `Scoring`, `scoring.dfy`). This is
  `predict_full` with the HTTP and pickle layers removed. It runs in this order:
  1. eligibility is predicted and rounded;
  2. the commitment ratio is computed, with a guard for zero income;
  3. the monthly payment is predicted from a row that carries the rounded
     eligibility, then rounded;
  4. the surplus is predicted from a row that carries the rounded payment,
     then rounded;
  5. both recommenders run.

  The response has exactly four fields. The payment and the ratio are not
  returned. The three trained models form the `Predictors` parameter: one
  opaque function per model, from its feature row to value-or-error. A
  predictor error aborts the request. Python's `round(x, 1)` is the parameter
  `round`.
- **Message texts** (module `Messages`, `messages.dfy`): the reason texts,
  separator, fallback and prefix of the rejection message. Small lemmas here
  show that each of '%', '3' and '1' appears in only one reason, and '-' only
  in the fallback.
- **Text helpers** (module `Text`, `text.dfy`): Python's `str.join`,
  substring occurrence (Python's `in` on strings), order-preserving
  subsequences, and generic lemmas about a message built as "prefix, then
  the joined parts or a fallback". The rejection-message lemmas use them.

Everything is a pure function, so calling the pipeline twice on equal inputs
with the same predictors gives equal results by construction.

Two facts about the code shape the model:
- `FullInput` (full.py:19-28) checks only field types, so every integer is
  accepted; a non-positive income, negative ones included, gives a ratio of 0.
- `predict_full` returns four fields (full.py:121-126), and so does
  `ScoringResult`; the monthly payment and the commitment ratio are not
  returned.

## Model

| member | source | states |
|---|---|---|
| `Text.Join` | full.py:53 | `sep.join(parts)`: empty for no parts; otherwise it starts with the first part, and its length is the total length of the parts plus one separator between each pair of neighbours |
| `Text.JoinContainsPart` | full.py:53 | every joined part occurs as a substring of the joined string |
| `Text.JoinCharacterSource` | full.py:53 | every character of a joined string comes from the separator or from one of the parts |
| `Recommendation.Reasons` | full.py:46-52 | the ratio reason is present iff ratio > 0.4; the age reason iff age < 30; the tenure reason iff months_in_job < 12 |
| `Recommendation.ReasonsInFixedOrder` | full.py:46-52 | the reasons keep the check order ratio, age, tenure: they form a subsequence of that list |
| `Recommendation.ReasonsCanonical` | full.py:46-52 | any list in that fixed order that holds exactly the reasons whose conditions hold equals the reasons list, so order plus membership fix it completely |
| `Recommendation.RejectionMessage` | full.py:53-54 | the rejection string always starts with the prefix "غير مؤهل بسبب: "; it is built by `Text.Compose`, the prefix followed by the reasons joined with the separator, or by the fallback text when there are no reasons (the conditional of full.py:53) |
| `Recommendation.SuggestProducts` | full.py:30-54 | full 8-label catalog iff eligibility > 80; exactly the first 4 labels iff 50 < eligibility <= 80, whatever the ratio, age and tenure; a rejection string (never a list) iff eligibility <= 50, and that string is the rejection message |
| `Recommendation.SuggestInvestment` | full.py:56-72 | all 8 labels iff surplus > 5000 and eligibility > 80; the first 4 iff that fails and surplus > 1000 and eligibility > 50; the fixed "insufficient" message iff both fail |
| `Recommendation.RejectionNamesRatio` | full.py:46-54 | the rejection message contains the ratio reason, and the text "40%", iff commitment ratio > 0.4 |
| `Recommendation.RejectionNamesAge` | full.py:46-54 | the rejection message contains the age reason, and the text "30", iff age < 30 |
| `Recommendation.RejectionNamesTenure` | full.py:46-54 | the rejection message contains the tenure reason, and the text "12", iff months_in_job < 12 |
| `Recommendation.RejectionFallback` | full.py:53-54 | the fallback text "سبب غير محدد - تحقق من البيانات" occurs iff none of the three conditions holds; in that case the message is the prefix followed by the fallback |
| `Scoring.CommitmentRatio` | full.py:97 | for income > 0 the ratio times the income equals the commitments, i.e. it is commitments / income; for income <= 0 it is 0, and no division is done |
| `Scoring.RatioAboveLimitIff` | full.py:97 | for income > 0, "ratio > 0.4" holds iff 10 * commitments > 4 * income; for income <= 0 the ratio check never fires |
| `Scoring.EligibilityFeaturesOf` | full.py:85-93 | the eligibility row holds the request's income, commitments, credit-bureau delays, job type, months in job, account type and age, column for field |
| `Scoring.PaymentFeaturesOf` | full.py:100-106 | the payment row holds the request's amount, repayment term, age and income, and the eligibility percentage handed in by the first stage |
| `Scoring.SurplusFeaturesOf` | full.py:110-114 | the surplus row holds the request's income and commitments, and the monthly payment handed in by the second stage |
| `Scoring.FeatureRowsReadOnlyTheirColumns` | full.py:85-114 | two requests that agree on a row's columns give the same row, so the eligibility row ignores amount and term, the payment row ignores commitments, delays, job and account type, and the surplus row sees only income and commitments |
| `Scoring.PredictFull` | full.py:84-126 | an eligibility error aborts with that error; once eligibility answered, a payment error aborts with that error, and once payment answered too, a surplus error aborts with that error; a response is produced exactly when all three predictors answered on the rows the stages build; its eligibility is the rounded eligibility prediction; the payment row carries that rounded eligibility; the surplus row carries the rounded payment; the returned surplus is the rounded surplus prediction; both recommenders receive the rounded eligibility and surplus that are returned |
| `Scoring.OnlyRoundedPredictionsMatter` | full.py:94-119 | predictors that agree after rounding on every row (and raise the same errors) give the same outcome, so no raw prediction reaches a later stage or the response |
| `Scoring.ExampleFullOffer` | full.py:94-126 | income 10000, commitments 1000, age 35, 24 months in the job, eligibility 85.0 and surplus 6000.0 give ratio 0.1, the full product catalog and the full investment catalog |
| `Scoring.ExampleAllThreeReasons` | full.py:46-54 | income 5000, commitments 3000 (ratio 0.6), age 22, 6 months in the job and eligibility 40.0 give a rejection that lists all three reasons in order, joined by the separator |
| `Scoring.ExampleBoundaryAtFifty` | full.py:41-54 | an eligibility of exactly 50.0 takes the rejection path, not the 4-label list |

## Left out

- The FastAPI application, CORS middleware, route decorator and uvicorn
  startup (full.py:9-17, 74, 128-130): transport and process start-up.
- Opening and unpickling `full_integrated_model.pkl` on every request
  (full.py:77-82): file I/O and deserialization. The three models it holds are
  the `Predictors` parameter. A missing or corrupt file is not modelled.
- pandas DataFrame construction (full.py:85-93, 100-106, 110-114): each row
  is a record with one field per column, in the source's column order. The
  Arabic column-name strings that the trained models match on are not part
  of the model.
- The internals of the three trained predictors: each is an opaque
  deterministic function that returns a value or an error.
- Python's `round(x, 1)` on binary floats: it is the abstract parameter
  `round`, and the examples state as preconditions the values they need it
  to keep (such as `round(85.0) == 85.0`).
- The floating-point division `commitments / income`: the model divides
  exactly over the reals. A float result could differ from the exact one only
  for pathological, very large incomes near the 0.4 boundary.
- The Arabic keys of the response dictionary: they become the field names of
  `ScoringResult`.
- download_model.py: a one-shot download with `gdown` and a directory
  creation, with no logic.
