/**
 * The "Calculate BMI" button of app.py: validate the height, compute and
 * classify the BMI, send the category's advice request and show the reply.
 * The chat service is a parameter, `fetch`, giving the outcome of the HTTP
 * exchange for the request text it is sent.
 */
module Page {
  import opened Bmi
  import Advice

  const InvalidHeightWarning: string := "Please enter a valid height."

  /** What the page shows after the button is pressed: the height warning
      alone, or the BMI, its status label, the request that was sent and
      the advice text shown for the reply. */
  datatype PageResult =
    | InvalidHeight(warning: string)
    | Assessed(bmi: real, status: string, query: string, advice: string)

  /** The button handler. A height that is not positive is refused before
      anything is computed or sent; otherwise the request sent is the one for
      the category of the BMI, and the advice shown is the message for
      whatever the service answered to that request. */
  function CalculateBmi(weight: real, height: real, fetch: string -> Advice.HttpOutcome): (page: PageResult)
    ensures page.InvalidHeight? <==> height <= 0.0
    ensures page.InvalidHeight? ==> page.warning == InvalidHeightWarning
    ensures page.Assessed? ==>
      && page.bmi == BodyMassIndex(weight, height)
      && page.status == Status(Classify(page.bmi))
      && page.query == Query(Classify(page.bmi))
      && page.advice == Advice.AdviceMessage(fetch(page.query))
    ensures page.Assessed? && weight > 0.0 ==> page.bmi > 0.0
  {
    if height > 0.0 then
      var bmi := BodyMassIndex(weight, height);
      var category := Classify(bmi);
      Assessed(bmi, Status(category), Query(category), Advice.AdviceMessage(fetch(Query(category))))
    else
      InvalidHeight(InvalidHeightWarning)
  }

  /** With an invalid height nothing is sent: the page is the same whatever
      the chat service would have answered. */
  lemma InvalidHeightSendsNothing(weight: real, height: real, fetch: string -> Advice.HttpOutcome, other: string -> Advice.HttpOutcome)
    requires height <= 0.0
    ensures CalculateBmi(weight, height, fetch) == CalculateBmi(weight, height, other) == InvalidHeight(InvalidHeightWarning)
  {
  }

  /** The status shown and the request sent always agree: two assessments
      show the same status exactly when they send the same request. */
  lemma StatusMatchesQuery(p: PageResult, q: PageResult, w1: real, h1: real, f1: string -> Advice.HttpOutcome, w2: real, h2: real, f2: string -> Advice.HttpOutcome)
    requires p == CalculateBmi(w1, h1, f1) && q == CalculateBmi(w2, h2, f2)
    requires p.Assessed? && q.Assessed?
    ensures p.status == q.status <==> p.query == q.query
  {
    var c, d := Classify(p.bmi), Classify(q.bmi);
    if c != d {
      QueryIdentifiesCategory(c, d);
      StatusIdentifiesCategory(c, d);
    }
  }

  /** At the same height, a heavier person never gets a lower category. */
  lemma HeavierNeverLowerCategory(lighter: real, heavier: real, height: real)
    requires lighter <= heavier && height > 0.0
    ensures Rank(Classify(BodyMassIndex(lighter, height))) <= Rank(Classify(BodyMassIndex(heavier, height)))
  {
    var a, b := BodyMassIndex(lighter, height), BodyMassIndex(heavier, height);
    if lighter < heavier {
      var heightM := height / 100.0;
      assert b - a == BodyMassIndex(heavier - lighter, height) by {
        assert b - a == heavier / (heightM * heightM) - lighter / (heightM * heightM);
      }
    }
    ClassifyMonotone(a, b);
  }
}
