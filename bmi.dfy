/**
 * The BMI classifier under the "Calculate BMI" button of app.py: the index
 * from weight (kg) and height (cm), its three-way category, the status label
 * shown for it and the advice request sent for it. Arithmetic is exact
 * (`real`), not floating point.
 */
module Bmi {

  datatype Category = Underweight | Normal | Overweight

  /** `weight / (height / 100) ** 2`: kilograms over metres squared. */
  function BodyMassIndex(weight: real, height: real): (bmi: real)
    requires height > 0.0
    ensures bmi * (height * height) == weight * 10000.0
    ensures weight > 0.0 ==> bmi > 0.0
  {
    var heightM := height / 100.0;
    assert heightM * heightM * 10000.0 == height * height;
    weight / (heightM * heightM)
  }

  /** The `if` / `elif` / `else` chain. Each category covers one interval of
      BMI values, so exactly one applies to every value: below 18.5 is
      Underweight, from 18.5 to 24.9 inclusive is Normal, and everything
      above 24.9 is Overweight, values in (24.9, 25) included. */
  function Classify(bmi: real): (c: Category)
    ensures c == Underweight <==> bmi < 18.5
    ensures c == Normal <==> 18.5 <= bmi <= 24.9
    ensures c == Overweight <==> 24.9 < bmi
  {
    if bmi < 18.5 then Underweight
    else if 18.5 <= bmi <= 24.9 then Normal
    else Overweight
  }

  /** The status label the page shows. The three labels have three
      different lengths, so a label names one category. */
  function Status(c: Category): (s: string)
    ensures |s| == [11, 6, 10][Rank(c)]
  {
    match c
    case Underweight => "Underweight"
    case Normal => "Normal"
    case Overweight => "Overweight"
  }

  /** The advice request sent to the chat service for a category. The three
      requests have three different lengths, so a request names one category. */
  function Query(c: Category): (q: string)
    ensures |q| == [87, 74, 86][Rank(c)]
  {
    match c
    case Underweight => "Suggest a healthy way to gain weight for an underweight person using diet and exercise."
    case Normal => "Suggest how to maintain current healthy weight through lifestyle and diet."
    case Overweight => "Suggest a healthy way to lose weight for an overweight person using diet and exercise."
  }

  /** The categories in increasing order of BMI. */
  function Rank(c: Category): (r: nat)
    ensures r < 3
  {
    match c
    case Underweight => 0
    case Normal => 1
    case Overweight => 2
  }

  /** Both thresholds belong to Normal; just past either one the category changes. */
  lemma ClassifyBoundaries()
    ensures Classify(18.49) == Underweight
    ensures Classify(18.5) == Normal
    ensures Classify(24.9) == Normal
    ensures Classify(24.91) == Overweight
    ensures Classify(24.95) == Overweight
  {
  }

  /** A larger BMI never gives a lower category. */
  lemma ClassifyMonotone(a: real, b: real)
    requires a <= b
    ensures Rank(Classify(a)) <= Rank(Classify(b))
  {
  }

  /** Different categories send different requests, so the request sent
      identifies the category. */
  lemma QueryIdentifiesCategory(c: Category, d: Category)
    requires c != d
    ensures Query(c) != Query(d)
  {
    var lengths := [87, 74, 86];
    assert |Query(c)| == lengths[Rank(c)] && |Query(d)| == lengths[Rank(d)];
  }

  /** Different categories show different labels. */
  lemma StatusIdentifiesCategory(c: Category, d: Category)
    requires c != d
    ensures Status(c) != Status(d)
  {
    assert |Status(c)| != |Status(d)|;
  }
}
