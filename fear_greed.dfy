/**
 * `getFearGreedLabel` and `getFearGreedColor` of the browser dashboard: a
 * fear & greed index value to one of five ordered buckets, shown as a Korean
 * label and a hex colour.
 */
module FearGreed {

  /** The five buckets, from most fearful to most greedy. */
  datatype Sentiment = ExtremeFear | Fear | Neutral | Greed | ExtremeGreed

  /** The position of a bucket in the order. */
  function Rank(s: Sentiment): nat {
    match s
    case ExtremeFear => 0
    case Fear => 1
    case Neutral => 2
    case Greed => 3
    case ExtremeGreed => 4
  }

  /** Inclusive upper bounds of the first four buckets. */
  const Thresholds: seq<int> := [24, 44, 55, 75]

  /**
   * The bucket of a value. Its rank is the number of thresholds the value
   * exceeds: the first `Rank` thresholds lie below the value, the others
   * at or above it.
   */
  function Classify(value: int): (s: Sentiment)
    ensures Rank(s) <= |Thresholds|
    ensures forall i :: 0 <= i < |Thresholds| ==> (i < Rank(s) <==> Thresholds[i] < value)
  {
    if value <= 24 then ExtremeFear
    else if value <= 44 then Fear
    else if value <= 55 then Neutral
    else if value <= 75 then Greed
    else ExtremeGreed
  }

  function LabelOf(s: Sentiment): string {
    match s
    case ExtremeFear => "극도의 공포"
    case Fear => "공포"
    case Neutral => "중립"
    case Greed => "탐욕"
    case ExtremeGreed => "극도의 탐욕"
  }

  function ColorOf(s: Sentiment): string {
    match s
    case ExtremeFear => "#dc2626"
    case Fear => "#ea580c"
    case Neutral => "#ca8a04"
    case Greed => "#16a34a"
    case ExtremeGreed => "#15803d"
  }

  /** `getFearGreedLabel`: the label of the value's bucket. */
  function FearGreedLabel(value: int): (text: string)
    ensures text == LabelOf(Classify(value))
  {
    if value <= 24 then "극도의 공포"
    else if value <= 44 then "공포"
    else if value <= 55 then "중립"
    else if value <= 75 then "탐욕"
    else "극도의 탐욕"
  }

  /** `getFearGreedColor`: the colour of the value's bucket. */
  function FearGreedColor(value: int): (color: string)
    ensures color == ColorOf(Classify(value))
  {
    if value <= 24 then "#dc2626"
    else if value <= 44 then "#ea580c"
    else if value <= 55 then "#ca8a04"
    else if value <= 75 then "#16a34a"
    else "#15803d"
  }

  /** A larger value never falls in a more fearful bucket. */
  lemma ClassifyMonotone(v1: int, v2: int)
    requires v1 <= v2
    ensures Rank(Classify(v1)) <= Rank(Classify(v2))
  {
  }

  /** Each threshold belongs to the lower bucket; one more belongs to the next. */
  lemma ClassifyBoundaries()
    ensures Classify(24) == ExtremeFear && Classify(25) == Fear
    ensures Classify(44) == Fear && Classify(45) == Neutral
    ensures Classify(55) == Neutral && Classify(56) == Greed
    ensures Classify(75) == Greed && Classify(76) == ExtremeGreed
  {
  }

  /** The five labels are distinct. */
  lemma LabelsDistinct(s: Sentiment, t: Sentiment)
    ensures LabelOf(s) == LabelOf(t) <==> s == t
  {
    if s != t {
      assert LabelOf(s) != LabelOf(t) by {
        var a, b := LabelOf(s), LabelOf(t);
        assert |a| != |b| || a[0] != b[0] || a[|a| - 1] != b[|b| - 1];
      }
    }
  }

  /** The five colours are distinct. */
  lemma ColorsDistinct(s: Sentiment, t: Sentiment)
    ensures ColorOf(s) == ColorOf(t) <==> s == t
  {
    if s != t {
      assert ColorOf(s) != ColorOf(t) by {
        var a, b := ColorOf(s), ColorOf(t);
        assert a[1] != b[1] || a[2] != b[2] || a[3] != b[3];
      }
    }
  }

  /** Two values share a label exactly when they share a colour: same thresholds. */
  lemma LabelColorAgree(v1: int, v2: int)
    ensures FearGreedLabel(v1) == FearGreedLabel(v2) <==> FearGreedColor(v1) == FearGreedColor(v2)
    ensures FearGreedLabel(v1) == FearGreedLabel(v2) <==> Classify(v1) == Classify(v2)
  {
    LabelsDistinct(Classify(v1), Classify(v2));
    ColorsDistinct(Classify(v1), Classify(v2));
  }
}
