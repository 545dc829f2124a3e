/** `sentiment` (pipeline.py): the compound polarity score of the VADER
    analyser, passed through, and a three-way label read off it with fixed
    thresholds. The analyser's scores are an input here: a map from score
    name to real. */
module Sentiment {

  datatype SentimentResult = SentimentResult(score: real, labelName: string, modelName: string, modelVersion: string)

  /** The label cut-offs: at or above `Threshold` is positive, at or below
      `-Threshold` is negative. */
  const Threshold: real := 0.05

  /** `scores.get("compound", 0.0)`. */
  function Compound(scores: map<string, real>): (c: real)
    ensures "compound" in scores ==> c == scores["compound"]
    ensures "compound" !in scores ==> c == 0.0
  {
    if "compound" in scores then scores["compound"] else 0.0
  }

  /** The three-way label: each label holds exactly on its own interval of
      scores, so exactly one of them applies. */
  function Label(compound: real): (l: string)
    ensures l == "positive" <==> compound >= Threshold
    ensures l == "negative" <==> compound <= -Threshold
    ensures l == "neutral" <==> -Threshold < compound < Threshold
  {
    if compound >= Threshold then "positive"
    else if compound <= -Threshold then "negative"
    else "neutral"
  }

  /** `sentiment(text)`, given the analyser's scores for `text`: the
      compound score passed through unchanged, its label, and the fixed
      model name and version. */
  function Sentiment(scores: map<string, real>): (r: SentimentResult)
    ensures r.score == Compound(scores)
    ensures r.labelName == "positive" <==> r.score >= Threshold
    ensures r.labelName == "negative" <==> r.score <= -Threshold
    ensures r.labelName == "neutral" <==> -Threshold < r.score < Threshold
    ensures r.modelName == "vader" && r.modelVersion == "3.3.2"
  {
    var compound := Compound(scores);
    SentimentResult(compound, Label(compound), "vader", "3.3.2")
  }

  /** Labels ordered from negative to positive. */
  function Rank(verdict: string): (n: nat)
    ensures n <= 2
  {
    if verdict == "negative" then 0 else if verdict == "neutral" then 1 else 2
  }

  /** A higher score never gets a lower label. */
  lemma LabelMonotone(a: real, b: real)
    requires a <= b
    ensures Rank(Label(a)) <= Rank(Label(b))
  {
  }

  /** The result depends on the scores only through the compound score:
      the other entries of the analyser's map play no part. */
  lemma SentimentOnlyCompound(s1: map<string, real>, s2: map<string, real>)
    requires Compound(s1) == Compound(s2)
    ensures Sentiment(s1) == Sentiment(s2)
  {
  }

  /** Without a compound entry the score is 0.0 and the label neutral. */
  lemma SentimentWithoutCompound(scores: map<string, real>)
    requires "compound" !in scores
    ensures Sentiment(scores).score == 0.0 && Sentiment(scores).labelName == "neutral"
  {
  }

  /** The label is always one of the three. */
  lemma LabelIsOneOfThree(compound: real)
    ensures Label(compound) in {"positive", "negative", "neutral"}
  {
  }
}
