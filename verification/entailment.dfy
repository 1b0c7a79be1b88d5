/**
 * The decision rule of the driver: the directional distance, normalised by
 * the cost of building the hypothesis from nothing, is compared against a
 * fixed threshold. A larger normalised cost means YES; that polarity is the
 * source's and is kept.
 */
module Entailment {
  import opened Wrappers
  import opened Sentences
  import opened Trees
  import opened TreeBuilder
  import opened Assembly

  const Threshold: real := 0.5

  datatype Verdict = Yes | No

  datatype ScoreError = Build(cause: BuildError) | ZeroBaseline

  /**
   * The verdict for directional distance d and baseline b: YES exactly when
   * d / b exceeds the threshold strictly; dividing by a zero baseline is
   * reported instead of computed.
   */
  function Decide(d: real, b: real): (r: Result<Verdict, ScoreError>)
    ensures r.Failure? <==> b == 0.0
    ensures r.Failure? ==> r.error == ZeroBaseline
    ensures b > 0.0 ==> (r == Success(Yes) <==> d > Threshold * b)
    ensures b < 0.0 ==> (r == Success(Yes) <==> d < Threshold * b)
  {
    if b == 0.0 then Failure(ZeroBaseline)
    else if d / b > Threshold then Success(Yes)
    else Success(No)
  }

  /** The threshold is strict: a ratio of exactly one half is NO. */
  lemma HalfIsNo(b: real)
    requires b != 0.0
    ensures Decide(Threshold * b, b) == Success(No)
  {
    assert (Threshold * b) / b == Threshold;
  }

  /** With a positive baseline, a larger directional distance never turns YES into NO. */
  lemma DecideMonotone(d1: real, d2: real, b: real)
    requires b > 0.0 && d1 <= d2
    requires Decide(d1, b) == Success(Yes)
    ensures Decide(d2, b) == Success(Yes)
  {
  }

  /**
   * One pair through the scorer: the text and hypothesis anchors, the
   * directional distance between them, the hypothesis baseline, and the
   * verdict.
   */
  function Score(p: Pair, distance: Engine): (r: Result<Verdict, ScoreError>)
    ensures BuildSentences(p.text).Failure? ==> r == Failure(Build(BuildSentences(p.text).error))
    ensures BuildSentences(p.text).Success? && BuildSentences(p.hypothesis).Failure? ==>
              r == Failure(Build(BuildSentences(p.hypothesis).error))
    ensures BuildSentences(p.text).Success? && BuildSentences(p.hypothesis).Success? ==>
              var t := Node("T", BuildSentences(p.text).value);
              var h := Node("H", BuildSentences(p.hypothesis).value);
              var d := distance(t, h, EntailmentCosts);
              var b := distance(Node("", []), h, EntailmentCosts);
              && (r == Failure(ZeroBaseline) <==> b == 0.0)
              && (b != 0.0 ==> r == Decide(d, b))
              && (b > 0.0 ==> (r == Success(Yes) <==> d > Threshold * b))
              && (b > 0.0 ==> (r == Success(No) <==> d <= Threshold * b))
  {
    match TreeEditDist(p, EntailmentCosts, distance)
    case Failure(e) => Failure(Build(e))
    case Success(d) =>
      match HypothesisBaseline(p.hypothesis, distance)
      case Failure(e) => Failure(Build(e))
      case Success(b) => Decide(d, b)
  }
}
