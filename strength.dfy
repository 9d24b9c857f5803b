/** The qualitative strength attached to a Spearman coefficient. */
module StrengthTiers {

  datatype Strength = VeryStrong | Strong | Moderate | Weak | NoStrength

  /** The text the report holds in its Strength column. */
  function Text(s: Strength): (t: string)
    ensures |t| > 0
    ensures t == "None" <==> s == NoStrength
  {
    match s
    case VeryStrong => "Very Strong"
    case Strong => "Strong"
    case Moderate => "Moderate"
    case Weak => "Weak"
    case NoStrength => "None"
  }

  /** Different tiers are written differently, so the report's text column
      determines the tier. */
  lemma TextInjective(s: Strength, u: Strength)
    ensures Text(s) == Text(u) <==> s == u
  {
  }

  /** Tiers from weakest (0) to strongest (4). */
  function Rank(s: Strength): nat
  {
    match s
    case NoStrength => 0
    case Weak => 1
    case Moderate => 2
    case Strong => 3
    case VeryStrong => 4
  }

  function Abs(x: real): real
  {
    if x < 0.0 then -x else x
  }

  /** The if/elif chain of `spearman_assess`: each tier tests the positive
      threshold and its negative mirror, the first match wins. The result
      is the tier whose magnitude interval holds |r|. */
  function Classify(r: real): (s: Strength)
    ensures s == VeryStrong <==> Abs(r) >= 0.89
    ensures s == Strong <==> 0.68 <= Abs(r) < 0.89
    ensures s == Moderate <==> 0.38 <= Abs(r) < 0.68
    ensures s == Weak <==> 0.1 <= Abs(r) < 0.38
    ensures s == NoStrength <==> Abs(r) < 0.1
  {
    if r >= 0.89 || r <= -0.89 then VeryStrong
    else if r >= 0.68 || r <= -0.68 then Strong
    else if r >= 0.38 || r <= -0.38 then Moderate
    else if r >= 0.1 || r <= -0.1 then Weak
    else NoStrength
  }

  /** The label depends on the magnitude of the coefficient only. */
  lemma ClassifyBySize(r: real)
    ensures Classify(r) == Classify(Abs(r)) == Classify(-r)
  {
  }

  /** A larger magnitude never gets a weaker label. */
  lemma ClassifyMonotone(r: real, q: real)
    requires Abs(r) <= Abs(q)
    ensures Rank(Classify(r)) <= Rank(Classify(q))
  {
  }

  lemma ClassifyExamples()
    ensures Text(Classify(0.9)) == "Very Strong"
    ensures Text(Classify(0.7)) == "Strong"
    ensures Text(Classify(0.4)) == "Moderate"
    ensures Text(Classify(0.15)) == "Weak"
    ensures Text(Classify(0.05)) == "None"
    ensures Text(Classify(-0.95)) == "Very Strong"
    ensures Text(Classify(1.0)) == "Very Strong"
  {
  }
}
