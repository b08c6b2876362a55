/** The rating-tier colour of the judge: a first-match chain of lower thresholds. */
module RatingColor {

  /** The inclusive lower bounds of the tiers above the lowest, ascending. */
  const Thresholds: seq<int> := [1200, 1400, 1600, 1900, 2100, 2300, 2400, 2600]

  /** The colour class of each tier, lowest first. */
  const Colors: seq<string> := [
    "text-[#808080]", "text-[#008000]", "text-[#03a89e]", "text-[#0000ff]", "text-[#aa00ff]",
    "text-[#ffa500]", "text-[#ff8c00]", "text-[#ff3333]", "text-[#ff0000]"]

  /** `getRatingColor`. */
  function RatingColor(rating: int): (c: string)
    ensures c in Colors
    ensures rating < 1200 ==> c == "text-[#808080]"
    ensures rating >= 2600 ==> c == "text-[#ff0000]"
  {
    if rating >= 3000 then "text-[#ff0000]"
    else if rating >= 2600 then "text-[#ff0000]"
    else if rating >= 2400 then "text-[#ff3333]"
    else if rating >= 2300 then "text-[#ff8c00]"
    else if rating >= 2100 then "text-[#ffa500]"
    else if rating >= 1900 then "text-[#aa00ff]"
    else if rating >= 1600 then "text-[#0000ff]"
    else if rating >= 1400 then "text-[#03a89e]"
    else if rating >= 1200 then "text-[#008000]"
    else "text-[#808080]"
  }

  /** Independent reference: the tier of a rating is the number of thresholds it reaches. */
  function Tier(rating: int): (t: nat)
    ensures t < |Colors|
  {
    Reached(Thresholds, rating)
  }

  /** How many of `ts` are at most `rating`. */
  function Reached(ts: seq<int>, rating: int): (n: nat)
    ensures n <= |ts|
  {
    if |ts| == 0 then 0 else (if ts[0] <= rating then 1 else 0) + Reached(ts[1..], rating)
  }

  /** The chain and the count agree on every rating. */
  lemma ColorIsTierColor(rating: int)
    ensures RatingColor(rating) == Colors[Tier(rating)]
  {
    var t := Thresholds;
    assert t[7..][1..] == [];
    assert t[6..][1..] == t[7..];
    assert t[5..][1..] == t[6..];
    assert t[4..][1..] == t[5..];
    assert t[3..][1..] == t[4..];
    assert t[2..][1..] == t[3..];
    assert t[1..][1..] == t[2..];
    assert Reached(t[7..], rating) == (if rating >= 2600 then 1 else 0);
    assert Reached(t[6..], rating) == (if rating >= 2400 then 1 else 0) + Reached(t[7..], rating);
    assert Reached(t[5..], rating) == (if rating >= 2300 then 1 else 0) + Reached(t[6..], rating);
    assert Reached(t[4..], rating) == (if rating >= 2100 then 1 else 0) + Reached(t[5..], rating);
    assert Reached(t[3..], rating) == (if rating >= 1900 then 1 else 0) + Reached(t[4..], rating);
    assert Reached(t[2..], rating) == (if rating >= 1600 then 1 else 0) + Reached(t[3..], rating);
    assert Reached(t[1..], rating) == (if rating >= 1400 then 1 else 0) + Reached(t[2..], rating);
    assert Reached(t, rating) == (if rating >= 1200 then 1 else 0) + Reached(t[1..], rating);
  }

  /** Reaching thresholds is monotone in the rating. */
  lemma {:induction false} ReachedMonotone(ts: seq<int>, a: int, b: int)
    requires a <= b
    ensures Reached(ts, a) <= Reached(ts, b)
  {
    if |ts| > 0 {
      ReachedMonotone(ts[1..], a, b);
    }
  }

  /** The tier never decreases as the rating grows. */
  lemma TierMonotone(a: int, b: int)
    requires a <= b
    ensures Tier(a) <= Tier(b)
  {
    ReachedMonotone(Thresholds, a, b);
  }

  /** The colours are pairwise distinct, so the colour determines the tier. */
  lemma ColorsDistinct()
    ensures forall i, j :: 0 <= i < j < |Colors| ==> Colors[i] != Colors[j]
  {
  }

  /** Each threshold is an inclusive lower bound: the threshold itself is in tier `i + 1`,
      the rating just below it in tier `i`. */
  lemma ThresholdsAreInclusive(i: nat)
    requires i < |Thresholds|
    ensures RatingColor(Thresholds[i]) == Colors[i + 1]
    ensures RatingColor(Thresholds[i] - 1) == Colors[i]
  {
  }

  /** The colour is constant between consecutive thresholds. */
  lemma ConstantBetweenThresholds(a: int, b: int, i: nat)
    requires i + 1 < |Thresholds|
    requires Thresholds[i] <= a <= b < Thresholds[i + 1]
    ensures RatingColor(a) == RatingColor(b) == Colors[i + 1]
  {
  }

  /** Every rating at or above 2600 has the same colour, so the 3000 branch never changes
      the answer; ratings of 0 and below are gray. */
  lemma TopAndBottom(rating: int)
    ensures rating >= 2600 ==> RatingColor(rating) == RatingColor(2600) == RatingColor(3000)
    ensures rating <= 0 ==> RatingColor(rating) == "text-[#808080]"
  {
  }
}
