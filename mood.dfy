/** Mood enrichment of a chat message: a sentiment score is mapped to one of
    five colours by thresholds checked from the highest down, each band
    open at its lower end. */
module Mood {
  import opened Common

  const StronglyPositive := "#4ade80"
  const Positive := "#a3e635"
  const Neutral := "#facc15"
  const Negative := "#fb923c"
  const StronglyNegative := "#f87171"

  /** The colour band of a score; every score has exactly one band. */
  function MoodColor(score: int): (c: string)
    ensures c == StronglyPositive <==> score > 3
    ensures c == Positive <==> 1 < score <= 3
    ensures c == Neutral <==> -1 < score <= 1
    ensures c == Negative <==> -3 < score <= -1
    ensures c == StronglyNegative <==> score <= -3
  {
    if score > 3 then StronglyPositive
    else if score > 1 then Positive
    else if score > -1 then Neutral
    else if score > -3 then Negative
    else StronglyNegative
  }

  /** The colour of a message whose scorer either returned a score or threw;
      a throwing scorer counts as score 0. */
  function ClassifyMood(score: Option<int>): (c: string)
    ensures score.None? ==> c == Neutral
    ensures score.Some? ==> c == MoodColor(score.value)
  {
    match score
    case Some(v) => MoodColor(v)
    case None => MoodColor(0)
  }

  /** An independent description of the bands: the thresholds in increasing
      order and the palette from the most negative colour up. */
  const Thresholds: seq<int> := [-3, -1, 1, 3]
  const Palette: seq<string> := [StronglyNegative, Negative, Neutral, Positive, StronglyPositive]

  /** How many of the thresholds the score lies strictly above. */
  function Rank(ts: seq<int>, score: int): (k: nat)
    ensures k <= |ts|
  {
    if |ts| == 0 then 0
    else (if ts[0] < score then 1 else 0) + Rank(ts[1..], score)
  }

  /** The threshold chain picks the palette entry indexed by the rank. */
  lemma MoodColorIsRankedPalette(score: int)
    ensures MoodColor(score) == Palette[Rank(Thresholds, score)]
  {
    var ts := Thresholds;
    assert ts[1..] == [-1, 1, 3];
    assert ts[1..][1..] == [1, 3];
    assert ts[1..][1..][1..] == [3];
    assert ts[1..][1..][1..][1..] == [];
    assert Rank([3], score) == if 3 < score then 1 else 0;
    assert Rank([1, 3], score) == (if 1 < score then 1 else 0) + Rank([3], score);
    assert Rank([-1, 1, 3], score) == (if -1 < score then 1 else 0) + Rank([1, 3], score);
    assert Rank(ts, score) == (if -3 < score then 1 else 0) + Rank([-1, 1, 3], score);
  }

  lemma {:induction false} RankMonotone(ts: seq<int>, a: int, b: int)
    requires a <= b
    ensures Rank(ts, a) <= Rank(ts, b)
  {
    if |ts| > 0 {
      RankMonotone(ts[1..], a, b);
    }
  }

  /** A higher score never lands in a more negative band. */
  lemma MoodIsMonotone(a: int, b: int)
    requires a <= b
    ensures Rank(Thresholds, a) <= Rank(Thresholds, b)
    ensures MoodColor(a) == Palette[Rank(Thresholds, a)] && MoodColor(b) == Palette[Rank(Thresholds, b)]
  {
    RankMonotone(Thresholds, a, b);
    MoodColorIsRankedPalette(a);
    MoodColorIsRankedPalette(b);
  }
}
