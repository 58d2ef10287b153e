/** The applicant records the list view shows, the pipeline `stages`, and the
    three sort-key helpers `dateSortKey`, `ratingSortKey` and `stageSortKey`. */
module Applicants {
  import opened Wrappers
  import opened JsText

  /** One evaluation of an applicant; `overall` is `None` when the rating's
      attributes carry no `overall` score (JavaScript `undefined`). */
  datatype Rating = Rating(id: int, overall: Option<int>)

  /** The fields of an applicant the engine reads. `emailText` may be absent;
      `dateEpoch` is what `Date.parse(dateSubmitted)` yields, `None` for NaN. */
  datatype Applicant = Applicant(
    id: int,
    name: string,
    email: string,
    stage: string,
    emailText: Option<string>,
    dateEpoch: Option<int>,
    ratings: seq<Rating>)

  /** The pipeline stages, best first. */
  const Stages: seq<string> := [
    "accepted",
    "considering-accepting",
    "considering-rejecting",
    "invite-sent",
    "scheduled",
    "pending-evaluation",
    "unprocessed",
    "rejected"
  ]

  /** A JavaScript number as far as the keys need one: a finite value, or NaN. */
  datatype Num = Finite(value: real) | NaN

  /** `a + b` on numbers: NaN absorbs. */
  function Add(a: Num, b: Num): Num {
    if a.Finite? && b.Finite? then Finite(a.value + b.value) else NaN
  }

  /** `a * b` for an integer factor `k`: NaN stays NaN. */
  function Scale(k: int, a: Num): Num {
    if a.Finite? then Finite(k as real * a.value) else NaN
  }

  /** The value a rating contributes to the sum. */
  function OverallOf(r: Rating): Num {
    match r.overall
    case Some(v) => Finite(v as real)
    case None => NaN
  }

  /** `ratings.map(r => r.attributes.overall).reduce((a, b) => a + b, 0)`. */
  function OverallSum(rs: seq<Rating>): Num {
    if |rs| == 0 then Finite(0.0)
    else Add(OverallSum(rs[..|rs| - 1]), OverallOf(rs[|rs| - 1]))
  }

  /** `dateSortKey`: minus the submission epoch, or minus 0 when the date does
      not parse. */
  function DateSortKey(x: Applicant): Num {
    Finite(0.0 - x.dateEpoch.GetOr(0) as real)
  }

  /** `ratingSortKey`: the sum of the overall scores over `max(count, 1)`. */
  function RatingSortKey(x: Applicant): Num {
    var n := if |x.ratings| > 1 then |x.ratings| else 1;
    var sum := OverallSum(x.ratings);
    if sum.Finite? then Finite(sum.value / n as real) else NaN
  }

  /** `stageSortKey`: the position of the stage in `Stages`, -1 if unknown. */
  function StageSortKey(x: Applicant): Num {
    Finite(IndexOf(Stages, x.stage) as real)
  }

  // ---------------------------------------------------------------------------
  // Reference definitions for the rating key.

  /** Every rating has an overall score. */
  predicate AllScored(rs: seq<Rating>) {
    forall i :: 0 <= i < |rs| ==> rs[i].overall.Some?
  }

  /** The plain integer sum of the scores, for fully scored ratings. */
  function ScoreTotal(rs: seq<Rating>): int
    requires AllScored(rs)
  {
    if |rs| == 0 then 0 else rs[0].overall.value + ScoreTotal(rs[1..])
  }

  // ---------------------------------------------------------------------------
  // Properties of the keys.

  /** An unparsable date counts as epoch 0. */
  lemma DateKeyUnparsed(x: Applicant)
    requires x.dateEpoch.None?
    ensures DateSortKey(x) == Finite(0.0)
  {
  }

  /** Ascending on the date key lists the most recent submission first. */
  lemma DateKeyNewerFirst(x: Applicant, y: Applicant)
    requires x.dateEpoch.Some? && y.dateEpoch.Some?
    ensures DateSortKey(x).value < DateSortKey(y).value <==> x.dateEpoch.value > y.dateEpoch.value
  {
  }

  /** An applicant without ratings has rating key 0 (not NaN). */
  lemma RatingKeyNoRatings(x: Applicant)
    requires |x.ratings| == 0
    ensures RatingSortKey(x) == Finite(0.0)
  {
  }

  /** The sum is NaN exactly when some rating has no overall score. */
  lemma {:induction false} OverallSumNaN(rs: seq<Rating>)
    ensures OverallSum(rs).NaN? <==> !AllScored(rs)
  {
    if |rs| > 0 {
      var init := rs[..|rs| - 1];
      OverallSumNaN(init);
      assert AllScored(rs) <==> AllScored(init) && rs[|rs| - 1].overall.Some? by {
        if AllScored(init) && rs[|rs| - 1].overall.Some? {
          forall i | 0 <= i < |rs| ensures rs[i].overall.Some? {
            if i < |rs| - 1 {
              assert rs[i] == init[i];
            }
          }
        }
        if AllScored(rs) {
          forall i | 0 <= i < |init| ensures init[i].overall.Some? {
            assert init[i] == rs[i];
          }
        }
      }
    }
  }

  /** The rating key is NaN exactly when some rating has no overall score. */
  lemma RatingKeyNaN(x: Applicant)
    ensures RatingSortKey(x).NaN? <==> exists i :: 0 <= i < |x.ratings| && x.ratings[i].overall.None?
  {
    OverallSumNaN(x.ratings);
  }

  lemma ScoreTotalAppend(rs: seq<Rating>, r: Rating)
    requires AllScored(rs) && r.overall.Some?
    ensures AllScored(rs + [r])
    ensures ScoreTotal(rs + [r]) == ScoreTotal(rs) + r.overall.value
  {
    assert AllScored(rs + [r]) by {
      forall i | 0 <= i < |rs + [r]| ensures (rs + [r])[i].overall.Some? {
        if i < |rs| {
          assert (rs + [r])[i] == rs[i];
        }
      }
    }
    if |rs| > 0 {
      assert (rs + [r])[1..] == rs[1..] + [r];
      ScoreTotalAppend(rs[1..], r);
    }
  }

  /** For fully scored ratings the sum is the integer total of the scores. */
  lemma {:induction false} OverallSumTotal(rs: seq<Rating>)
    requires AllScored(rs)
    ensures OverallSum(rs) == Finite(ScoreTotal(rs) as real)
  {
    if |rs| > 0 {
      var init := rs[..|rs| - 1];
      var last := rs[|rs| - 1];
      assert AllScored(init) by {
        forall i | 0 <= i < |init| ensures init[i].overall.Some? {
          assert init[i] == rs[i];
        }
      }
      OverallSumTotal(init);
      ScoreTotalAppend(init, last);
      assert init + [last] == rs;
    }
  }

  /** The total of scores within `[lo, hi]` lies within `[n * lo, n * hi]`. */
  lemma {:induction false} ScoreTotalBounds(rs: seq<Rating>, lo: int, hi: int)
    requires AllScored(rs)
    requires forall i :: 0 <= i < |rs| ==> lo <= rs[i].overall.value <= hi
    ensures |rs| * lo <= ScoreTotal(rs) <= |rs| * hi
  {
    if |rs| > 0 {
      var tail := rs[1..];
      assert forall i :: 0 <= i < |tail| ==> tail[i] == rs[i + 1];
      ScoreTotalBounds(tail, lo, hi);
      assert |rs| * lo == |tail| * lo + lo;
      assert |rs| * hi == |tail| * hi + hi;
    }
  }

  /** With every score within `[lo, hi]`, the rating key (the mean score) lies
      within `[lo, hi]` too. */
  lemma RatingKeyBounds(x: Applicant, lo: int, hi: int)
    requires |x.ratings| > 0
    requires forall i :: 0 <= i < |x.ratings| ==> x.ratings[i].overall.Some?
    requires forall i :: 0 <= i < |x.ratings| ==> lo <= x.ratings[i].overall.value <= hi
    ensures RatingSortKey(x).Finite?
    ensures lo as real <= RatingSortKey(x).value <= hi as real
  {
    var rs := x.ratings;
    OverallSumTotal(rs);
    ScoreTotalBounds(rs, lo, hi);
    MeanBetween(ScoreTotal(rs), |rs|, lo, hi);
  }

  /** A total within `[n * lo, n * hi]` has its mean within `[lo, hi]`. */
  lemma MeanBetween(t: int, n: int, lo: int, hi: int)
    requires n > 0 && n * lo <= t <= n * hi
    ensures lo as real <= t as real / n as real <= hi as real
  {
    assert (n * lo) as real == n as real * lo as real;
    assert (n * hi) as real == n as real * hi as real;
    assert t as real / n as real * n as real == t as real;
  }

  /** A fingerprint that tells the stages apart: the length and one letter. */
  function StageSignature(s: string): (int, char) {
    (|s|, if |s| > 12 then s[12] else if |s| > 0 then s[0] else ' ')
  }

  lemma StagesDistinct(a: nat, b: nat)
    requires a < b < |Stages|
    ensures Stages[a] != Stages[b]
  {
    assert StageSignature(Stages[a]) != StageSignature(Stages[b]);
  }

  /** The stages are listed without repetition: each one's key is its
      position. */
  lemma StageKeyOfListed(i: nat)
    requires i < |Stages|
    ensures IndexOf(Stages, Stages[i]) == i
  {
    var k := IndexOf(Stages, Stages[i]);
    if k < i {
      StagesDistinct(k, i);
    }
  }

  /** The stage key is -1 exactly for a stage outside the pipeline, and
      otherwise the stage's pipeline position. */
  lemma StageKeyMeaning(x: Applicant)
    ensures StageSortKey(x) == Finite(-1.0) <==> x.stage !in Stages
    ensures x.stage in Stages ==> exists i :: 0 <= i < |Stages| && Stages[i] == x.stage && StageSortKey(x) == Finite(i as real)
  {
    var k := IndexOf(Stages, x.stage);
    if x.stage in Stages {
      assert Stages[k] == x.stage;
    }
  }

  /** Ascending on the stage key lists applicants in pipeline order. */
  lemma StageKeyOrder(x: Applicant, y: Applicant, i: nat, j: nat)
    requires i < j < |Stages| && x.stage == Stages[i] && y.stage == Stages[j]
    ensures StageSortKey(x).value < StageSortKey(y).value
  {
    StageKeyOfListed(i);
    StageKeyOfListed(j);
  }

  /** An applicant at a stage outside the pipeline sorts before every listed
      stage when ascending. */
  lemma StageKeyUnknownFirst(x: Applicant, y: Applicant)
    requires x.stage !in Stages && y.stage in Stages
    ensures StageSortKey(x).value < StageSortKey(y).value
  {
  }
}
