/** The small pure helpers of the views: the stage label of `StageTagRaw`,
    the plain-text mask of hidden rating notes, and the list updates after a
    stage change, a rating deletion and a new rating. */
module Views {
  import opened Wrappers
  import opened JsText
  import opened Applicants
  import opened Ranking
  import opened Ordering

  // ---------------------------------------------------------------------------
  // The stage label.

  /** `s.split(sep)` from position `from` on: the pieces between the
      separators, empty ones included. */
  function SplitFrom(s: string, sep: char, from: nat): (r: seq<string>)
    requires from <= |s|
    ensures |r| >= 1
    decreases |s| - from
  {
    var k := IndexFrom(s, sep, from);
    if k == |s| then [s[from..]] else [s[from..k]] + SplitFrom(s, sep, k + 1)
  }

  function Split(s: string, sep: char): seq<string> {
    SplitFrom(s, sep, 0)
  }

  /** `x.charAt(0).toUpperCase() + x.slice(1)`. */
  function Capitalize(x: string): (r: string)
    ensures |r| == |x|
  {
    if |x| == 0 then "" else [UpperChar(x[0])] + x[1..]
  }

  /** `parts.map(capitalize)`. */
  function CapitalizeAll(parts: seq<string>): seq<string> {
    seq(|parts|, i requires 0 <= i < |parts| => Capitalize(parts[i]))
  }

  /** The label `StageTagRaw` shows for a stage. */
  function StageLabel(stage: string): string {
    Join(CapitalizeAll(Split(stage, '-')), " ")
  }

  /** What the label shows at position `i`: a space for each `-`, the
      first letter of each piece in upper case, every other character as
      it is. */
  function LabelChar(s: string, i: nat): char
    requires i < |s|
  {
    if s[i] == '-' then ' '
    else if i == 0 || s[i - 1] == '-' then UpperChar(s[i])
    else s[i]
  }

  /** The label from a piece start `from` on. */
  function LabelFrom(s: string, from: nat): string
    requires from <= |s|
  {
    Join(CapitalizeAll(SplitFrom(s, '-', from)), " ")
  }

  lemma CapitalizeAllCons(p: string, rest: seq<string>)
    ensures CapitalizeAll([p] + rest) == [Capitalize(p)] + CapitalizeAll(rest)
  {
    assert |CapitalizeAll([p] + rest)| == |[Capitalize(p)] + CapitalizeAll(rest)|;
    forall i | 0 <= i < 1 + |rest| ensures CapitalizeAll([p] + rest)[i] == ([Capitalize(p)] + CapitalizeAll(rest))[i] {
      if i > 0 {
        assert ([p] + rest)[i] == rest[i - 1];
      }
    }
  }

  /** A piece without separators, starting a piece, capitalises as the
      label says. */
  lemma PieceChars(s: string, from: nat, k: nat)
    requires from <= k <= |s|
    requires forall j :: from <= j < k ==> s[j] != '-'
    requires from == 0 || s[from - 1] == '-'
    ensures forall j :: 0 <= j < k - from ==> Capitalize(s[from..k])[j] == LabelChar(s, from + j)
  {
    var p := s[from..k];
    forall j | 0 <= j < k - from ensures Capitalize(p)[j] == LabelChar(s, from + j) {
      assert p[j] == s[from + j];
      if j > 0 {
        assert s[from + j - 1] == p[j - 1];
        assert Capitalize(p)[j] == p[j];
      }
    }
  }

  /** The label from the last piece on is that piece capitalised. */
  lemma LabelLastPiece(s: string, from: nat)
    requires from <= |s| && IndexFrom(s, '-', from) == |s|
    ensures LabelFrom(s, from) == Capitalize(s[from..|s|])
  {
    assert s[from..|s|] == s[from..];
    assert SplitFrom(s, '-', from) == [s[from..]];
  }

  /** Before a separator at `k`, the label is the capitalised piece, a
      space, and the label from `k + 1` on. */
  lemma LabelNextPiece(s: string, from: nat, k: nat)
    requires from <= |s| && k == IndexFrom(s, '-', from) && k < |s|
    ensures LabelFrom(s, from) == Capitalize(s[from..k]) + " " + LabelFrom(s, k + 1)
  {
    var p, rest := s[from..k], SplitFrom(s, '-', k + 1);
    assert SplitFrom(s, '-', from) == [p] + rest;
    CapitalizeAllCons(p, rest);
    var parts := CapitalizeAll([p] + rest);
    assert parts[0] == Capitalize(p) && parts[1..] == CapitalizeAll(rest);
  }

  /** `lab` is what the label shows from position `from` of `s` on. */
  predicate ShowsLabel(lab: string, s: string, from: nat)
    requires from <= |s|
  {
    |lab| == |s| - from && forall j :: 0 <= j < |s| - from ==> lab[j] == LabelChar(s, from + j)
  }

  /** A capitalised piece, a space for its separator, then the label from
      `k + 1` on. */
  lemma LabelChars(s: string, from: nat, k: nat, rest: string)
    requires from <= k < |s| && s[k] == '-'
    requires forall j :: 0 <= j < k - from ==> Capitalize(s[from..k])[j] == LabelChar(s, from + j)
    requires ShowsLabel(rest, s, k + 1)
    ensures ShowsLabel(Capitalize(s[from..k]) + " " + rest, s, from)
  {
    var lab := Capitalize(s[from..k]) + " " + rest;
    forall j | 0 <= j < |s| - from ensures lab[j] == LabelChar(s, from + j) {
      if j < k - from {
        assert lab[j] == Capitalize(s[from..k])[j];
      } else if j == k - from {
        assert lab[j] == ' ';
      } else {
        assert lab[j] == rest[j - (k - from) - 1];
      }
    }
  }

  /** The label keeps the length of the stage and shows `LabelChar` at
      every position, from any piece start on. */
  lemma {:induction false} LabelFromMeaning(s: string, from: nat)
    requires from <= |s|
    requires from == 0 || s[from - 1] == '-'
    ensures ShowsLabel(LabelFrom(s, from), s, from)
    decreases |s| - from
  {
    var k := IndexFrom(s, '-', from);
    PieceChars(s, from, k);
    if k == |s| {
      LabelLastPiece(s, from);
    } else {
      LabelFromMeaning(s, k + 1);
      LabelNextPiece(s, from, k);
      LabelChars(s, from, k, LabelFrom(s, k + 1));
    }
  }

  /** The stage label has the stage's length; it turns each `-` into a
      space and upper-cases the first letter of each piece. */
  lemma StageLabelMeaning(stage: string)
    ensures |StageLabel(stage)| == |stage|
    ensures forall i :: 0 <= i < |stage| ==> StageLabel(stage)[i] == LabelChar(stage, i)
  {
    LabelFromMeaning(stage, 0);
  }

  /** Splitting and joining with the separator gives the string back. */
  lemma {:induction false} SplitJoin(s: string, sep: char, from: nat)
    requires from <= |s|
    ensures Join(SplitFrom(s, sep, from), [sep]) == s[from..]
    decreases |s| - from
  {
    var k := IndexFrom(s, sep, from);
    if k < |s| {
      SplitJoin(s, sep, k + 1);
      JoinCons(s[from..k], SplitFrom(s, sep, k + 1), [sep]);
      CutAt(s, from, k);
    }
  }

  lemma JoinCons(p: string, rest: seq<string>, sep: string)
    requires |rest| >= 1
    ensures Join([p] + rest, sep) == p + sep + Join(rest, sep)
  {
    assert ([p] + rest)[1..] == rest;
  }

  lemma CutAt(s: string, from: nat, k: nat)
    requires from <= k < |s|
    ensures s[from..] == s[from..k] + [s[k]] + s[k + 1..]
  {
  }

  /** No piece of a split contains the separator. */
  lemma {:induction false} SplitPieces(s: string, sep: char, from: nat)
    requires from <= |s|
    ensures forall i :: 0 <= i < |SplitFrom(s, sep, from)| ==> sep !in SplitFrom(s, sep, from)[i]
    decreases |s| - from
  {
    var k := IndexFrom(s, sep, from);
    var parts := SplitFrom(s, sep, from);
    assert sep !in s[from..k];
    if k < |s| {
      SplitPieces(s, sep, k + 1);
      forall i | 1 <= i < |parts| ensures sep !in parts[i] {
        assert parts[i] == SplitFrom(s, sep, k + 1)[i - 1];
      }
    }
  }

  // ---------------------------------------------------------------------------
  // The notes mask.

  const MaskChar: char := '▒'

  /** `[...notes].map((c) => (c === " " ? c : "▒")).join("")`. */
  function Mask(notes: string): string {
    seq(|notes|, i requires 0 <= i < |notes| => if notes[i] == ' ' then ' ' else MaskChar)
  }

  /** The mask shows where the spaces are and nothing else: two notes mask
      alike exactly when they have the same length and spaces at the same
      positions. */
  lemma MaskHides(a: string, b: string)
    ensures Mask(a) == Mask(b) <==> |a| == |b| && forall i :: 0 <= i < |a| ==> (a[i] == ' ' <==> b[i] == ' ')
  {
    if Mask(a) == Mask(b) {
      forall i | 0 <= i < |a| ensures a[i] == ' ' <==> b[i] == ' ' {
        assert Mask(a)[i] == Mask(b)[i];
      }
    }
  }

  /** Masking a masked text changes nothing. */
  lemma MaskIdempotent(notes: string)
    ensures Mask(Mask(notes)) == Mask(notes)
  {
  }

  // ---------------------------------------------------------------------------
  // List updates.

  /** `onNewStage`: `data.map((i) => ({...i, stage: i.id === id ? stage : i.stage}))`. */
  function ReplaceStage(data: seq<Applicant>, id: int, stage: string): seq<Applicant> {
    seq(|data|, i requires 0 <= i < |data| => data[i].(stage := if data[i].id == id then stage else data[i].stage))
  }

  /** Only the stage of the applicants with that id changes. */
  lemma ReplaceStageMeaning(data: seq<Applicant>, id: int, stage: string, i: nat)
    requires i < |data|
    ensures |ReplaceStage(data, id, stage)| == |data|
    ensures data[i].id != id ==> ReplaceStage(data, id, stage)[i] == data[i]
    ensures data[i].id == id ==> ReplaceStage(data, id, stage)[i] == data[i].(stage := stage)
  {
  }

  /** A second stage change of the same applicant overrides the first. */
  lemma ReplaceStageTwice(data: seq<Applicant>, id: int, first: string, second: string)
    ensures ReplaceStage(ReplaceStage(data, id, first), id, second) == ReplaceStage(data, id, second)
  {
  }

  /** The new stage decides the applicant's stage key. */
  lemma ReplaceStageKey(data: seq<Applicant>, id: int, stage: string, i: nat)
    requires i < |data| && data[i].id == id
    ensures StageSortKey(ReplaceStage(data, id, stage)[i]) == Finite(IndexOf(Stages, stage) as real)
  {
  }

  /** `onDeleted`: `ratings.filter((x) => x.id != rating.id)`. */
  function DeleteRating(x: Applicant, id: int): Applicant {
    x.(ratings := Filter((r: Rating) => r.id != id, x.ratings))
  }

  /** `onFinished`: `[...ratings, newRating]`. */
  function AppendRating(x: Applicant, r: Rating): Applicant {
    x.(ratings := x.ratings + [r])
  }

  /** After a deletion no rating has that id, every other rating is kept as
      often as before, and nothing else about the applicant changes. */
  lemma DeleteRatingMeaning(x: Applicant, id: int, r: Rating)
    ensures r.id == id ==> r !in DeleteRating(x, id).ratings
    ensures r.id != id ==> multiset(DeleteRating(x, id).ratings)[r] == multiset(x.ratings)[r]
    ensures DeleteRating(x, id).(ratings := x.ratings) == x
  {
    FilterCount((q: Rating) => q.id != id, x.ratings, r);
  }

  /** Deleting can only remove scores the rating filter finds. */
  lemma DeleteRatingShrinks(x: Applicant, id: int, score: int)
    requires HasOverall(DeleteRating(x, id), score)
    ensures HasOverall(x, score)
  {
    var rs := DeleteRating(x, id).ratings;
    var i :| 0 <= i < |rs| && rs[i].overall == Some(score);
    assert rs[i] in multiset(rs);
    FilterCount((q: Rating) => q.id != id, x.ratings, rs[i]);
    assert rs[i] in x.ratings;
  }

  /** A new rating keeps the old ones in order and comes last; the rating
      filter then also finds its score. */
  lemma AppendRatingMeaning(x: Applicant, r: Rating, score: int)
    ensures AppendRating(x, r).ratings[..|x.ratings|] == x.ratings
    ensures AppendRating(x, r).ratings[|x.ratings|] == r
    ensures HasOverall(AppendRating(x, r), score) <==> HasOverall(x, score) || r.overall == Some(score)
  {
    var rs := AppendRating(x, r).ratings;
    if HasOverall(AppendRating(x, r), score) {
      var i :| 0 <= i < |rs| && rs[i].overall == Some(score);
      if i < |x.ratings| {
        assert x.ratings[i] == rs[i];
      }
    }
    if HasOverall(x, score) {
      var i :| 0 <= i < |x.ratings| && x.ratings[i].overall == Some(score);
      assert rs[i] == x.ratings[i];
    }
    assert rs[|x.ratings|] == r;
  }

  /** Adding a rating and deleting it again leaves the ratings as they were
      after deleting that id. */
  lemma AppendThenDelete(x: Applicant, r: Rating)
    ensures DeleteRating(AppendRating(x, r), r.id) == DeleteRating(x, r.id)
  {
    FilterAppendRejected((q: Rating) => q.id != r.id, x.ratings, r);
  }

  lemma {:induction false} FilterAppendRejected<T>(keep: T -> bool, xs: seq<T>, y: T)
    requires !keep(y)
    ensures Filter(keep, xs + [y]) == Filter(keep, xs)
  {
    if |xs| == 0 {
      assert [y][1..] == [];
    } else {
      assert (xs + [y])[1..] == xs[1..] + [y];
      FilterAppendRejected(keep, xs[1..], y);
    }
  }
}
