/** What the searcher's filters and comparator keys mean for one applicant:
    `getSearchMatchIndex`, the `filter` closure and the `sorter` closure that
    `useSearcher` returns. */
module Ranking {
  import opened Wrappers
  import opened JsText
  import opened Applicants
  import opened Searcher

  // ---------------------------------------------------------------------------
  // The search phrase.

  /** The number of searched fields, `searchIndices.length`. */
  const FieldCount: nat := 4

  /** `x[searchIndices[i]]` for `searchIndices = ["name", "email", "stage",
      "emailText"]`; only `emailText` may be absent. */
  function SearchField(x: Applicant, i: nat): Option<string>
    requires i < FieldCount
  {
    if i == 0 then Some(x.name)
    else if i == 1 then Some(x.email)
    else if i == 2 then Some(x.stage)
    else x.emailText
  }

  /** `value && value.includes(phrase)`: the field is present, not the empty
      (falsy) string, and holds the phrase as a contiguous piece. */
  predicate FieldMatches(x: Applicant, i: nat, phrase: string)
    requires i < FieldCount
  {
    var value := SearchField(x, i);
    value.Some? && value.value != "" && Includes(value.value, phrase)
  }

  /** The index of the first searched field holding the phrase, or
      `FieldCount` when none does. */
  function MatchIndex(x: Applicant, phrase: string): (r: nat)
    ensures r <= FieldCount
    ensures r < FieldCount ==> FieldMatches(x, r, phrase)
    ensures forall i :: 0 <= i < r && i < FieldCount ==> !FieldMatches(x, i, phrase)
  {
    if FieldMatches(x, 0, phrase) then 0
    else if FieldMatches(x, 1, phrase) then 1
    else if FieldMatches(x, 2, phrase) then 2
    else if FieldMatches(x, 3, phrase) then 3
    else FieldCount
  }

  /** `getSearchMatchIndex(x)`: the `for` loop over the searched fields with
      its early `return`. */
  method GetSearchMatchIndex(x: Applicant, phrase: string) returns (r: nat)
    ensures r <= FieldCount
    ensures r < FieldCount ==> FieldMatches(x, r, phrase)
    ensures forall i :: 0 <= i < r && i < FieldCount ==> !FieldMatches(x, i, phrase)
    ensures r == MatchIndex(x, phrase)
  {
    for i := 0 to FieldCount
      invariant forall j :: 0 <= j < i ==> !FieldMatches(x, j, phrase)
    {
      var value := SearchField(x, i);
      if value.Some? && value.value != "" && Includes(value.value, phrase) {
        return i;
      }
    }
    return FieldCount;
  }

  /** A record passes the phrase filter exactly when some present searched
      field holds the phrase. */
  lemma PhraseFilterMeaning(x: Applicant, phrase: string)
    ensures MatchIndex(x, phrase) != FieldCount <==>
      exists i, p: nat :: 0 <= i < FieldCount && SearchField(x, i).Some? && SearchField(x, i).value != ""
        && OccursAt(SearchField(x, i).value, phrase, p)
  {
    var r := MatchIndex(x, phrase);
    if r < FieldCount {
      var p: nat :| OccursAt(SearchField(x, r).value, phrase, p);
    }
  }

  /** A non-empty phrase is never held by an absent or empty field, so "some
      field holds it" is all the filter asks. */
  lemma PhraseFilterNonEmpty(x: Applicant, phrase: string)
    requires phrase != ""
    ensures MatchIndex(x, phrase) != FieldCount <==>
      exists i :: 0 <= i < FieldCount && SearchField(x, i).Some? && Includes(SearchField(x, i).value, phrase)
  {
    if exists i :: 0 <= i < FieldCount && SearchField(x, i).Some? && Includes(SearchField(x, i).value, phrase) {
      var i :| 0 <= i < FieldCount && SearchField(x, i).Some? && Includes(SearchField(x, i).value, phrase);
      var p: nat :| OccursAt(SearchField(x, i).value, phrase, p);
      assert FieldMatches(x, i, phrase);
    }
  }

  // ---------------------------------------------------------------------------
  // The filter.

  /** `x.ratings.some(r => r.attributes.overall === score)`. */
  predicate HasOverall(x: Applicant, score: int) {
    exists i :: 0 <= i < |x.ratings| && x.ratings[i].overall == Some(score)
  }

  /** What one pushed predicate says of a record. */
  predicate Holds(f: Filter, x: Applicant) {
    match f
    case HasRating(score) => HasOverall(x, score)
    case MatchesPhrase(phrase) => MatchIndex(x, phrase) != FieldCount
  }

  /** `fs.every((f) => f(x))`. */
  predicate AllHold(fs: seq<Filter>, x: Applicant) {
    forall i :: 0 <= i < |fs| ==> Holds(fs[i], x)
  }

  /** `filter(x)`: every pushed predicate holds of the record. */
  predicate Keep(s: Searcher, x: Applicant) {
    AllHold(s.filters, x)
  }

  /** The conjunction splits over concatenated filter lists; an empty list
      keeps every record. */
  lemma AllHoldAppend(a: seq<Filter>, b: seq<Filter>, x: Applicant)
    ensures AllHold(a + b, x) <==> AllHold(a, x) && AllHold(b, x)
    ensures AllHold([], x)
  {
    forall i | 0 <= i < |a| ensures (a + b)[i] == a[i] {
    }
    forall i | 0 <= i < |b| ensures (a + b)[|a| + i] == b[i] {
    }
    if AllHold(a, x) && AllHold(b, x) {
      forall i | 0 <= i < |a + b| ensures Holds((a + b)[i], x) {
        if i >= |a| {
          assert (a + b)[i] == b[i - |a|];
        }
      }
    }
  }

  lemma AllHoldOne(f: Filter, x: Applicant)
    ensures AllHold([f], x) <==> Holds(f, x)
  {
    assert [f][0] == f;
  }

  // ---------------------------------------------------------------------------
  // The keys.

  /** The sort-key helper a field names. */
  function FieldValue(f: SortField, x: Applicant): Num {
    match f
    case ByDate => DateSortKey(x)
    case ByRating => RatingSortKey(x)
    case ByStage => StageSortKey(x)
  }

  /** `mapper(x)`: a key's number for a record; a sort key is its helper
      times `isAsc ? 1 : -1`. */
  function KeyValue(k: Key, x: Applicant): Num {
    match k
    case MatchIndexKey(phrase) => Finite(MatchIndex(x, phrase) as real)
    case FieldKey(f, ascending) => Scale(if ascending then 1 else -1, FieldValue(f, x))
  }

  /** A descending key is minus the ascending one, and NaN stays NaN. */
  lemma DescendingNegates(f: SortField, x: Applicant)
    ensures KeyValue(FieldKey(f, false), x).NaN? <==> FieldValue(f, x).NaN?
    ensures FieldValue(f, x).Finite? ==>
      KeyValue(FieldKey(f, false), x) == Finite(0.0 - FieldValue(f, x).value)
         && KeyValue(FieldKey(f, true), x) == FieldValue(f, x)
  {
  }

  // ---------------------------------------------------------------------------
  // The sorter.

  /** A number after `isNaN(v) && (v = Infinity)`: NaN is gone, +Infinity may
      appear. */
  datatype Extended = Real(value: real) | Infinity

  /** JavaScript `<` on such numbers. */
  predicate Below(a: Extended, b: Extended) {
    match (a, b)
    case (Real(u), Real(v)) => u < v
    case (Real(_), Infinity) => true
    case (Infinity, _) => false
  }

  /** NaN becomes +Infinity. */
  function Rank(k: Key, x: Applicant): (r: Extended)
    ensures r == Infinity <==> KeyValue(k, x).NaN?
    ensures r.Real? ==> r.value == KeyValue(k, x).value
  {
    var v := KeyValue(k, x);
    if v.NaN? then Infinity else Real(v.value)
  }

  /** The comparator's value from key `i` on. */
  function CompareFrom(keys: seq<Key>, x: Applicant, y: Applicant, i: nat): int
    requires i <= |keys|
    decreases |keys| - i
  {
    if i == |keys| then 0
    else if Rank(keys[i], x) != Rank(keys[i], y) then (if Below(Rank(keys[i], x), Rank(keys[i], y)) then -1 else 1)
    else CompareFrom(keys, x, y, i + 1)
  }

  /** `sorter(x, y)` over the searcher's keys. */
  function Compare(keys: seq<Key>, x: Applicant, y: Applicant): int {
    CompareFrom(keys, x, y, 0)
  }

  /** `sorter(x, y)`: the `for` loop over the comparator keys, returning at
      the first key whose values differ. */
  method Sorter(keys: seq<Key>, x: Applicant, y: Applicant) returns (r: int)
    ensures r == Compare(keys, x, y)
  {
    for comparatorIndex := 0 to |keys|
      invariant CompareFrom(keys, x, y, comparatorIndex) == Compare(keys, x, y)
    {
      var mapper := keys[comparatorIndex];
      var nx := KeyValue(mapper, x);
      var ny := KeyValue(mapper, y);
      var vx := if nx.NaN? then Infinity else Real(nx.value);
      var vy := if ny.NaN? then Infinity else Real(ny.value);
      if vx != vy {
        return if Below(vx, vy) then -1 else 1;
      }
    }
    return 0;
  }

  /** Keys `i` and on tie for the two records. */
  predicate TieFrom(keys: seq<Key>, x: Applicant, y: Applicant, i: nat)
    requires i <= |keys|
  {
    forall j :: i <= j < |keys| ==> Rank(keys[j], x) == Rank(keys[j], y)
  }

  /** The comparator returns 0 exactly when all keys tie, and otherwise -1 or
      1 as the first differing key says. */
  lemma {:induction false} CompareFromMeaning(keys: seq<Key>, x: Applicant, y: Applicant, i: nat, d: nat)
    requires i <= d <= |keys|
    requires forall j :: i <= j < d ==> Rank(keys[j], x) == Rank(keys[j], y)
    ensures d == |keys| ==> CompareFrom(keys, x, y, i) == 0
    ensures d < |keys| && Rank(keys[d], x) != Rank(keys[d], y) ==>
      CompareFrom(keys, x, y, i) == if Below(Rank(keys[d], x), Rank(keys[d], y)) then -1 else 1
    decreases d - i
  {
    if i < d {
      CompareFromMeaning(keys, x, y, i + 1, d);
    }
  }

  /** All keys tie exactly when the comparator returns 0. */
  lemma {:induction false} CompareZero(keys: seq<Key>, x: Applicant, y: Applicant, i: nat)
    requires i <= |keys|
    ensures CompareFrom(keys, x, y, i) == 0 <==> TieFrom(keys, x, y, i)
    ensures CompareFrom(keys, x, y, i) in {-1, 0, 1}
    decreases |keys| - i
  {
    if i < |keys| {
      CompareZero(keys, x, y, i + 1);
    }
  }

  /** The first key whose values differ decides: -1 if `x`'s value is below
      `y`'s, else 1; NaN counts as +Infinity. */
  lemma FirstDifferenceDecides(keys: seq<Key>, x: Applicant, y: Applicant, d: nat)
    requires d < |keys| && Rank(keys[d], x) != Rank(keys[d], y)
    requires forall j :: 0 <= j < d ==> Rank(keys[j], x) == Rank(keys[j], y)
    ensures Compare(keys, x, y) == if Below(Rank(keys[d], x), Rank(keys[d], y)) then -1 else 1
  {
    CompareFromMeaning(keys, x, y, 0, d);
  }

  /** With all keys tied the comparator returns 0. */
  lemma AllTiedIsZero(keys: seq<Key>, x: Applicant, y: Applicant)
    ensures Compare(keys, x, y) == 0 <==> forall j :: 0 <= j < |keys| ==> Rank(keys[j], x) == Rank(keys[j], y)
    ensures Compare(keys, x, y) in {-1, 0, 1}
  {
    CompareZero(keys, x, y, 0);
  }

  /** `<` on the extended numbers is a strict total order. */
  lemma BelowTotal(a: Extended, b: Extended)
    ensures a != b ==> (Below(a, b) <==> !Below(b, a))
    ensures !Below(a, a)
  {
  }

  lemma BelowTransitive(a: Extended, b: Extended, c: Extended)
    requires Below(a, b) && Below(b, c)
    ensures Below(a, c)
  {
  }

  /** `sorter(x, x) == 0`. */
  lemma {:induction false} CompareReflexive(keys: seq<Key>, x: Applicant, i: nat)
    requires i <= |keys|
    ensures CompareFrom(keys, x, x, i) == 0
    decreases |keys| - i
  {
    if i < |keys| {
      CompareReflexive(keys, x, i + 1);
    }
  }

  /** `sorter(x, y) == -sorter(y, x)`. */
  lemma {:induction false} CompareAntisymmetric(keys: seq<Key>, x: Applicant, y: Applicant, i: nat)
    requires i <= |keys|
    ensures CompareFrom(keys, x, y, i) == -CompareFrom(keys, y, x, i)
    decreases |keys| - i
  {
    if i < |keys| {
      BelowTotal(Rank(keys[i], x), Rank(keys[i], y));
      CompareAntisymmetric(keys, x, y, i + 1);
    }
  }

  /** `sorter(x, y) <= 0` and `sorter(y, z) <= 0` give `sorter(x, z) <= 0`. */
  lemma {:induction false} CompareTransitive(keys: seq<Key>, x: Applicant, y: Applicant, z: Applicant, i: nat)
    requires i <= |keys|
    requires CompareFrom(keys, x, y, i) <= 0 && CompareFrom(keys, y, z, i) <= 0
    ensures CompareFrom(keys, x, z, i) <= 0
    decreases |keys| - i
  {
    if i < |keys| {
      var a, b, c := Rank(keys[i], x), Rank(keys[i], y), Rank(keys[i], z);
      if a == b && b == c {
        CompareTransitive(keys, x, y, z, i + 1);
      } else if a == b {
        assert Below(b, c);
      } else if b == c {
        assert Below(a, b);
      } else {
        BelowTransitive(a, b, c);
      }
    }
  }

  /** The sorter is a total preorder: reflexive, total and transitive, with
      `sorter(x, y) == -sorter(y, x)`. */
  lemma SorterIsTotalPreorder(keys: seq<Key>, x: Applicant, y: Applicant, z: Applicant)
    ensures Compare(keys, x, x) == 0
    ensures Compare(keys, x, y) == -Compare(keys, y, x)
    ensures Compare(keys, x, y) <= 0 || Compare(keys, y, x) <= 0
    ensures Compare(keys, x, y) <= 0 && Compare(keys, y, z) <= 0 ==> Compare(keys, x, z) <= 0
  {
    CompareReflexive(keys, x, 0);
    CompareAntisymmetric(keys, x, y, 0);
    if Compare(keys, x, y) <= 0 && Compare(keys, y, z) <= 0 {
      CompareTransitive(keys, x, y, z, 0);
    }
  }

  /** A NaN key value sorts after every number, ascending or descending. */
  lemma NaNSortsLast(keys: seq<Key>, x: Applicant, y: Applicant, d: nat)
    requires d < |keys| && KeyValue(keys[d], x).Finite? && KeyValue(keys[d], y).NaN?
    requires forall j :: 0 <= j < d ==> Rank(keys[j], x) == Rank(keys[j], y)
    ensures Compare(keys, x, y) == -1
  {
    FirstDifferenceDecides(keys, x, y, d);
  }
}
