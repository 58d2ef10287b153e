/** The list view's `(data || []).filter(filter).sort(sorter)`: the records
    the searcher keeps, ordered by its comparator. `Array.prototype.filter`
    and `Array.prototype.sort` are modelled as generic operations over a
    predicate and a comparator; the engine's own sort is replaced by a stable
    insertion sort. */
module Ordering {
  import opened Wrappers
  import opened Applicants
  import opened Searcher
  import opened Ranking

  // ---------------------------------------------------------------------------
  // `filter`.

  /** `xs.filter(keep)`: the elements `keep` accepts, in their order. */
  function Filter<T>(keep: T -> bool, xs: seq<T>): (r: seq<T>)
    ensures |r| <= |xs|
  {
    if |xs| == 0 then [] else (if keep(xs[0]) then [xs[0]] else []) + Filter(keep, xs[1..])
  }

  /** Each element occurs in the result as often as in the input when `keep`
      accepts it, and not at all otherwise. */
  lemma {:induction false} FilterCount<T>(keep: T -> bool, xs: seq<T>, x: T)
    ensures multiset(Filter(keep, xs))[x] == if keep(x) then multiset(xs)[x] else 0
  {
    if |xs| > 0 {
      FilterCount(keep, xs[1..], x);
      assert xs == [xs[0]] + xs[1..];
    }
  }

  /** A predicate that accepts every element leaves the list unchanged. */
  lemma {:induction false} FilterAll<T>(keep: T -> bool, xs: seq<T>)
    requires forall i :: 0 <= i < |xs| ==> keep(xs[i])
    ensures Filter(keep, xs) == xs
  {
    if |xs| > 0 {
      assert keep(xs[0]);
      FilterAll(keep, xs[1..]);
    }
  }

  // ---------------------------------------------------------------------------
  // Comparators.

  /** `cmp(x, y) == -cmp(y, x)`, which makes `cmp(x, x) == 0`. */
  ghost predicate Antisymmetric<T(!new)>(cmp: (T, T) -> int) {
    forall x, y :: cmp(x, y) == -cmp(y, x)
  }

  /** "At or before" chains. */
  ghost predicate Transitive<T(!new)>(cmp: (T, T) -> int) {
    forall x, y, z :: cmp(x, y) <= 0 && cmp(y, z) <= 0 ==> cmp(x, z) <= 0
  }

  /** A comparator that is consistent in the sense `Array.prototype.sort`
      asks for: a total preorder. */
  ghost predicate TotalPreorder<T(!new)>(cmp: (T, T) -> int) {
    Antisymmetric(cmp) && Transitive(cmp)
  }

  /** Strictly before, then at or before, is strictly before. */
  lemma StrictChain<T(!new)>(cmp: (T, T) -> int, x: T, y: T, z: T)
    requires TotalPreorder(cmp)
    requires cmp(x, y) < 0 && cmp(y, z) <= 0
    ensures cmp(x, z) < 0
  {
    assert cmp(y, x) > 0;
    assert cmp(z, x) > 0;
  }

  /** An element strictly after `x` does not tie with an element `x` ties
      with. */
  lemma NotTiedAfter<T(!new)>(cmp: (T, T) -> int, a: T, x: T, e: T)
    requires TotalPreorder(cmp)
    requires cmp(x, a) == 0 && cmp(x, e) < 0
    ensures cmp(e, a) != 0
  {
    assert cmp(e, x) > 0;
    assert cmp(a, x) == 0;
  }

  // ---------------------------------------------------------------------------
  // `sort` by a comparator.

  /** The comparator never puts an element ahead of an earlier one. */
  ghost predicate Sorted<T>(cmp: (T, T) -> int, s: seq<T>) {
    forall i, j :: 0 <= i < j < |s| ==> cmp(s[i], s[j]) <= 0
  }

  /** Places `x` into `s` just before the first element it compares
      strictly before, so the elements it ties with stay ahead of it. */
  function Insert<T>(cmp: (T, T) -> int, x: T, s: seq<T>): (r: seq<T>)
    ensures |r| == |s| + 1
  {
    if |s| == 0 then [x]
    else if cmp(x, s[0]) < 0 then [x] + s
    else [s[0]] + Insert(cmp, x, s[1..])
  }

  /** `xs.sort(cmp)` as an insertion sort: each element of the input in turn
      is inserted into the sorted prefix. */
  function SortBy<T>(cmp: (T, T) -> int, xs: seq<T>): (r: seq<T>)
    ensures |r| == |xs|
  {
    if |xs| == 0 then [] else Insert(cmp, xs[|xs| - 1], SortBy(cmp, xs[..|xs| - 1]))
  }

  /** Insertion adds exactly `x`. */
  lemma {:induction false} InsertPermutes<T>(cmp: (T, T) -> int, x: T, s: seq<T>)
    ensures multiset(Insert(cmp, x, s)) == multiset(s) + multiset{x}
  {
    if |s| > 0 && !(cmp(x, s[0]) < 0) {
      InsertPermutes(cmp, x, s[1..]);
      HeadTail(s);
    }
  }

  /** The sort rearranges its input: every element is kept, as often as it
      occurs. */
  lemma {:induction false} SortByPermutes<T>(cmp: (T, T) -> int, xs: seq<T>)
    ensures multiset(SortBy(cmp, xs)) == multiset(xs)
  {
    if |xs| > 0 {
      var init, last := xs[..|xs| - 1], xs[|xs| - 1];
      SortByPermutes(cmp, init);
      InsertPermutes(cmp, last, SortBy(cmp, init));
      InitLast(xs);
    }
  }

  lemma HeadTail<T>(s: seq<T>)
    requires |s| > 0
    ensures s == [s[0]] + s[1..]
  {
  }

  lemma InitLast<T>(s: seq<T>)
    requires |s| > 0
    ensures s == s[..|s| - 1] + [s[|s| - 1]]
  {
  }

  /** The rest of a sorted list is sorted. */
  lemma SortedTail<T>(cmp: (T, T) -> int, s: seq<T>)
    requires |s| > 0 && Sorted(cmp, s)
    ensures Sorted(cmp, s[1..])
  {
    var t := s[1..];
    forall i, j | 0 <= i < j < |t| ensures cmp(t[i], t[j]) <= 0 {
      assert t[i] == s[i + 1] && t[j] == s[j + 1];
    }
  }

  /** A list is sorted when its head compares at or before each element of
      its sorted rest. */
  lemma SortedCons<T>(cmp: (T, T) -> int, e: T, t: seq<T>)
    requires forall y :: y in t ==> cmp(e, y) <= 0
    requires Sorted(cmp, t)
    ensures Sorted(cmp, [e] + t)
  {
    var s := [e] + t;
    forall i, j | 0 <= i < j < |s| ensures cmp(s[i], s[j]) <= 0 {
      assert s[j] == t[j - 1];
      if i == 0 {
        assert s[j] in t;
      } else {
        assert s[i] == t[i - 1];
      }
    }
  }

  /** An element at or before the head of a sorted list is at or before all
      of it. */
  lemma HeadFirst<T(!new)>(cmp: (T, T) -> int, x: T, s: seq<T>)
    requires TotalPreorder(cmp)
    requires |s| > 0 && Sorted(cmp, s) && cmp(x, s[0]) <= 0
    ensures forall y :: y in s ==> cmp(x, y) <= 0
  {
    forall y | y in s ensures cmp(x, y) <= 0 {
      var j :| 0 <= j < |s| && s[j] == y;
      if j > 0 {
        assert cmp(s[0], s[j]) <= 0;
      }
    }
  }

  /** Inserting into a sorted list keeps it sorted. */
  lemma {:induction false} InsertSorted<T(!new)>(cmp: (T, T) -> int, x: T, s: seq<T>)
    requires TotalPreorder(cmp)
    requires Sorted(cmp, s)
    ensures Sorted(cmp, Insert(cmp, x, s))
  {
    if |s| > 0 {
      var h, t := s[0], s[1..];
      if cmp(x, h) < 0 {
        HeadFirst(cmp, x, s);
        SortedCons(cmp, x, s);
      } else {
        var r := Insert(cmp, x, t);
        SortedTail(cmp, s);
        InsertSorted(cmp, x, t);
        HeadFirst(cmp, h, s);
        assert cmp(h, x) <= 0;
        InsertPermutes(cmp, x, t);
        forall y | y in r ensures cmp(h, y) <= 0 {
          assert y in multiset(r);
          assert y in s || y == x;
        }
        SortedCons(cmp, h, r);
      }
    }
  }

  /** The insertion sort yields a sorted list. */
  lemma {:induction false} SortBySorted<T(!new)>(cmp: (T, T) -> int, xs: seq<T>)
    requires TotalPreorder(cmp)
    ensures Sorted(cmp, SortBy(cmp, xs))
  {
    if |xs| > 0 {
      SortBySorted(cmp, xs[..|xs| - 1]);
      InsertSorted(cmp, xs[|xs| - 1], SortBy(cmp, xs[..|xs| - 1]));
    }
  }

  // ---------------------------------------------------------------------------
  // Stability.

  /** The elements of `s` that tie with `a`, in order. */
  function Ties<T>(cmp: (T, T) -> int, a: T, s: seq<T>): seq<T> {
    if |s| == 0 then [] else (if cmp(s[0], a) == 0 then [s[0]] else []) + Ties(cmp, a, s[1..])
  }

  lemma TiesCons<T>(cmp: (T, T) -> int, a: T, e: T, t: seq<T>)
    ensures Ties(cmp, a, [e] + t) == Ties(cmp, a, [e]) + Ties(cmp, a, t)
  {
    assert ([e] + t)[1..] == t;
    assert [e][1..] == [];
  }

  lemma {:induction false} TiesAppend<T>(cmp: (T, T) -> int, a: T, s: seq<T>, t: seq<T>)
    ensures Ties(cmp, a, s + t) == Ties(cmp, a, s) + Ties(cmp, a, t)
  {
    if |s| > 0 {
      assert s == [s[0]] + s[1..];
      assert s + t == [s[0]] + (s[1..] + t);
      TiesCons(cmp, a, s[0], s[1..] + t);
      TiesAppend(cmp, a, s[1..], t);
      TiesCons(cmp, a, s[0], s[1..]);
    } else {
      assert s + t == t;
    }
  }

  /** No element of `s` ties with `a` when all of them compare strictly
      after an element `x` tied with `a`. */
  lemma {:induction false} NoTies<T(!new)>(cmp: (T, T) -> int, a: T, x: T, s: seq<T>)
    requires TotalPreorder(cmp)
    requires cmp(x, a) == 0
    requires forall i :: 0 <= i < |s| ==> cmp(x, s[i]) < 0
    ensures Ties(cmp, a, s) == []
  {
    if |s| > 0 {
      NotTiedAfter(cmp, a, x, s[0]);
      NoTies(cmp, a, x, s[1..]);
    }
  }

  /** Inserting ahead of the whole list. */
  lemma InsertTiesAhead<T(!new)>(cmp: (T, T) -> int, a: T, x: T, s: seq<T>)
    requires TotalPreorder(cmp)
    requires |s| > 0 && Sorted(cmp, s) && cmp(x, s[0]) < 0
    ensures Ties(cmp, a, [x] + s) == Ties(cmp, a, s) + Ties(cmp, a, [x])
  {
    TiesCons(cmp, a, x, s);
    if cmp(x, a) == 0 {
      forall i | 0 <= i < |s| ensures cmp(x, s[i]) < 0 {
        if i > 0 {
          StrictChain(cmp, x, s[0], s[i]);
        }
      }
      NoTies(cmp, a, x, s);
    } else {
      assert Ties(cmp, a, [x]) == [];
    }
  }

  /** Inserting behind the head of the list. */
  lemma InsertTiesBehind<T>(cmp: (T, T) -> int, a: T, x: T, h: T, t: seq<T>)
    requires !(cmp(x, h) < 0)
    requires Ties(cmp, a, Insert(cmp, x, t)) == Ties(cmp, a, t) + Ties(cmp, a, [x])
    ensures Ties(cmp, a, Insert(cmp, x, [h] + t)) == Ties(cmp, a, [h] + t) + Ties(cmp, a, [x])
  {
    var s := [h] + t;
    assert s[0] == h && s[1..] == t;
    assert Insert(cmp, x, s) == [h] + Insert(cmp, x, t);
    TiesCons(cmp, a, h, Insert(cmp, x, t));
    TiesCons(cmp, a, h, t);
  }

  /** After `x`'s insertion the elements tied with `a` are those already
      there, followed by `x` itself when `x` ties with `a`. */
  lemma {:induction false} InsertTies<T(!new)>(cmp: (T, T) -> int, a: T, x: T, s: seq<T>)
    requires TotalPreorder(cmp)
    requires Sorted(cmp, s)
    ensures Ties(cmp, a, Insert(cmp, x, s)) == Ties(cmp, a, s) + Ties(cmp, a, [x])
  {
    if |s| == 0 {
      assert Ties(cmp, a, []) == [];
    } else if cmp(x, s[0]) < 0 {
      InsertTiesAhead(cmp, a, x, s);
    } else {
      SortedTail(cmp, s);
      InsertTies(cmp, a, x, s[1..]);
      InsertTiesBehind(cmp, a, x, s[0], s[1..]);
      HeadTail(s);
    }
  }

  /** The sort is stable: the elements tying with any given one keep their
      input order. */
  lemma {:induction false} SortByStable<T(!new)>(cmp: (T, T) -> int, a: T, xs: seq<T>)
    requires TotalPreorder(cmp)
    ensures Ties(cmp, a, SortBy(cmp, xs)) == Ties(cmp, a, xs)
  {
    if |xs| > 0 {
      var init, last := xs[..|xs| - 1], xs[|xs| - 1];
      SortByStable(cmp, a, init);
      SortBySorted(cmp, init);
      InsertTies(cmp, a, last, SortBy(cmp, init));
      InitLast(xs);
      TiesAppend(cmp, a, init, [last]);
    }
  }

  // ---------------------------------------------------------------------------
  // The list view.

  /** `sorter` as the function value handed to `sort`. */
  function SorterOf(keys: seq<Key>): (Applicant, Applicant) -> int {
    (x: Applicant, y: Applicant) => Compare(keys, x, y)
  }

  /** `filter` as the function value handed to `filter`. */
  function FilterOf(s: Searcher): Applicant -> bool {
    (x: Applicant) => Keep(s, x)
  }

  /** The searcher's comparator is consistent. */
  lemma SorterConsistent(keys: seq<Key>)
    ensures TotalPreorder(SorterOf(keys))
  {
    var cmp := SorterOf(keys);
    forall x, y ensures cmp(x, y) == -cmp(y, x) {
      SorterIsTotalPreorder(keys, x, y, y);
    }
    forall x, y, z | cmp(x, y) <= 0 && cmp(y, z) <= 0 ensures cmp(x, z) <= 0 {
      SorterIsTotalPreorder(keys, x, y, z);
    }
  }

  /** `(data || []).filter(filter).sort(sorter)`; `data` is `None` while it
      is `undefined` or `null`. */
  function ListView(data: Option<seq<Applicant>>, s: Searcher): seq<Applicant> {
    SortBy(SorterOf(s.keys), Filter(FilterOf(s), data.GetOr([])))
  }

  /** The list view holds exactly the kept records, each as often as in the
      data; no record is listed after one the comparator puts behind it; and
      records the comparator ties keep their order in the data. */
  lemma ListViewMeaning(data: Option<seq<Applicant>>, s: Searcher, x: Applicant, a: Applicant)
    ensures multiset(ListView(data, s))[x] == if Keep(s, x) then multiset(data.GetOr([]))[x] else 0
    ensures forall i, j :: 0 <= i < j < |ListView(data, s)| ==> Compare(s.keys, ListView(data, s)[i], ListView(data, s)[j]) <= 0
    ensures Ties(SorterOf(s.keys), a, ListView(data, s)) == Ties(SorterOf(s.keys), a, Filter(FilterOf(s), data.GetOr([])))
  {
    var cmp := SorterOf(s.keys);
    var xs := Filter(FilterOf(s), data.GetOr([]));
    FilterCount(FilterOf(s), data.GetOr([]), x);
    SortByPermutes(cmp, xs);
    SorterConsistent(s.keys);
    SortBySorted(cmp, xs);
    SortByStable(cmp, a, xs);
  }

  /** A searcher without filters lists every record of the data. */
  lemma ListViewNoFilters(data: Option<seq<Applicant>>, s: Searcher)
    requires s.filters == []
    ensures multiset(ListView(data, s)) == multiset(data.GetOr([]))
  {
    FilterAll(FilterOf(s), data.GetOr([]));
    SortByPermutes(SorterOf(s.keys), data.GetOr([]));
  }

  /** Without data the view is empty. */
  lemma ListViewNoData(s: Searcher)
    ensures ListView(None, s) == []
  {
  }
}
