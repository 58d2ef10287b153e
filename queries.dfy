/** What a search query means: the properties `useSearcher` promises of the
    searcher a query yields, stated over the matches the scanner reads. */
module Queries {
  import opened Wrappers
  import opened JsText
  import opened Scanner
  import opened Applicants
  import opened Searcher
  import opened Ranking

  // ---------------------------------------------------------------------------
  // Collecting matches.

  lemma ThenAssociative(a: Effect, b: Effect, c: Effect)
    ensures Then(Then(a, b), c) == Then(a, Then(b, c))
  {
  }

  /** Matches after the first `n` do not change what those `n` collect. */
  lemma {:induction false} CollectPrefix(a: seq<Match>, b: seq<Match>, n: nat)
    requires n <= |a|
    ensures CollectUpTo(a + b, n) == CollectUpTo(a, n)
  {
    if n > 0 {
      CollectPrefix(a, b, n - 1);
      assert (a + b)[n - 1] == a[n - 1];
    }
  }

  lemma {:induction false} CollectAppendUpTo(a: seq<Match>, b: seq<Match>, k: nat)
    requires k <= |b|
    ensures CollectUpTo(a + b, |a| + k) == Then(Collect(a), CollectUpTo(b, k))
  {
    if k == 0 {
      CollectPrefix(a, b, |a|);
      var e := Collect(a);
      assert Then(e, Nothing) == e by {
        assert e.filters + [] == e.filters;
        assert e.keys + [] == e.keys;
        assert e.words + [] == e.words;
        assert e.warnings + [] == e.warnings;
      }
    } else {
      CollectAppendUpTo(a, b, k - 1);
      assert (a + b)[|a| + k - 1] == b[k - 1];
      ThenAssociative(Collect(a), CollectUpTo(b, k - 1), Interpret(b[k - 1]));
    }
  }

  /** Processing two runs of matches one after the other. */
  lemma CollectAppend(a: seq<Match>, b: seq<Match>)
    ensures Collect(a + b) == Then(Collect(a), Collect(b))
  {
    CollectAppendUpTo(a, b, |b|);
  }

  /** Processing a single match. */
  lemma CollectOne(t: Match)
    ensures Collect([t]) == Interpret(t)
  {
    var e := Interpret(t);
    assert CollectUpTo([t], 0) == Nothing;
    assert [t][0] == t;
    assert Then(Nothing, e) == e by {
      assert [] + e.filters == e.filters;
      assert [] + e.keys == e.keys;
      assert [] + e.words == e.words;
      assert [] + e.warnings == e.warnings;
    }
  }

  /** Processing the first match, then the rest. */
  lemma CollectCons(ts: seq<Match>)
    requires |ts| > 0
    ensures Collect(ts) == Then(Interpret(ts[0]), Collect(ts[1..]))
  {
    assert ts == [ts[0]] + ts[1..];
    CollectAppend([ts[0]], ts[1..]);
    CollectOne(ts[0]);
  }

  // ---------------------------------------------------------------------------
  // Throwing.

  /** A query yields a searcher exactly when every `-sort:` value in it is
      readable, and then the searcher and warnings of all its matches. */
  lemma CompileBuilt(query: string)
    ensures Compile(query).Built? <==> forall i :: 0 <= i < |Scan(query)| ==> SortValueReadable(Scan(query)[i])
    ensures Compile(query).Built? ==>
      Compile(query) == Built(Finish(Collect(Scan(query))), Collect(Scan(query)).warnings)
  {
  }

  /** A query written out from well-formed matches yields a searcher exactly
      when every `-sort:` value among them is readable, and then the
      searcher and warnings of exactly those matches. */
  lemma CompileRendered(ms: seq<Match>)
    requires forall i :: 0 <= i < |ms| ==> WellFormed(ms[i])
    ensures Compile(Render(ms)).Built? <==> forall i :: 0 <= i < |ms| ==> SortValueReadable(ms[i])
    ensures (forall i :: 0 <= i < |ms| ==> SortValueReadable(ms[i])) ==>
      Compile(Render(ms)) == Built(Finish(Collect(ms)), Collect(ms).warnings)
  {
    ScanRender(ms);
    CompileBuilt(Render(ms));
  }

  /** A query that throws shows the warnings of the matches before the
      first unreadable `-sort:` value, and none after it. */
  lemma CompileThrew(a: seq<Match>, t: Match, b: seq<Match>, query: string)
    requires Scan(query) == a + [t] + b
    requires forall i :: 0 <= i < |a| ==> SortValueReadable(a[i])
    requires !SortValueReadable(t)
    ensures Compile(query) == Threw(Collect(a).warnings)
  {
    var rest := [t] + b;
    var ts := a + rest;
    assert Scan(query) == ts;
    forall i | 0 <= i < |a| ensures SortValueReadable(ts[i]) {
      assert ts[i] == a[i];
    }
    assert ts[|a|] == t;
    FirstUnreadable(ts, |a|);
    CollectPrefix(a, rest, |a|);
  }

  /** A query of one match throws, showing nothing, exactly when that match
      cannot be read. */
  lemma CompileSingle(query: string, t: Match)
    requires Scan(query) == [t]
    ensures Compile(query) ==
      if SortValueReadable(t) then Built(Finish(Interpret(t)), Interpret(t).warnings) else Threw([])
  {
    CollectOne(t);
    if SortValueReadable(t) {
      assert [t][1..] == [];
    } else {
      FirstUnreadable([t], 0);
    }
  }

  // ---------------------------------------------------------------------------
  // Bare words.

  /** The texts of the bare words among the matches, in order. */
  function WordsOf(ts: seq<Match>): seq<string> {
    if |ts| == 0 then []
    else (if ts[0].Word? then [ts[0].text] else []) + WordsOf(ts[1..])
  }

  /** `words` holds exactly the bare words, in the order they appear,
      however they interleave with directives. */
  lemma {:induction false} CollectWords(ts: seq<Match>)
    ensures Collect(ts).words == WordsOf(ts)
    decreases |ts|
  {
    if |ts| == 0 {
    } else {
      CollectCons(ts);
      CollectWords(ts[1..]);
    }
  }

  /** Reading a query written out from well-formed matches: the words are its
      bare words in order, and a non-empty phrase (those words joined by single
      spaces) becomes the last filter and the first key. */
  lemma RenderedWords(ts: seq<Match>)
    requires forall i :: 0 <= i < |ts| ==> WellFormed(ts[i])
    ensures Collect(Scan(Render(ts))).words == WordsOf(ts)
    ensures WordsOf(ts) != [] && Compile(Render(ts)).Built? ==>
      var s := Compile(Render(ts)).searcher;
      var phrase := Join(WordsOf(ts), " ");
      |s.filters| > 0 && s.filters[|s.filters| - 1] == MatchesPhrase(phrase)
        && |s.keys| > 0 && s.keys[0] == MatchIndexKey(phrase)
  {
    ScanRender(ts);
    CollectWords(ts);
  }

  /** The directive alternative needs a lower-case key at the start of a
      token: `-Rating:3` and `foo-rating:3` are words of the phrase. */
  lemma NotDirectivesArePhrase()
    ensures Compile("-Rating:3") == Built(Searcher([MatchesPhrase("-Rating:3")], [MatchIndexKey("-Rating:3")] + DefaultKeys), [])
    ensures Compile("foo-rating:3") == Built(Searcher([MatchesPhrase("foo-rating:3")], [MatchIndexKey("foo-rating:3")] + DefaultKeys), [])
  {
    UpperCaseKeyIsWord();
    CompileSingle("-Rating:3", Word("-Rating:3"));
    EmbeddedKeyIsWord();
    CompileSingle("foo-rating:3", Word("foo-rating:3"));
  }

  // ---------------------------------------------------------------------------
  // The filter.

  /** The score a `-rating:` match asks for, when its value reads as an
      integer. */
  function RatingDemand(t: Match): Option<int> {
    if t.Directive? && Lower(t.key) == "rating" then ParseInt(JsString(ValueOf(t.value))) else None
  }

  /** The filter one match pushes. */
  lemma InterpretFilters(t: Match)
    ensures Interpret(t).filters == if RatingDemand(t).Some? then [HasRating(RatingDemand(t).value)] else []
  {
  }

  /** For every `-rating:` value among the first `n` matches that reads as
      an integer, the record has a rating with that overall score. */
  predicate DemandsMet(ts: seq<Match>, n: nat, x: Applicant)
    requires n <= |ts|
  {
    forall i :: 0 <= i < n && RatingDemand(ts[i]).Some? ==> HasOverall(x, RatingDemand(ts[i]).value)
  }

  /** The filters collected from the first `n` matches hold of a record
      exactly when its ratings meet every integer `-rating:` value among
      them. */
  lemma {:induction false} CollectFiltersHold(ts: seq<Match>, n: nat, x: Applicant)
    requires n <= |ts|
    ensures AllHold(CollectUpTo(ts, n).filters, x) <==> DemandsMet(ts, n, x)
  {
    AllHoldAppend([], [], x);
    if n > 0 {
      var last := ts[n - 1];
      var before := CollectUpTo(ts, n - 1).filters;
      var mine := Interpret(last).filters;
      var met := RatingDemand(last).Some? ==> HasOverall(x, RatingDemand(last).value);
      calc <==> {
        AllHold(CollectUpTo(ts, n).filters, x);
        { assert CollectUpTo(ts, n).filters == before + mine; }
        AllHold(before + mine, x);
        { AllHoldAppend(before, mine, x); }
        AllHold(before, x) && AllHold(mine, x);
        { CollectFiltersHold(ts, n - 1, x); MatchFiltersHold(last, x); }
        DemandsMet(ts, n - 1, x) && met;
        { DemandsMetStep(ts, n, x); }
        DemandsMet(ts, n, x);
      }
    }
  }

  /** The filter one match pushes holds exactly when the record meets its
      integer `-rating:` value, if any. */
  lemma MatchFiltersHold(t: Match, x: Applicant)
    ensures AllHold(Interpret(t).filters, x) <==> (RatingDemand(t).Some? ==> HasOverall(x, RatingDemand(t).value))
  {
    AllHoldAppend([], [], x);
    InterpretFilters(t);
    if RatingDemand(t).Some? {
      AllHoldOne(HasRating(RatingDemand(t).value), x);
    }
  }

  lemma DemandsMetStep(ts: seq<Match>, n: nat, x: Applicant)
    requires 0 < n <= |ts|
    ensures DemandsMet(ts, n, x) <==>
      DemandsMet(ts, n - 1, x) && (RatingDemand(ts[n - 1]).Some? ==> HasOverall(x, RatingDemand(ts[n - 1]).value))
  {
  }

  /** The filters the code after the loop leaves: the phrase filter comes
      last. */
  lemma FinishFilters(e: Effect)
    ensures Finish(e).filters == if e.words == [] then e.filters else e.filters + [MatchesPhrase(Join(e.words, " "))]
  {
  }

  /** `filter(x)`: when the query yields a searcher, a record is kept exactly
      when its ratings meet every integer `-rating:` value and, when the query
      has bare words, one of its searched fields holds the phrase. */
  lemma KeepMeaning(query: string, x: Applicant)
    ensures var words := Collect(Scan(query)).words;
      Compile(query).Built? ==> (Keep(Compile(query).searcher, x) <==>
        DemandsMet(Scan(query), |Scan(query)|, x) && (words != [] ==> MatchIndex(x, Join(words, " ")) != FieldCount))
  {
    var ts := Scan(query);
    var e := Collect(ts);
    CompileBuilt(query);
    CollectFiltersHold(ts, |ts|, x);
    FinishFilters(e);
    if e.words != [] {
      var phrase := Join(e.words, " ");
      AllHoldAppend(e.filters, [MatchesPhrase(phrase)], x);
      AllHoldOne(MatchesPhrase(phrase), x);
    }
  }

  /** With no `-rating:` value that reads as an integer and no bare word,
      every record is kept. */
  lemma NoFiltersKeepsAll(query: string, x: Applicant)
    requires forall i :: 0 <= i < |Scan(query)| ==> RatingDemand(Scan(query)[i]).None?
    requires WordsOf(Scan(query)) == []
    ensures Compile(query).Built? ==> Keep(Compile(query).searcher, x)
  {
    KeepMeaning(query, x);
    CollectWords(Scan(query));
  }

  // ---------------------------------------------------------------------------
  // The keys.

  /** The match is a `-sort:` whose name selects a sort-key helper. */
  predicate InstallsKey(t: Match) {
    && t.Directive? && Lower(t.key) == "sort"
    && var split := SplitSortValue(JsString(ValueOf(t.value)));
       split.Some? && FieldOf(split.value.0).Some?
  }

  lemma InterpretKeys(t: Match)
    ensures |Interpret(t).keys| <= 1
    ensures Interpret(t).keys != [] <==> InstallsKey(t)
  {
  }

  /** No sort key is collected from the first `n` matches exactly when none
      of them installs one. */
  lemma {:induction false} CollectKeysEmpty(ts: seq<Match>, n: nat)
    requires n <= |ts|
    ensures CollectUpTo(ts, n).keys == [] <==> forall i :: 0 <= i < n ==> !InstallsKey(ts[i])
  {
    if n > 0 {
      CollectKeysEmpty(ts, n - 1);
      InterpretKeys(ts[n - 1]);
    }
  }

  /** The keys after the phrase key, if any. */
  function SortAndDefaultKeys(query: string): seq<Key>
    requires Compile(query).Built?
  {
    var s := Compile(query).searcher;
    if Collect(Scan(query)).words == [] || |s.keys| == 0 then s.keys else s.keys[1..]
  }

  /** In a query that yields a searcher, the default keys
      `[stageSortKey, dateSortKey]` are installed exactly when no `-sort:`
      match installed a key; otherwise the installed keys are used, none of
      them a phrase key. */
  lemma DefaultKeysIff(query: string)
    ensures var ts := Scan(query);
      Compile(query).Built? ==> ((forall i :: 0 <= i < |ts| ==> !InstallsKey(ts[i])) <==> Collect(ts).keys == [])
    ensures var ts := Scan(query);
      Compile(query).Built? && (forall i :: 0 <= i < |ts| ==> !InstallsKey(ts[i])) ==> SortAndDefaultKeys(query) == DefaultKeys
    ensures var ts := Scan(query);
      Compile(query).Built? && (exists i :: 0 <= i < |ts| && InstallsKey(ts[i])) ==>
        SortAndDefaultKeys(query) == Collect(ts).keys && |Collect(ts).keys| > 0
  {
    CollectKeysEmpty(Scan(query), |Scan(query)|);
  }

  // ---------------------------------------------------------------------------
  // Matches that change nothing but the warnings.

  /** A directive whose lower-cased key is neither `rating` nor `sort`. */
  predicate UnknownDirective(t: Match) {
    t.Directive? && Lower(t.key) != "rating" && Lower(t.key) != "sort"
  }

  /** A `-sort:` whose name selects no sort-key helper. */
  predicate UnknownSortName(t: Match) {
    && t.Directive? && Lower(t.key) == "sort"
    && var split := SplitSortValue(JsString(ValueOf(t.value)));
       split.Some? && FieldOf(split.value.0).None?
  }

  /** A `-rating:` whose value does not read as an integer. */
  predicate NonIntegerRating(t: Match) {
    t.Directive? && Lower(t.key) == "rating" && ParseInt(JsString(ValueOf(t.value))).None?
  }

  /** Each of these only warns: an unknown directive and a non-integer rating
      once, an unknown sort name once or (with an unknown method too) twice. */
  lemma InertWarnings(t: Match)
    requires UnknownDirective(t) || UnknownSortName(t) || NonIntegerRating(t)
    ensures Interpret(t).filters == [] && Interpret(t).keys == [] && Interpret(t).words == []
    ensures UnknownDirective(t) ==> Interpret(t).warnings == [UnknownFilter(t.key)]
    ensures NonIntegerRating(t) ==> Interpret(t).warnings == [ExpectingInteger(JsString(ValueOf(t.value)))]
    ensures UnknownSortName(t) ==>
      1 <= |Interpret(t).warnings| <= 2 && Interpret(t).warnings[|Interpret(t).warnings| - 1] == UnknownSortMethod(SplitSortValue(JsString(ValueOf(t.value))).value.0)
  {
  }

  /** The searcher depends on the filters, keys and words only. */
  lemma FinishIgnoresWarnings(e: Effect, f: Effect)
    requires e.filters == f.filters && e.keys == f.keys && e.words == f.words
    ensures Finish(e) == Finish(f)
  {
  }

  /** An unknown directive, an unknown sort name or a non-integer rating
      leaves the searcher as if the match were not there; only its warnings
      are added, in place. */
  lemma InertMatch(a: seq<Match>, t: Match, b: seq<Match>)
    requires UnknownDirective(t) || UnknownSortName(t) || NonIntegerRating(t)
    ensures Finish(Collect(a + [t] + b)) == Finish(Collect(a + b))
    ensures Collect(a + [t] + b).warnings == Collect(a).warnings + Interpret(t).warnings + Collect(b).warnings
  {
    InertWarnings(t);
    CollectAppend(a + [t], b);
    CollectAppend(a, [t]);
    CollectOne(t);
    CollectAppend(a, b);
    var e, f := Collect(a + [t] + b), Collect(a + b);
    assert e.filters == Collect(a).filters + [] + Collect(b).filters;
    assert e.keys == Collect(a).keys + [] + Collect(b).keys;
    assert e.words == Collect(a).words + [] + Collect(b).words;
    FinishIgnoresWarnings(e, f);
  }

  /** The same for queries: writing such a match among well-formed ones
      neither makes the query throw nor stops it throwing, and yields the
      searcher the query without it yields. */
  lemma InertInQuery(a: seq<Match>, t: Match, b: seq<Match>)
    requires UnknownDirective(t) || UnknownSortName(t) || NonIntegerRating(t)
    requires forall i :: 0 <= i < |a + [t] + b| ==> WellFormed((a + [t] + b)[i])
    ensures Compile(Render(a + [t] + b)).Built? <==> Compile(Render(a + b)).Built?
    ensures Compile(Render(a + [t] + b)).Built? ==>
      Compile(Render(a + [t] + b)).searcher == Compile(Render(a + b)).searcher
  {
    var ts := a + [t] + b;
    forall i | 0 <= i < |a + b| ensures WellFormed((a + b)[i]) {
      if i < |a| {
        assert (a + b)[i] == ts[i];
      } else {
        assert (a + b)[i] == ts[i + 1];
      }
    }
    ScanRender(ts);
    ScanRender(a + b);
    InertMatch(a, t, b);
    InertReadable(a, t, b);
    CompileBuilt(Render(ts));
    CompileBuilt(Render(a + b));
  }

  /** Such a match is readable, so it changes nothing about throwing. */
  lemma InertReadable(a: seq<Match>, t: Match, b: seq<Match>)
    requires UnknownDirective(t) || UnknownSortName(t) || NonIntegerRating(t)
    ensures (forall i :: 0 <= i < |a + [t] + b| ==> SortValueReadable((a + [t] + b)[i])) <==>
      (forall i :: 0 <= i < |a + b| ==> SortValueReadable((a + b)[i]))
  {
    var ts := a + [t] + b;
    assert SortValueReadable(t);
    assert forall i :: 0 <= i < |a| ==> ts[i] == a[i] && (a + b)[i] == a[i];
    assert forall i :: |a| <= i < |a + b| ==> ts[i + 1] == b[i - |a|] && (a + b)[i] == b[i - |a|];
    if forall i :: 0 <= i < |a + b| ==> SortValueReadable((a + b)[i]) {
      forall i | 0 <= i < |ts| ensures SortValueReadable(ts[i]) {
        if i < |a| {
        } else if i > |a| {
          assert ts[i] == (a + b)[i - 1];
        }
      }
    }
  }

  // ---------------------------------------------------------------------------
  // Reading `-sort:` values.

  /** The name is the text before the first `.`, the method everything after
      it. */
  lemma SortValueParts(name: string, sortKeyMethod: string)
    requires '.' !in name && !HasLineTerminator(name + "." + sortKeyMethod)
    ensures SplitSortValue(name + "." + sortKeyMethod) == Some((name, Some(sortKeyMethod)))
    ensures SplitSortValue(name) == Some((name, None))
  {
    var v := name + "." + sortKeyMethod;
    assert v[|name|] == '.';
    assert forall j :: 0 <= j < |name| ==> v[j] == name[j];
    assert !HasLineTerminator(name) by {
      forall j | 0 <= j < |name| ensures !IsLineTerminator(name[j]) {
        assert v[j] == name[j];
      }
    }
    assert v[..|name|] == name;
    assert v[|name| + 1..] == sortKeyMethod;
  }

  /** Method names are read case-insensitively: the alias words choose a
      direction, anything else warns and sorts ascending. */
  lemma DirectionAliases()
    ensures Direction(None) == (true, [])
    ensures Direction(Some("ASC")) == (true, []) && Direction(Some("Ascend")) == (true, [])
    ensures Direction(Some("Ascending")) == (true, [])
    ensures Direction(Some("des")) == (false, []) && Direction(Some("DESC")) == (false, [])
    ensures Direction(Some("Descend")) == (false, []) && Direction(Some("descending")) == (false, [])
    ensures Direction(Some("asc")) == (true, []) && Direction(Some("desc")) == (false, [])
    ensures Direction(Some("up")) == (true, [UnknownSortKeyMethod("up")])
  {
    assert Lower("asc") == "asc";
    assert Lower("desc") == "desc";
    assert Lower("ASC") == "asc";
    assert Lower("Ascend") == "ascend";
    assert Lower("Ascending") == "ascending";
    assert Lower("des") == "des";
    assert Lower("DESC") == "desc";
    assert Lower("Descend") == "descend";
    assert Lower("descending") == "descending";
    assert Lower("up") == "up";
  }

  /** A query holding one well-formed match: it throws, showing nothing,
      exactly when the match is a `-sort:` the split cannot read. */
  lemma CompileOne(t: Match)
    requires WellFormed(t)
    ensures Scan(RenderToken(t)) == [t]
    ensures Compile(RenderToken(t)) ==
      if SortValueReadable(t) then Built(Finish(Interpret(t)), Interpret(t).warnings) else Threw([])
  {
    assert Render([t]) == RenderToken(t);
    ScanRender([t]);
    CompileSingle(RenderToken(t), t);
  }

  /** A query holding one directive with an unquoted visible value. */
  lemma DirectiveQuery(k: string, v: string)
    requires |k| > 0 && AllLower(k) && Visible(v) && (v == [] || v[0] != '"')
    ensures Compile("-" + k + ":" + v) == Built(Finish(DirectiveEffect(k, k, Unquoted(v))), DirectiveEffect(k, k, Unquoted(v)).warnings)
  {
    VisibleNoSpace(v);
    VisibleNoLineTerminator(v);
    CompileOne(Directive(k, Unquoted(v)));
    LowerOfLower(k);
  }

  /** Where a `-sort:` value written as `name.method` splits. */
  lemma SortValueShape(name: string, sortKeyMethod: string)
    requires '.' !in name && Visible(name) && Visible(sortKeyMethod) && (name == [] || name[0] != '"')
    ensures var v := name + "." + sortKeyMethod;
      Visible(v) && v[0] != '"' && SplitSortValue(v) == Some((name, Some(sortKeyMethod)))
  {
    var v := name + "." + sortKeyMethod;
    VisibleAppend(name, ".");
    VisibleAppend(name + ".", sortKeyMethod);
    assert v[0] != '"' by {
      if name == [] {
        assert v[0] == '.';
      } else {
        assert v[0] == name[0];
      }
    }
    VisibleNoLineTerminator(v);
    SortValueParts(name, sortKeyMethod);
  }

  lemma SortSpelled(v: string)
    ensures "-" + "sort" + ":" + v == "-sort:" + v
  {
  }

  /** `-sort:name.method` for a name without `.`: the name selects the helper
      and the method the direction. */
  lemma SortQuery(name: string, sortKeyMethod: string)
    requires '.' !in name && Visible(name) && Visible(sortKeyMethod) && (name == [] || name[0] != '"')
    ensures var (asc, warned) := Direction(Some(sortKeyMethod));
      Compile("-sort:" + (name + "." + sortKeyMethod)) ==
        match FieldOf(name)
        case Some(f) => Built(Searcher([], [FieldKey(f, asc)]), warned)
        case None => Built(Searcher([], DefaultKeys), warned + [UnknownSortMethod(name)])
  {
    var v := name + "." + sortKeyMethod;
    SortValueShape(name, sortKeyMethod);
    DirectiveQuery("sort", v);
    SortSpelled(v);
  }

  lemma SortRatingDescendingSpelled()
    ensures "-sort:" + ("rating" + "." + "desc") == "-sort:rating.desc"
  {
  }

  /** Sort names are matched exactly. */
  lemma FieldNames()
    ensures FieldOf("date") == Some(ByDate) && FieldOf("rating") == Some(ByRating)
    ensures FieldOf("stage") == Some(ByStage) && FieldOf("Date") == None
  {
  }

  /** `-sort:rating.desc` sorts by the rating key, descending. */
  lemma SortRatingDescending()
    ensures Compile("-sort:rating.desc") == Built(Searcher([], [FieldKey(ByRating, false)]), [])
  {
    SortQuery("rating", "desc");
    SortRatingDescendingSpelled();
    DirectionAliases();
    FieldNames();
  }

  /** A name that selects no helper, with a known method, only warns. */
  lemma SortUnknownName(name: string, sortKeyMethod: string)
    requires '.' !in name && Visible(name) && Visible(sortKeyMethod) && (name == [] || name[0] != '"')
    requires FieldOf(name).None? && Direction(Some(sortKeyMethod)).1 == []
    ensures Compile("-sort:" + (name + "." + sortKeyMethod)) == Built(Searcher([], DefaultKeys), [UnknownSortMethod(name)])
  {
    SortQuery(name, sortKeyMethod);
    assert [] + [UnknownSortMethod(name)] == [UnknownSortMethod(name)];
  }

  lemma SortDateAscendingSpelled()
    ensures "-sort:" + ("Date" + "." + "asc") == "-sort:Date.asc"
  {
  }

  /** `-sort:Date.asc` names no helper (names are case-sensitive): it warns
      and the default keys apply. */
  lemma SortNameCaseSensitive()
    ensures Compile("-sort:Date.asc") == Built(Searcher([], DefaultKeys), [UnknownSortMethod("Date")])
  {
    DirectionAliases();
    FieldNames();
    SortUnknownName("Date", "asc");
    SortDateAscendingSpelled();
  }

  // ---------------------------------------------------------------------------
  // The phrase key.

  /** With bare words, the first key is the phrase's match index, ahead of
      every sort or default key. */
  lemma PhraseKeyFirst(query: string)
    requires Collect(Scan(query)).words != []
    ensures Compile(query).Built? ==>
      Compile(query).searcher.keys[0] == MatchIndexKey(Join(Collect(Scan(query)).words, " "))
    ensures Compile(query).Built? ==> |Compile(query).searcher.keys| >= 2
  {
  }

  /** A record holding the phrase in its name sorts before one holding it
      only in its email text. */
  lemma NameBeforeEmailText(query: string, x: Applicant, y: Applicant)
    requires Collect(Scan(query)).words != []
    requires FieldMatches(x, 0, Join(Collect(Scan(query)).words, " "))
    requires MatchIndex(y, Join(Collect(Scan(query)).words, " ")) == 3
    ensures Compile(query).Built? ==> Compare(Compile(query).searcher.keys, x, y) == -1
  {
    if Compile(query).Built? {
      var keys := Compile(query).searcher.keys;
      assert Rank(keys[0], x) == Real(0.0);
      FirstDifferenceDecides(keys, x, y, 0);
    }
  }

  // ---------------------------------------------------------------------------
  // Ratings.

  lemma RatingSpelled(v: string)
    ensures "-" + "rating" + ":" + v == "-rating:" + v
  {
  }

  /** `-rating:n` for an integer `n` adds the one filter `HasRating(n)`. */
  lemma RatingOfInteger(n: int)
    ensures Compile("-rating:" + IntToString(n)) == Built(Searcher([HasRating(n)], DefaultKeys), [])
  {
    var v := IntToString(n);
    IntToStringShape(n);
    DirectiveQuery("rating", v);
    RatingSpelled(v);
    ParseIntOfIntToString(n, "");
  }

  /** ... which keeps exactly the records with a rating whose overall score
      is `n`. */
  lemma RatingOfIntegerKeeps(n: int, x: Applicant)
    ensures Compile("-rating:" + IntToString(n)).Built?
    ensures Keep(Compile("-rating:" + IntToString(n)).searcher, x) <==> HasOverall(x, n)
  {
    RatingOfInteger(n);
    AllHoldOne(HasRating(n), x);
  }

  /** The spelling of an integer is visible text not opening with a quote. */
  lemma IntToStringShape(n: int)
    ensures |IntToString(n)| > 0 && IntToString(n)[0] != '"'
    ensures Visible(IntToString(n))
  {
    var d := NatToString(if n < 0 then -n else n);
    assert forall i :: 0 <= i < |d| ==> IsDigit(d[i]);
    if n < 0 {
      assert forall i :: 1 <= i < |IntToString(n)| ==> IntToString(n)[i] == d[i - 1];
    }
  }

  lemma RatingGoodSpelled()
    ensures "-" + "rating" + ":" + "good" == "-rating:good"
  {
  }

  /** `-rating:good` adds no filter and one warning. */
  lemma RatingNotInteger()
    ensures Compile("-rating:good") == Built(Searcher([], DefaultKeys), [ExpectingInteger("good")])
  {
    DirectiveQuery("rating", "good");
    RatingGoodSpelled();
    ParseIntNoDigit("good");
  }

  // ---------------------------------------------------------------------------
  // Line terminators in `-sort:` values.

  lemma QuotedSortSpelled(v: string)
    ensures RenderToken(Directive("sort", Quoted(v))) == "-sort:\"" + v + "\""
  {
  }

  /** A quoted `-sort:` value may hold a line terminator (the quoted
      alternative reads any text without `"`), and then the query throws
      before showing anything. */
  lemma SortLineTerminatorThrows(v: string)
    requires '"' !in v && HasLineTerminator(v)
    ensures Compile("-sort:\"" + v + "\"") == Threw([])
  {
    var t := Directive("sort", Quoted(v));
    LowerOfLower("sort");
    CompileOne(t);
    QuotedSortSpelled(v);
  }

  lemma LineSeparatorSpelled()
    ensures "-sort:\"" + "a\U{2028}b" + "\"" == "-sort:\"a\U{2028}b\""
  {
  }

  /** `-sort:"a\u2028b"` throws. */
  lemma SortLineSeparatorThrows()
    ensures Compile("-sort:\"a\U{2028}b\"") == Threw([])
  {
    var v := "a\U{2028}b";
    assert v[1] == '\U{2028}';
    assert '"' !in v by {
      assert v[0] == 'a' && v[2] == 'b';
    }
    SortLineTerminatorThrows(v);
    LineSeparatorSpelled();
  }
}
