/** `useSearcher`: a search query becomes a conjunction of filters over
    applicants and a list of comparator keys, read left to right as the
    query's matches come out of the scanner. */
module Searcher {
  import opened Wrappers
  import opened JsText
  import opened Scanner
  import opened Applicants

  /** A predicate `filters` holds: a `-rating:` score, or the search phrase. */
  datatype Filter = HasRating(score: int) | MatchesPhrase(phrase: string)

  /** The sort-key helper a `-sort:` name selects. */
  datatype SortField = ByDate | ByRating | ByStage

  /** A comparator key: the phrase's first matching field, or a sort-key
      helper times `1` (ascending) or `-1` (descending). */
  datatype Key = MatchIndexKey(phrase: string) | FieldKey(field: SortField, ascending: bool)

  /** The warnings `message.warning` shows, with the text interpolated. */
  datatype Warning =
    | ExpectingInteger(value: string)
    | UnknownSortKeyMethod(sortKeyMethod: string)
    | UnknownSortMethod(name: string)
    | UnknownFilter(key: string)

  /** What `useSearcher` hands to the list view. */
  datatype Searcher = Searcher(filters: seq<Filter>, keys: seq<Key>)

  /** What one match of the query adds to each of the four arrays. */
  datatype Effect = Effect(filters: seq<Filter>, keys: seq<Key>, words: seq<string>, warnings: seq<Warning>)

  /** The message text of a warning. */
  function WarningText(w: Warning): string {
    match w
    case ExpectingInteger(v) => "Expecting integer: \"" + v + "\""
    case UnknownSortKeyMethod(m) => "Unknown sort key method \"" + m + "\""
    case UnknownSortMethod(n) => "Unknown sort method \"" + n + "\""
    case UnknownFilter(k) => "Unknown filter \"" + k + "\""
  }

  // ---------------------------------------------------------------------------
  // Reading one directive.

  /** `match[2] || match[3]`: the quoted text unless it is empty, else the
      unquoted text; an empty quoted value leaves `undefined`. */
  function ValueOf(v: DirectiveValue): (r: Option<string>)
    ensures r.None? <==> v == Quoted("")
    ensures r.Some? ==> r.value == v.text
  {
    match v
    case Quoted(q) => if q == "" then None else Some(q)
    case Unquoted(u) => Some(u)
  }

  /** A value as `parseInt`, `exec` and template literals read it:
      `undefined` becomes the text "undefined". */
  function JsString(o: Option<string>): string {
    o.GetOr("undefined")
  }

  /** `/^(.*?)(?:\.(.*))?$/.exec(value)`: the name before the first `.` and
      the method after it (absent without a `.`); `None` (`null`) when the
      value holds a line terminator, which `.` does not match. */
  function SplitSortValue(v: string): (r: Option<(string, Option<string>)>)
    ensures r.Some? <==> !HasLineTerminator(v)
    ensures r.Some? ==> '.' !in r.value.0
    ensures r.Some? && r.value.1.None? ==> r.value.0 == v
    ensures r.Some? && r.value.1.Some? ==> v == r.value.0 + "." + r.value.1.value
  {
    if HasLineTerminator(v) then None
    else
      var i := IndexOf(v, '.');
      if i < 0 then Some((v, None))
      else
        assert v == v[..i] + "." + v[i + 1..];
        assert forall j :: 0 <= j < i ==> v[..i][j] == v[j];
        Some((v[..i], Some(v[i + 1..])))
  }

  const Ascending: set<string> := {"", "asc", "ascend", "ascending"}
  const Descending: set<string> := {"des", "desc", "descend", "descending"}

  /** The direction a sort method selects, and the warning an unknown method
      raises (the key then stays ascending). */
  function Direction(sortKeyMethod: Option<string>): (bool, seq<Warning>) {
    var m := Lower(sortKeyMethod.GetOr(""));
    if m in Ascending then (true, [])
    else if m in Descending then (false, [])
    else (true, [UnknownSortKeyMethod(sortKeyMethod.GetOr(""))])
  }

  /** The sort-key helper a name selects, matched case-sensitively. */
  function FieldOf(name: string): Option<SortField> {
    if name == "date" then Some(ByDate)
    else if name == "rating" then Some(ByRating)
    else if name == "stage" then Some(ByStage)
    else None
  }

  /** A match the loop reads without throwing: any match but a `-sort:` whose
      value the split cannot read. */
  predicate SortValueReadable(t: Match) {
    t.Directive? && Lower(t.key) == "sort" ==> !HasLineTerminator(JsString(ValueOf(t.value)))
  }

  /** The position of the first match from `i` on that the loop cannot
      read, or the number of matches when there is none. */
  function ReadableFrom(ts: seq<Match>, i: nat): (k: nat)
    requires i <= |ts|
    ensures i <= k <= |ts|
    decreases |ts| - i
  {
    if i == |ts| || !SortValueReadable(ts[i]) then i else ReadableFrom(ts, i + 1)
  }

  /** The number of matches the loop reads before it throws: all of them, or
      the position of the first `-sort:` whose value holds a line
      terminator. */
  function ReadablePrefix(ts: seq<Match>): (k: nat)
    ensures k <= |ts|
  {
    ReadableFrom(ts, 0)
  }

  /** The matches from `i` to the end of the readable run are readable, and
      the one at its end, if any, is not. */
  lemma {:induction false} ReadableFromMeaning(ts: seq<Match>, i: nat)
    requires i <= |ts|
    ensures forall j :: i <= j < ReadableFrom(ts, i) ==> SortValueReadable(ts[j])
    ensures ReadableFrom(ts, i) < |ts| ==> !SortValueReadable(ts[ReadableFrom(ts, i)])
    decreases |ts| - i
  {
    if i < |ts| && SortValueReadable(ts[i]) {
      ReadableFromMeaning(ts, i + 1);
    }
  }

  /** The matches before the prefix's end are readable, and the one at its
      end, if any, is not. */
  lemma ReadablePrefixMeaning(ts: seq<Match>)
    ensures forall i :: 0 <= i < ReadablePrefix(ts) ==> SortValueReadable(ts[i])
    ensures ReadablePrefix(ts) < |ts| ==> !SortValueReadable(ts[ReadablePrefix(ts)])
  {
    ReadableFromMeaning(ts, 0);
  }

  /** What a `-rating:` directive with this value contributes. */
  function RatingEffect(value: string): Effect {
    match ParseInt(value)
    case Some(n) => Effect([HasRating(n)], [], [], [])
    case None => Effect([], [], [], [ExpectingInteger(value)])
  }

  /** What a `-sort:` directive with this value contributes. A value the
      split cannot read never gets here in `Compile`, which stops before it. */
  function SortEffect(value: string): Effect {
    match SplitSortValue(value)
    case None => Effect([], [], [], [])
    case Some((name, sortKeyMethod)) =>
      var (asc, warned) := Direction(sortKeyMethod);
      match FieldOf(name)
      case Some(f) => Effect([], [FieldKey(f, asc)], [], warned)
      case None => Effect([], [], [], warned + [UnknownSortMethod(name)])
  }

  /** What a directive contributes, chosen by its lower-cased key. */
  function DirectiveEffect(lowered: string, k: string, v: DirectiveValue): Effect {
    if lowered == "rating" then RatingEffect(JsString(ValueOf(v)))
    else if lowered == "sort" then SortEffect(JsString(ValueOf(v)))
    else Effect([], [], [], [UnknownFilter(k)])
  }

  /** What one match contributes. */
  function Interpret(t: Match): Effect {
    match t
    case Word(w) => Effect([], [], [w], [])
    case Directive(k, v) => DirectiveEffect(Lower(k), k, v)
  }

  const Nothing: Effect := Effect([], [], [], [])

  /** One effect after another. */
  function Then(a: Effect, b: Effect): Effect {
    Effect(a.filters + b.filters, a.keys + b.keys, a.words + b.words, a.warnings + b.warnings)
  }

  /** The arrays after the loop has processed the first `n` matches. */
  function CollectUpTo(ts: seq<Match>, n: nat): Effect
    requires n <= |ts|
  {
    if n == 0 then Nothing else Then(CollectUpTo(ts, n - 1), Interpret(ts[n - 1]))
  }

  /** The arrays after the loop has processed the matches `ts`. */
  function Collect(ts: seq<Match>): Effect {
    CollectUpTo(ts, |ts|)
  }

  /** `[stageSortKey, dateSortKey]`. */
  const DefaultKeys: seq<Key> := [FieldKey(ByStage, true), FieldKey(ByDate, true)]

  /** The code after the loop: the default keys when no key was installed,
      then the phrase filter and the phrase key ahead of all others. */
  function Finish(e: Effect): Searcher {
    var keys := if |e.keys| == 0 then DefaultKeys else e.keys;
    if |e.words| == 0 then Searcher(e.filters, keys)
    else
      var phrase := Join(e.words, " ");
      Searcher(e.filters + [MatchesPhrase(phrase)], [MatchIndexKey(phrase)] + keys)
  }

  /** How `useSearcher` ends: with the searcher and the warnings it showed,
      or with the `TypeError` that reading `match[1]` of a `null` split
      raises, after the warnings shown for the matches before it. */
  datatype Outcome = Built(searcher: Searcher, warnings: seq<Warning>) | Threw(warnings: seq<Warning>)

  /** What a query yields: it throws exactly when one of its matches is a
      `-sort:` whose value holds a line terminator. */
  function Compile(query: string): (r: Outcome)
    ensures r.Threw? <==> exists i :: 0 <= i < |Scan(query)| && !SortValueReadable(Scan(query)[i])
  {
    var ts := Scan(query);
    ReadablePrefixMeaning(ts);
    var k := ReadablePrefix(ts);
    if k < |ts| then Threw(CollectUpTo(ts, k).warnings)
    else
      var e := Collect(ts);
      Built(Finish(e), e.warnings)
  }

  /** The switch on the lower-cased sort method. */
  method ReadSortMethod(sortKeyMethod: Option<string>) returns (isAsc: bool, warned: seq<Warning>)
    ensures (isAsc, warned) == Direction(sortKeyMethod)
  {
    isAsc := true;
    warned := [];
    var m := Lower(sortKeyMethod.GetOr(""));
    if m == "" || m == "asc" || m == "ascend" || m == "ascending" {
      isAsc := true;
    } else if m == "des" || m == "desc" || m == "descend" || m == "descending" {
      isAsc := false;
    } else {
      warned := [UnknownSortKeyMethod(sortKeyMethod.GetOr(""))];
    }
  }

  /** The `case "sort"` branch of the loop: the key it pushes, if any, and
      its warnings, or the throw on a value the split cannot read. */
  method ReadSort(value: string) returns (added: seq<Key>, warned: seq<Warning>, threw: bool)
    ensures threw <==> HasLineTerminator(value)
    ensures !threw ==> Effect([], added, [], warned) == SortEffect(value)
  {
    var split := SplitSortValue(value);
    if split.None? {
      return [], [], true;
    }
    threw := false;
    var sortKeyName := split.value.0;
    var isAsc;
    isAsc, warned := ReadSortMethod(split.value.1);
    if sortKeyName == "date" {
      added := [FieldKey(ByDate, isAsc)];
    } else if sortKeyName == "rating" {
      added := [FieldKey(ByRating, isAsc)];
    } else if sortKeyName == "stage" {
      added := [FieldKey(ByStage, isAsc)];
    } else {
      added := [];
      warned := warned + [UnknownSortMethod(sortKeyName)];
    }
  }

  /** One more match taken from the scanner. */
  lemma NextToken(query: string, done: seq<Match>, lastIndex: nat)
    requires done + Tokens(query, lastIndex) == Scan(query)
    requires Exec(query, lastIndex).Some?
    ensures (done + [Exec(query, lastIndex).value.m]) + Tokens(query, Exec(query, lastIndex).value.lastIndex) == Scan(query)
    ensures |done| < |Scan(query)| && Scan(query)[|done|] == Exec(query, lastIndex).value.m
  {
    TokensStep(query, lastIndex);
  }

  /** The body of the `regex.exec` loop for one match: what it pushes onto
      `filters`, `comparatorKeys` and `words`, and the warnings it shows. */
  method ReadRating(value: string) returns (filters: seq<Filter>, warnings: seq<Warning>)
    ensures Effect(filters, [], [], warnings) == RatingEffect(value)
  {
    filters, warnings := [], [];
    var ratingVal := ParseInt(value);
    if ratingVal.None? {
      warnings := warnings + [ExpectingInteger(value)];
    } else {
      filters := filters + [HasRating(ratingVal.value)];
    }
  }

  method ReadMatch(t: Match) returns (filters: seq<Filter>, keys: seq<Key>, words: seq<string>, warnings: seq<Warning>, threw: bool)
    ensures threw <==> !SortValueReadable(t)
    ensures !threw ==> Effect(filters, keys, words, warnings) == Interpret(t)
  {
    filters, keys, words, warnings, threw := [], [], [], [], false;
    if t.Word? {
      words := words + [t.text];
    } else {
      var key := t.key;
      var value := ValueOf(t.value);
      var lowered := Lower(key);
      if lowered == "rating" {
        filters, warnings := ReadRating(JsString(value));
      } else if lowered == "sort" {
        keys, warnings, threw := ReadSort(JsString(value));
      } else {
        warnings := warnings + [UnknownFilter(key)];
      }
      assert !threw ==> Effect(filters, keys, words, warnings) == DirectiveEffect(lowered, key, t.value);
    }
  }

  /** The `regex.exec` loop of `useSearcher`: the four arrays once every
      match of the query has been read, or as they stand when a match
      throws. */
  method ReadQuery(query: string) returns (filters: seq<Filter>, keys: seq<Key>, words: seq<string>, warnings: seq<Warning>, threw: bool)
    ensures threw <==> ReadablePrefix(Scan(query)) < |Scan(query)|
    ensures Effect(filters, keys, words, warnings) == CollectUpTo(Scan(query), ReadablePrefix(Scan(query)))
  {
    filters, keys, words, warnings, threw := [], [], [], [], false;
    var lastIndex: nat := 0;
    var found := Exec(query, lastIndex);
    ghost var done: seq<Match> := [];
    while found.Some?
      invariant found == Exec(query, lastIndex)
      invariant done + Tokens(query, lastIndex) == Scan(query)
      invariant Effect(filters, keys, words, warnings) == CollectUpTo(Scan(query), |done|)
      invariant forall i :: 0 <= i < |done| ==> SortValueReadable(done[i])
      decreases |query| - lastIndex
    {
      var t := found.value.m;
      NextToken(query, done, lastIndex);
      var newThrew;
      filters, keys, words, warnings, newThrew := ReadInto(t, filters, keys, words, warnings);
      if newThrew {
        ReadUpTo(Scan(query), done, Tokens(query, lastIndex));
        return filters, keys, words, warnings, true;
      }
      CollectNext(Scan(query), done, t);
      done := done + [t];
      lastIndex := found.value.lastIndex;
      found := Exec(query, lastIndex);
    }
    assert Tokens(query, lastIndex) == [];
    assert done == Scan(query);
    ReadUpTo(Scan(query), done, []);
  }

  /** One match read onto the arrays: unchanged when it throws. */
  method ReadInto(t: Match, filters: seq<Filter>, keys: seq<Key>, words: seq<string>, warnings: seq<Warning>)
    returns (filters': seq<Filter>, keys': seq<Key>, words': seq<string>, warnings': seq<Warning>, threw: bool)
    ensures threw <==> !SortValueReadable(t)
    ensures threw ==> Effect(filters', keys', words', warnings') == Effect(filters, keys, words, warnings)
    ensures !threw ==> Effect(filters', keys', words', warnings') == Then(Effect(filters, keys, words, warnings), Interpret(t))
  {
    var newFilters, newKeys, newWords, newWarnings;
    newFilters, newKeys, newWords, newWarnings, threw := ReadMatch(t);
    if threw {
      return filters, keys, words, warnings, true;
    }
    filters' := filters + newFilters;
    keys' := keys + newKeys;
    words' := words + newWords;
    warnings' := warnings + newWarnings;
  }

  /** One more match read: the step of the loop. */
  lemma CollectNext(ts: seq<Match>, done: seq<Match>, t: Match)
    requires |done| < |ts| && ts[|done|] == t
    ensures CollectUpTo(ts, |done + [t]|) == Then(CollectUpTo(ts, |done|), Interpret(t))
  {
  }

  /** The loop stops at the first match it cannot read: it has read `done`
      without a throw, and the rest is empty or starts with a throw. */
  lemma ReadUpTo(ts: seq<Match>, done: seq<Match>, rest: seq<Match>)
    requires done + rest == ts
    requires forall i :: 0 <= i < |done| ==> SortValueReadable(done[i])
    requires rest == [] || !SortValueReadable(rest[0])
    ensures ReadablePrefix(ts) == |done|
  {
    forall i | 0 <= i < |done| ensures SortValueReadable(ts[i]) {
      assert ts[i] == done[i];
    }
    if rest != [] {
      assert ts[|done|] == rest[0];
    }
    FirstUnreadable(ts, |done|);
  }

  /** The matches before `n` are readable and the one at `n`, if any, is
      not: the loop throws at `n`. */
  lemma FirstUnreadable(ts: seq<Match>, n: nat)
    requires n <= |ts| && forall i :: 0 <= i < n ==> SortValueReadable(ts[i])
    requires n < |ts| ==> !SortValueReadable(ts[n])
    ensures ReadablePrefix(ts) == n
  {
    ReadablePrefixMeaning(ts);
  }

  /** The code after the loop, on the arrays it filled. */
  method FinishArrays(filters: seq<Filter>, keys: seq<Key>, words: seq<string>) returns (searcher: Searcher)
    ensures searcher == Finish(Effect(filters, keys, words, []))
  {
    var filters', keys' := filters, keys;
    if |keys'| == 0 {
      keys' := keys' + [FieldKey(ByStage, true)];
      keys' := keys' + [FieldKey(ByDate, true)];
    }
    if |words| > 0 {
      var phrase := Join(words, " ");
      filters' := filters' + [MatchesPhrase(phrase)];
      keys' := [MatchIndexKey(phrase)] + keys';
    }
    searcher := Searcher(filters', keys');
  }

  /** `useSearcher(query)`: the filters and comparator keys, and the warnings
      shown on the way, or the throw. */
  method UseSearcher(query: string) returns (r: Outcome)
    ensures r == Compile(query)
  {
    var filters, keys, words, warnings, threw := ReadQuery(query);
    if threw {
      return Threw(warnings);
    }
    var searcher := FinishArrays(filters, keys, words);
    r := Built(searcher, warnings);
  }
}
