# Trakario frontend: the applicant search engine in Dafny

Trakario's frontend lists job applicants. A search box above the list takes
a query such as

    -rating:4 -sort:rating.desc alice

and `useSearcher(query)` (`src/App.js`) turns it into two things:

- a `filter` that decides which applicants are listed;
- a `sorter` that decides their order.

Tokens of the query are read with one global regular expression. There are
two kinds:

- Directives, `-key:value`:
  - `-rating:n` keeps the applicants with a rating whose overall score is `n`.
  - `-sort:name[.method]` adds a comparator key. The names are `date`,
    `rating` and `stage`; the method is an ascending or descending alias.
  - Anything else triggers a warning.
- Bare words: together they form a phrase that must occur in the name, email,
  stage or email text. Where it occurs becomes the first comparator key.

With no sort key the defaults `stage` then `date` apply. The list view shows
`(data || []).filter(filter).sort(sorter)`.

The project models this engine and proves what it promises. It also models
`unflattenObject`, which turns `{'bar:one': 'B'}` into `{'bar': {'one': 'B'}}`,
and the small pure list updates of the views.

Modules, one per file:

- `wrappers.dfy` (`Wrappers`): `Option`.
- `js_text.dfy` (`JsText`): the JavaScript string operations used, written
  out:
  - `\s`;
  - ASCII `toLowerCase`/`toUpperCase`;
  - `includes`, `indexOf` and `join`;
  - `parseInt` for decimal text;
  - regular-expression runs.
- `scanner.dfy` (`Scanner`): the regex at `App.js:185`, driven by `exec` and
  `lastIndex`, as a scanner over query positions. It includes a round trip
  from matches to text and back.
- `applicants.dfy` (`Applicants`): applicant and rating records, the stage
  list, and the three sort-key helpers.
- `searcher.dfy` (`Searcher`): `useSearcher` as imperative methods, each proved
  equal to a declarative definition (`Compile`).
- `ranking.dfy` (`Ranking`): `getSearchMatchIndex`, the `filter` and the
  `sorter`.
- `queries.dfy` (`Queries`): what a query means, proved over the declarative
  definition.
- `ordering.dfy` (`Ordering`): the filtered, sorted list view.
- `views.dfy` (`Views`): the stage label, the notes mask, and the stage and
  rating list updates.
- `unflatten.dfy` (`Unflatten`): `unflattenObject`, as an imperative method
  proved equal to a functional definition, plus its properties.

JavaScript semantics made explicit:

- A rating without an overall score makes the rating key NaN.
- A NaN key value sorts as +Infinity.
- Descending keys are the ascending ones times `-1`.
- `match[2] || match[3]` is `undefined` for an empty quoted value. `parseInt`
  reads `undefined` as the text `"undefined"`.
- In `unflattenObject` two things throw a `TypeError`, modelled as an
  outcome:
  - `key.includes` when `key` is `undefined`, which throws in any mode;
  - a write into a primitive, which throws because the module runs in strict
    mode.
- In `useSearcher`, a `-sort:` value holding a line terminator (`\n`, `\r`,
  U+2028 or U+2029) makes `/^(.*?)(?:\.(.*))?$/.exec(value)` return `null`,
  and reading `match[1]` then throws a `TypeError`. Only a quoted value can
  hold one, since `\s` excludes them from unquoted values. The search box is
  an `<input>`, which drops line feeds and carriage returns from pasted text
  but keeps U+2028 and U+2029. `Compile` returns this throw as the outcome
  `Threw`, with the warnings shown before it.

Sort keys where a reader might expect NaN:

- An applicant without ratings has rating key `0`: the code divides the sum
  0 by `max(0, 1)`.
- An unknown stage has stage key `-1`, from `indexOf`.
- An unparsable date has date key `0`, from `|| 0`.

Other choices of the code:

- A directive key must be lower case. The regex demands `[a-z]+` before `:`
  and compares the lower-cased key only afterwards. So `-Rating:3` is a bare
  word, not a rating filter.
- An unknown sort method only warns. The key is still installed, ascending.

## Model

| member | source | states |
|---|---|---|
| Scanner.Exec | src/App.js:185-186 | `regex.exec` from `lastIndex`: a match starts at or after `lastIndex` and ends after it, within the query |
| Scanner.ExecSkipsBlank | src/App.js:185 | `exec` from a blank finds what `exec` from the next position finds |
| Scanner.ScanEmpty | src/App.js:185-187 | a query has no match exactly when it is all blanks |
| Scanner.TokensShaped | src/App.js:185 | every match: a quoted value has no `"`, an unquoted value and a word have no blank |
| Scanner.WordNotHead | src/App.js:185 | the word alternative never takes text the directive alternative matches there |
| Scanner.ScanRender | src/App.js:185-187 | round trip: scanning the space-separated text of well-formed matches gives those matches back |
| Scanner.UpperCaseKeyIsWord | src/App.js:185 | `-Rating:3` scans as the bare word `-Rating:3` |
| Scanner.EmbeddedKeyIsWord | src/App.js:185 | `foo-rating:3` scans as one bare word |
| Searcher.ValueOf | src/App.js:193 | `match[2] \|\| match[3]` is undefined exactly for an empty quoted value, else that text |
| Searcher.SplitSortValue | src/App.js:206-208 | `/^(.*?)(?:\.(.*))?$/`: matches exactly when there is no line terminator; the name has no `.`; name, `.` and method give the value back |
| Searcher.ReadSortMethod | src/App.js:209-226 | the lower-cased method picks the direction from the alias lists, else a warning and ascending |
| Searcher.ReadSort | src/App.js:205-242 | throws exactly when the value holds a line terminator; otherwise the key pushed (date, rating or stage, with its direction) and the warnings, as the declarative definition says |
| Searcher.ReadRating | src/App.js:195-204 | an integer value pushes the rating filter; anything else only warns |
| Searcher.ReadMatch | src/App.js:188-245 | throws exactly on a `-sort:` with a line terminator in its value; otherwise a word is pushed onto `words` and a directive's lower-cased key selects rating, sort or a warning |
| Searcher.ReadQuery | src/App.js:186-248 | the `exec` loop throws exactly when some match cannot be read, and leaves the filters, keys, words and warnings that `CollectUpTo` gives for the matches before the first such match (all matches when none) |
| Searcher.ReadInto | src/App.js:188-248 | one match pushed onto the arrays: throws exactly when the match cannot be read, leaves the arrays as they were when it throws, and otherwise appends what the match contributes |
| Searcher.ReadUpTo | src/App.js:186-207 | a loop that read every match before a stop, and stops at the end or at an unreadable match, stops exactly where the throw happens |
| Searcher.ReadableFromMeaning | src/App.js:186-207 | scanning from a match on, every match before the stop is readable and the one it stops at is not |
| Searcher.ReadablePrefixMeaning | src/App.js:186-207 | the number of matches read before the throw: all before it are readable, the one at it is not |
| Searcher.Compile | src/App.js:180-293 | the query throws exactly when one of its `-sort:` values holds a line terminator |
| Searcher.FirstUnreadable | src/App.js:186-207 | the loop throws at the first unreadable match and nowhere else |
| Searcher.FinishArrays | src/App.js:249-267 | the arrays after the loop become the searcher `Finish` describes: the default keys when none was installed, and with words the phrase filter last and the phrase key first |
| Searcher.UseSearcher | src/App.js:180-293 | the throw with the warnings shown before it, or default keys when none was installed and, with words, the phrase filter last and the phrase key first; equals `Compile(query)` |
| Applicants.DateKeyUnparsed | src/App.js:65 | an unparsable date counts as epoch 0 |
| Applicants.DateKeyNewerFirst | src/App.js:65 | ascending on the date key lists the newer submission first |
| Applicants.RatingKeyNoRatings | src/App.js:66-69 | no ratings gives rating key 0, not NaN |
| Applicants.OverallSumNaN | src/App.js:67-68 | the score sum is NaN exactly when some rating has no overall score |
| Applicants.RatingKeyNaN | src/App.js:66-69 | the rating key is NaN exactly when some rating has no overall score |
| Applicants.OverallSumTotal | src/App.js:67-68 | for fully scored ratings the sum is the integer total |
| Applicants.RatingKeyBounds | src/App.js:66-69 | with all scores in `[lo, hi]` the rating key (their mean) is in `[lo, hi]` |
| Applicants.StagesDistinct | src/App.js:53-62 | the stage list has no repetition |
| Applicants.StageKeyOfListed | src/App.js:70 | a listed stage's key is its position |
| Applicants.StageKeyMeaning | src/App.js:70 | the stage key is -1 exactly for an unlisted stage, else its position in the list |
| Applicants.StageKeyOrder | src/App.js:53-62 | ascending on the stage key follows the pipeline order |
| Applicants.StageKeyUnknownFirst | src/App.js:70 | an unlisted stage sorts before every listed one when ascending |
| Ranking.MatchIndex | src/App.js:256-264 | the first searched field holding the phrase, or 4 when none does; no earlier field holds it |
| Ranking.GetSearchMatchIndex | src/App.js:256-264 | the `for` loop with early return computes that first index |
| Ranking.PhraseFilterMeaning | src/App.js:256-265 | the phrase filter keeps a record exactly when a present, non-empty searched field holds the phrase |
| Ranking.PhraseFilterNonEmpty | src/App.js:256-265 | for a non-empty phrase, exactly when some present field `includes` it |
| Ranking.AllHoldAppend | src/App.js:269 | `every` over concatenated filter lists is the conjunction; no filters keep all |
| Ranking.DescendingNegates | src/App.js:230-236 | a descending key is minus the ascending one, and NaN exactly when it is NaN |
| Ranking.Rank | src/App.js:279-284 | NaN becomes +Infinity; other values are kept |
| Ranking.Sorter | src/App.js:270-290 | the comparator loop returns what `Compare` gives |
| Ranking.CompareFromMeaning | src/App.js:271-289 | 0 when all keys from `i` tie; otherwise the first differing key gives -1 or 1 |
| Ranking.CompareZero | src/App.js:271-289 | the comparator is 0 exactly when all keys tie; it is always -1, 0 or 1 |
| Ranking.FirstDifferenceDecides | src/App.js:285-287 | the first key whose values differ decides: -1 if `x`'s value is below `y`'s, else 1 |
| Ranking.AllTiedIsZero | src/App.js:289 | all keys tied exactly when the comparator returns 0 |
| Ranking.BelowTotal | src/App.js:285-286 | `<` on values with +Infinity is irreflexive and total on distinct values |
| Ranking.CompareReflexive | src/App.js:270-290 | `sorter(x, x) == 0` |
| Ranking.CompareAntisymmetric | src/App.js:270-290 | `sorter(x, y) == -sorter(y, x)` |
| Ranking.CompareTransitive | src/App.js:270-290 | `sorter(x, y) <= 0` and `sorter(y, z) <= 0` give `sorter(x, z) <= 0` |
| Ranking.SorterIsTotalPreorder | src/App.js:270-290 | the comparator is a consistent total preorder |
| Ranking.NaNSortsLast | src/App.js:279-287 | at the deciding key a NaN value sorts after a number, whatever the direction |
| Queries.CollectAppend | src/App.js:186-248 | reading two runs of matches is the first run's effect, then the second's |
| Queries.CollectWords | src/App.js:188-190 | `words` holds exactly the bare words, in the query's order |
| Queries.CompileSingle | src/App.js:180-293 | a query of one match yields the searcher of that match alone, or throws with no warning when the match cannot be read |
| Queries.CompileRendered | src/App.js:180-293 | a query written out from well-formed matches yields a searcher exactly when every `-sort:` value among them is readable, and then the searcher and warnings of exactly those matches |
| Queries.CompileThrew | src/App.js:186-207 | a query that throws shows the warnings of the matches before the first unreadable `-sort:` value |
| Queries.SortLineTerminatorThrows | src/App.js:205-207 | a quoted `-sort:` value holding a line terminator throws before any warning |
| Queries.SortLineSeparatorThrows | src/App.js:205-207 | `-sort:"a\u2028b"` throws |
| Queries.InertReadable | src/App.js:186-207 | an unknown directive, an unknown sort name or a non-integer rating never throws |
| Queries.RenderedWords | src/App.js:253-266 | a query's words come back in order; when it does not throw, a non-empty phrase (the words joined by spaces) is the last filter and the first key |
| Queries.NotDirectivesArePhrase | src/App.js:185-190 | `-Rating:3` and `foo-rating:3` are phrase words, not rating filters |
| Queries.CollectFiltersHold | src/App.js:195-203 | the collected filters hold exactly when every integer `-rating:` value is met |
| Queries.KeepMeaning | src/App.js:253-269 | for a query that does not throw, `filter(x)` holds exactly when every integer rating is met and, with words, some searched field holds the phrase |
| Queries.NoFiltersKeepsAll | src/App.js:269 | for a query that does not throw, with no integer rating and no word, every record is kept |
| Queries.CollectKeysEmpty | src/App.js:228-241 | no key was collected exactly when no match installs one |
| Queries.DefaultKeysIff | src/App.js:249-252 | for a query that does not throw, the defaults `[stage, date]` are used exactly when no `-sort:` installed a key; otherwise the installed keys are used unchanged |
| Queries.InertWarnings | src/App.js:194-245 | an unknown directive, an unknown sort name or a non-integer rating adds only warnings |
| Queries.InertMatch | src/App.js:186-248 | such a match leaves the searcher as if it were absent; its warnings appear in place |
| Queries.InertInQuery | src/App.js:180-293 | the same for query text: removing such a match changes neither whether the query throws nor the searcher |
| Queries.SortValueParts | src/App.js:206-208 | `name.method` splits at the first `.` |
| Queries.DirectionAliases | src/App.js:210-225 | the aliases choose the direction case-insensitively; an unknown method warns and stays ascending |
| Queries.SortQuery | src/App.js:205-241 | `-sort:name.method` installs the named helper's key with the method's direction, or only warns |
| Queries.SortRatingDescending | src/App.js:233 | `-sort:rating.desc` gives the one key: rating, descending |
| Queries.SortUnknownName | src/App.js:228-252 | an unknown name with a known method gives one warning and the default keys |
| Queries.SortNameCaseSensitive | src/App.js:228-240 | `-sort:Date.asc` names no helper: one warning, default keys |
| Queries.PhraseKeyFirst | src/App.js:266 | for a query that does not throw, with words, the phrase key is first, ahead of at least one other key |
| Queries.NameBeforeEmailText | src/App.js:255-287 | for a query that does not throw, a record with the phrase in its name sorts before one with it only in its email text |
| Queries.RatingOfInteger | src/App.js:196-202 | `-rating:n` gives exactly the filter `HasRating(n)` and no warning |
| Queries.RatingOfIntegerKeeps | src/App.js:200-202 | that filter keeps exactly the records with a rating whose overall score is `n` |
| Queries.RatingNotInteger | src/App.js:196-198 | `-rating:good` gives no filter and one "Expecting integer" warning |
| JsText.ParseInt | src/App.js:196 | `parseInt` gives a number exactly when a digit follows the blanks and sign |
| JsText.ParseIntOfIntToString | src/App.js:196 | `parseInt` reads an integer's decimal spelling back, whatever non-digit follows |
| JsText.Includes | src/App.js:259 | `includes` holds exactly when the phrase occurs at some position |
| JsText.Lower | src/App.js:194 | `toLowerCase` keeps the length and lowers each ASCII letter |
| Ordering.FilterCount | src/App.js:308 | `filter` keeps each accepted element as often as it occurs, and drops the others |
| Ordering.SortByPermutes | src/App.js:308 | the sort is a permutation |
| Ordering.SortBySorted | src/App.js:308 | under a total preorder, the sort's output is ordered pairwise |
| Ordering.SortByStable | src/App.js:308 | the sort is stable: tied elements keep their input order |
| Ordering.SorterConsistent | src/App.js:270-290 | the comparator handed to `sort` is a total preorder |
| Ordering.ListViewMeaning | src/App.js:308 | the list holds exactly the kept records, as often as in the data, ordered by the comparator, with ties in data order |
| Ordering.ListViewNoFilters | src/App.js:308 | with no filters the list is a permutation of all the data |
| Ordering.ListViewNoData | src/App.js:308 | `data` still undefined gives an empty list |
| Views.SplitJoin | src/App.js:116-118 | round trip: `split("-")` then `join("-")` gives the stage back |
| Views.SplitPieces | src/App.js:116 | no split piece contains the separator |
| Views.StageLabelMeaning | src/App.js:115-118 | the label has the stage's length; each `-` is a space; each piece's first letter is upper-cased; all else is kept |
| Views.MaskHides | src/App.js:787 | two notes mask alike exactly when they have equal length and spaces at the same places |
| Views.MaskIdempotent | src/App.js:787 | masking a masked text changes nothing |
| Views.ReplaceStageMeaning | src/App.js:497-502 | only the applicants with that id get the new stage; the others are unchanged |
| Views.ReplaceStageTwice | src/App.js:497-502 | a second stage change of the same applicant overrides the first |
| Views.ReplaceStageKey | src/App.js:500 | the changed applicant's stage key is the new stage's |
| Views.DeleteRatingMeaning | src/App.js:914-916 | no rating with that id remains; the others keep their counts; nothing else changes |
| Views.DeleteRatingShrinks | src/App.js:914-916 | a deletion adds no score the rating filter could find |
| Views.AppendRatingMeaning | src/App.js:931 | old ratings kept in order, the new one last; the rating filter then also finds its score |
| Views.AppendThenDelete | src/App.js:914-931 | adding a rating and deleting its id equals deleting that id |
| Unflatten.SplitKey | src/App.js:83 | `split(/:(.+)/)` fails (`newKey` undefined) exactly when no `:` is followed by a character other than a line terminator; otherwise the index and the rest are together shorter than the key |
| Unflatten.UnflattenObject | src/App.js:79-91 | the loops produce `Unflatten(entries)`: the nested object, or `TypeError` |
| Unflatten.ThrowSticks | src/App.js:81-90 | after a `TypeError`, later entries change nothing |
| Unflatten.AssignSets | src/App.js:82-89 | an entry written without error leaves its value at its key's path |
| Unflatten.AssignFrame | src/App.js:82-89 | a write changes nothing at a path that parts from its own |
| Unflatten.AssignNoPath | src/App.js:83-86 | a key that does not split down to a path throws |
| Unflatten.LastWriteWins | src/App.js:81-90 | the output holds an entry's value at its path unless a later entry writes at, above or below it |
| Unflatten.ColonFreeCopies | src/App.js:81-89 | keys without `:` give a shallow copy |
| Unflatten.CopiedKeys | src/App.js:81-89 | the copy has exactly the entries' keys |
| Unflatten.CopiedLast | src/App.js:88 | each key of the copy holds its last entry's value |
| Unflatten.ColonEndNoPath | src/App.js:82-86 | a key ending in `:`, with no line terminator, never splits down to a path |
| Unflatten.ColonEndThrows | src/App.js:79-91 | such a key makes `unflattenObject` throw |
| Unflatten.PathJoin | src/App.js:82-86 | without line terminators: a path exists exactly when the key does not end in `:`, and joining it with `:` gives the key back |
| Unflatten.SplitAt | src/App.js:83 | `index:rest` with a colon-free index splits at that `:` |
| Unflatten.AssignTwoLevels | src/App.js:82-88 | `index:name` writes `name` inside the object at `index`, creating it when missing |
| Unflatten.CommentExample | src/App.js:75-78 | the example in the source comment: `{'foo':'A','bar:one':'B','bar:two':'C'}` gives `{'foo':'A','bar':{'one':'B','two':'C'}}` |

## Left out

- Searcher.UseSearcher: the throw is an outcome of the hook, not a crash of the React page. What the page then shows is not modelled.
- Numbers are reals with an explicit NaN. Floating-point rounding, `-0` and the precision of the mean rating are not modelled.
- An `overall` that is `null` rather than missing is not modelled: it adds 0 in JavaScript. Each rating's `overall` is either an integer or absent.
- JsText.ParseInt: reads decimal integers with an optional sign after leading blanks. It leaves out hexadecimal `0x` prefixes and the loss of precision above 2^53.
- JsText.Lower: maps ASCII letters only. The code's `toLowerCase` and `toUpperCase` also map non-ASCII letters.
- `Date.parse(x.dateSubmitted)` is not modelled. Each applicant carries its result as `dateEpoch`, with `None` for NaN.
- `message.warning` toasts are returned as a list of warnings. `console.log` is left out.
- Ordering.ListView: `Array.prototype.sort` is modelled by a stable insertion sort over values, not in place. The language requires `sort` to be stable; under a consistent comparator, which SorterConsistent proves, a stable sort's result is unique.
- The rest of the React views are left out: the API requests, cookies, routing, forms, the Markdown rendering and the layout.
- Setting the stage over the network is left out. Views.ReplaceStage takes the new stage as a value.
- Unflatten.UnflattenObject: objects are values, so sharing an object between the input and the output is not modelled. Neither are keys like `__proto__` or properties inherited from prototypes. A truthy primitive met on the way is taken to end in a `TypeError`, which is what strict mode does unless an inherited property is an object.
- Unflatten.Value: `Null` stands for both `null` and `undefined`. Inside `unflattenObject` they behave alike: both are falsy and neither is an object. The rating form feeds `undefined` for fields left empty.
- Unflatten.UnflattenObject: `Object.entries(obj)` is taken as the input sequence, in its order. The property-order rules for integer-like keys are not modelled.
- `StageTagRaw`'s colour table and `Tag` rendering are left out. Only its label text is modelled.
