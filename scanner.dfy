/** The tokenizer of the search box: the global regular expression
    `(?:\-([a-z]+):(?:"([^"]*)"|([^\s]*))|(\S+))` driven by repeated `exec`
    calls, written out as an explicit left-to-right scanner over positions of
    the query, as `regex.lastIndex` moves through it. */
module Scanner {
  import opened Wrappers
  import opened JsText

  /** The two spellings of a directive's value: group 2 (`"quoted"`) or
      group 3 (a run, possibly empty, of non-blank characters). */
  datatype DirectiveValue = Quoted(text: string) | Unquoted(text: string)

  /** One match of the regex: a directive `-key:value` (groups 1 to 3) or
      a bare word (group 4). */
  datatype Match = Directive(key: string, value: DirectiveValue) | Word(text: string)

  /** What one `regex.exec(query)` reports: the match, `match.index`, and the
      value `regex.lastIndex` has afterwards. */
  datatype Found = Found(m: Match, index: nat, lastIndex: nat)

  /** `\S` and `[^\s]`. */
  predicate IsSolid(c: char) {
    !IsSpace(c)
  }

  /** `[^"]`. */
  predicate NotQuote(c: char) {
    c != '"'
  }

  predicate NoSpace(s: string) {
    forall i :: 0 <= i < |s| ==> !IsSpace(s[i])
  }

  predicate AllLower(s: string) {
    forall i :: 0 <= i < |s| ==> IsLower(s[i])
  }

  /** Lower-case text is its own lower case. */
  lemma LowerOfLower(s: string)
    requires AllLower(s)
    ensures Lower(s) == s
  {
  }

  /** `-[a-z]+:` matches at position `p`. Greedy `[a-z]+` gives up letters
      only to let `:` match, and a letter is never `:`, so only the longest run
      can be followed by the colon. */
  predicate DirectiveHeadAt(s: string, p: nat) {
    && p < |s| && s[p] == '-'
    && var e := RunEnd(s, p + 1, IsLower);
       p + 1 < e < |s| && s[e] == ':'
  }

  /** The value alternatives `"([^"]*)"|([^\s]*)` at position `v`: a quote
      closed later in the query gives a quoted value, anything else the
      (possibly empty) run of non-blanks. Returns the value and where the match
      ends. */
  function ValueAt(s: string, v: nat): (r: (DirectiveValue, nat))
    requires v <= |s|
    ensures v <= r.1 <= |s|
  {
    if v < |s| && s[v] == '"' && RunEnd(s, v + 1, NotQuote) < |s| then
      var close := RunEnd(s, v + 1, NotQuote);
      (Quoted(s[v + 1..close]), close + 1)
    else
      var e := RunEnd(s, v, IsSolid);
      (Unquoted(s[v..e]), e)
  }

  /** The regex matched at position `p`, a non-blank character: the directive
      alternative when its head matches, the bare-word alternative otherwise.
      Returns the match and where it ends. */
  function MatchAt(s: string, p: nat): (r: (Match, nat))
    requires p < |s| && !IsSpace(s[p])
    ensures p < r.1 <= |s|
  {
    if DirectiveHeadAt(s, p) then
      var e := RunEnd(s, p + 1, IsLower);
      var value := ValueAt(s, e + 1);
      (Directive(s[p + 1..e], value.0), value.1)
    else
      var w := RunEnd(s, p, IsSolid);
      (Word(s[p..w]), w)
  }

  /** `regex.exec(s)` with `regex.lastIndex == lastIndex`. Every alternative
      starts with a non-blank character and the bare-word alternative accepts
      any, so the leftmost match starts at the first non-blank at or after
      `lastIndex`; `None` (JavaScript's `null`) when there is none. */
  function Exec(s: string, lastIndex: nat): (r: Option<Found>)
    ensures r.Some? ==> lastIndex <= r.value.index < r.value.lastIndex <= |s|
  {
    if lastIndex > |s| then None
    else
      var p := RunEnd(s, lastIndex, IsSpace);
      if p == |s| then None
      else
        var here := MatchAt(s, p);
        Some(Found(here.0, p, here.1))
  }

  /** The matches `exec` returns one after another from `from` until it
      returns `null`. */
  function Tokens(s: string, from: nat): seq<Match>
    decreases |s| - from
  {
    match Exec(s, from)
    case None => []
    case Some(f) => [f.m] + Tokens(s, f.lastIndex)
  }

  /** All matches of the search regex over a query, in document order. */
  function Scan(query: string): seq<Match> {
    Tokens(query, 0)
  }

  // ---------------------------------------------------------------------------
  // What `exec` does at one position.

  /** `exec` from a non-blank position matches right there. */
  lemma ExecAt(s: string, p: nat)
    requires p < |s| && !IsSpace(s[p])
    ensures Exec(s, p) == Some(Found(MatchAt(s, p).0, p, MatchAt(s, p).1))
  {
    assert RunEnd(s, p, IsSpace) == p;
  }

  /** `exec` from a blank gives what `exec` from the next position gives. */
  lemma ExecSkipsBlank(s: string, k: nat)
    requires k < |s| && IsSpace(s[k])
    ensures Exec(s, k) == Exec(s, k + 1)
  {
    assert RunEnd(s, k, IsSpace) == RunEnd(s, k + 1, IsSpace);
  }

  /** `exec` at the end of the query finds nothing. */
  lemma ExecAtEnd(s: string)
    ensures Exec(s, |s|) == None
  {
  }

  lemma TokensStep(s: string, from: nat)
    requires Exec(s, from).Some?
    ensures Tokens(s, from) == [Exec(s, from).value.m] + Tokens(s, Exec(s, from).value.lastIndex)
  {
  }

  lemma TokensSameExec(s: string, a: nat, b: nat)
    requires Exec(s, a) == Exec(s, b)
    ensures Tokens(s, a) == Tokens(s, b)
  {
  }

  // ---------------------------------------------------------------------------
  // What the scanner produces.

  /** The shape every match has: a bare word is a non-empty run of non-blanks
      that is not a directive head; a key is a non-empty run of lower-case
      letters; a quoted value holds no quote, an unquoted one no blank. */
  predicate Shaped(t: Match) {
    match t
    case Word(w) => |w| > 0 && NoSpace(w) && !DirectiveHeadAt(w, 0)
    case Directive(k, Quoted(v)) => |k| > 0 && AllLower(k) && '"' !in v
    case Directive(k, Unquoted(v)) => |k| > 0 && AllLower(k) && NoSpace(v)
  }

  /** `t` is written in `s` from position `p` on. */
  predicate Placed(s: string, t: string, p: nat) {
    p + |t| <= |s| && forall k :: p <= k < p + |t| ==> s[k] == t[k - p]
  }

  /** The two halves of a placed piece are placed one after the other. */
  lemma PlacedSplit(s: string, a: string, b: string, p: nat)
    requires Placed(s, a + b, p)
    ensures Placed(s, a, p) && Placed(s, b, p + |a|)
  {
    forall k | p <= k < p + |a|
      ensures s[k] == a[k - p]
    {
      assert (a + b)[k - p] == a[k - p];
    }
    forall k | p + |a| <= k < p + |a| + |b|
      ensures s[k] == b[k - (p + |a|)]
    {
      assert (a + b)[k - p] == b[k - p - |a|];
    }
  }

  /** A slice of `s` is placed where it was cut. */
  lemma SlicePlaced(s: string, a: nat, b: nat)
    requires a <= b <= |s|
    ensures Placed(s, s[a..b], a)
  {
  }

  /** What holds of every character at the positions of a placed piece holds
      of every character of the piece. */
  lemma PlacedAll(s: string, t: string, off: nat, p: char -> bool)
    requires Placed(s, t, off)
    requires forall k :: off <= k < off + |t| ==> p(s[k])
    ensures forall i :: 0 <= i < |t| ==> p(t[i])
  {
    forall i | 0 <= i < |t|
      ensures p(t[i])
    {
      assert s[off + i] == t[i];
    }
  }

  /** A run inside a piece of `s` ends where the same run in `s` ends, unless
      it reaches the end of the piece. */
  lemma {:induction false} RunEndPlaced(s: string, t: string, off: nat, i: nat, p: char -> bool)
    requires Placed(s, t, off) && i <= |t|
    ensures RunEnd(t, i, p) < |t| ==> RunEnd(s, off + i, p) == off + RunEnd(t, i, p)
    ensures RunEnd(t, i, p) == |t| ==> RunEnd(s, off + i, p) >= off + |t|
    decreases |t| - i
  {
    if i < |t| {
      assert s[off + i] == t[i];
      if p(t[i]) {
        RunEndPlaced(s, t, off, i + 1, p);
      }
    }
  }

  /** The run from `i` to `j` cut out of `s` holds only characters satisfying
      `p`. */
  lemma RunSlice(s: string, i: nat, j: nat, p: char -> bool)
    requires i <= j <= |s|
    requires forall k :: i <= k < j ==> p(s[k])
    ensures forall k :: 0 <= k < |s[i..j]| ==> p(s[i..j][k])
  {
    SlicePlaced(s, i, j);
    PlacedAll(s, s[i..j], i, p);
  }

  lemma ValueAtShaped(s: string, v: nat)
    requires v <= |s|
    ensures match ValueAt(s, v).0
      case Quoted(q) => '"' !in q
      case Unquoted(q) => NoSpace(q)
  {
    if v < |s| && s[v] == '"' && RunEnd(s, v + 1, NotQuote) < |s| {
      var close := RunEnd(s, v + 1, NotQuote);
      RunEndAll(s, v + 1, NotQuote);
      RunSlice(s, v + 1, close, NotQuote);
    } else {
      var w := RunEnd(s, v, IsSolid);
      RunEndAll(s, v, IsSolid);
      RunSlice(s, v, w, IsSolid);
    }
  }

  /** The word alternative never takes text the directive alternative would
      have matched. */
  lemma WordNotHead(s: string, p: nat)
    requires p < |s| && !IsSpace(s[p]) && !DirectiveHeadAt(s, p)
    ensures !DirectiveHeadAt(s[p..RunEnd(s, p, IsSolid)], 0)
  {
    var w := RunEnd(s, p, IsSolid);
    var t := s[p..w];
    SlicePlaced(s, p, w);
    assert s[p] == t[0];
    if 1 <= |t| {
      var e := RunEnd(t, 1, IsLower);
      RunEndPlaced(s, t, p, 1, IsLower);
      if e < |t| {
        assert s[p + e] == t[e];
      }
    }
  }

  lemma MatchAtShaped(s: string, p: nat)
    requires p < |s| && !IsSpace(s[p])
    ensures Shaped(MatchAt(s, p).0)
  {
    if DirectiveHeadAt(s, p) {
      var e := RunEnd(s, p + 1, IsLower);
      RunEndAll(s, p + 1, IsLower);
      RunSlice(s, p + 1, e, IsLower);
      ValueAtShaped(s, e + 1);
    } else {
      var w := RunEnd(s, p, IsSolid);
      RunEndAll(s, p, IsSolid);
      RunSlice(s, p, w, IsSolid);
      WordNotHead(s, p);
    }
  }

  /** Every match the scanner produces is shaped. */
  lemma {:induction false} TokensShaped(s: string, from: nat)
    ensures forall i :: 0 <= i < |Tokens(s, from)| ==> Shaped(Tokens(s, from)[i])
    decreases |s| - from
  {
    match Exec(s, from)
    case None =>
    case Some(f) =>
      MatchAtShaped(s, f.index);
      TokensStep(s, from);
      TokensShaped(s, f.lastIndex);
  }

  /** A query of blanks only has no match; any other query has one. */
  lemma ScanEmpty(query: string)
    ensures Scan(query) == [] <==> forall i :: 0 <= i < |query| ==> IsSpace(query[i])
  {
    RunEndAll(query, 0, IsSpace);
    var n := RunEnd(query, 0, IsSpace);
    if n < |query| {
      TokensStep(query, 0);
    }
  }

  // ---------------------------------------------------------------------------
  // Rendering tokens back to text, and reading them again.

  /** The text of one match. */
  function RenderToken(t: Match): string {
    match t
    case Word(w) => w
    case Directive(k, Quoted(v)) => "-" + k + ":\"" + v + "\""
    case Directive(k, Unquoted(v)) => "-" + k + ":" + v
  }

  /** Matches written out separated by single spaces. */
  function Render(ts: seq<Match>): string {
    if |ts| == 0 then ""
    else if |ts| == 1 then RenderToken(ts[0])
    else RenderToken(ts[0]) + " " + Render(ts[1..])
  }

  /** A shaped match whose text reads back as itself in any context: an
      unquoted value must not open with a quote, or a closing quote later in
      the query would turn it into a quoted one. */
  predicate WellFormed(t: Match) {
    && Shaped(t)
    && (t.Directive? && t.value.Unquoted? ==> t.value.text == [] || t.value.text[0] != '"')
  }

  /** The text of a word placed in the query, followed by a blank or the end,
      does not start a directive there. */
  lemma PlacedWordNotHead(s: string, p: nat, w: string)
    requires WellFormed(Word(w)) && Placed(s, w, p)
    requires p + |w| == |s| || IsSpace(s[p + |w|])
    ensures !DirectiveHeadAt(s, p)
  {
    assert s[p] == w[0];
    var e := RunEnd(w, 1, IsLower);
    RunEndPlaced(s, w, p, 1, IsLower);
    if e < |w| {
      assert s[p + e] == w[e];
    } else if p + |w| < |s| {
      assert !IsLower(s[p + |w|]);
      RunEndAll(s, p + 1, IsLower);
      assert RunEnd(s, p + 1, IsLower) == p + |w|;
    }
  }

  /** The text of a word in the query is read as that word. */
  lemma MatchAtWord(s: string, p: nat, w: string)
    requires WellFormed(Word(w)) && Placed(s, w, p)
    requires p + |w| == |s| || IsSpace(s[p + |w|])
    ensures MatchAt(s, p) == (Word(w), p + |w|)
  {
    assert s[p] == w[0];
    RunEndIs(s, p, p + |w|, IsSolid);
    assert s[p..p + |w|] == w;
    PlacedWordNotHead(s, p, w);
  }

  /** After `-key:` written at `p`, the directive alternative applies. */
  lemma DirectiveAt(s: string, p: nat, k: string)
    requires |k| > 0 && AllLower(k) && Placed(s, "-" + k + ":", p)
    ensures DirectiveHeadAt(s, p) && RunEnd(s, p + 1, IsLower) == p + 1 + |k|
    ensures s[p + 1..p + 1 + |k|] == k
  {
    var h := "-" + k + ":";
    assert s[p] == h[0];
    assert forall i :: p + 1 <= i < p + 1 + |k| ==> s[i] == h[i - p] == k[i - p - 1];
    assert s[p + 1 + |k|] == h[1 + |k|] == ':';
    RunEndIs(s, p + 1, p + 1 + |k|, IsLower);
    assert s[p + 1..p + 1 + |k|] == k;
  }

  /** A quoted value written at `v` is read as that value. */
  lemma QuotedAt(s: string, v: nat, q: string)
    requires '"' !in q && Placed(s, "\"" + q + "\"", v)
    ensures ValueAt(s, v) == (Quoted(q), v + |q| + 2)
  {
    var t := "\"" + q + "\"";
    assert s[v] == t[0];
    forall i | v + 1 <= i < v + 1 + |q|
      ensures NotQuote(s[i])
    {
      assert s[i] == t[i - v] == q[i - v - 1];
    }
    assert s[v + 1 + |q|] == t[|q| + 1];
    RunEndIs(s, v + 1, v + 1 + |q|, NotQuote);
    forall i | 0 <= i < |q|
      ensures s[v + 1..v + 1 + |q|][i] == q[i]
    {
      assert s[v + 1 + i] == t[i + 1];
    }
    assert s[v + 1..v + 1 + |q|] == q;
  }

  /** An unquoted value written at `v`, not opening with a quote and followed
      by a blank or the end, is read as that value. */
  lemma UnquotedAt(s: string, v: nat, q: string)
    requires NoSpace(q) && (q == [] || q[0] != '"') && Placed(s, q, v)
    requires v + |q| == |s| || IsSpace(s[v + |q|])
    ensures ValueAt(s, v) == (Unquoted(q), v + |q|)
  {
    assert v < |s| ==> s[v] != '"' by {
      if |q| > 0 { assert s[v] == q[0]; }
    }
    forall i | v <= i < v + |q|
      ensures IsSolid(s[i])
    {
      assert s[i] == q[i - v];
    }
    RunEndIs(s, v, v + |q|, IsSolid);
    assert s[v..v + |q|] == q;
  }

  lemma MatchAtQuoted(s: string, p: nat, k: string, q: string)
    requires WellFormed(Directive(k, Quoted(q)))
    requires Placed(s, RenderToken(Directive(k, Quoted(q))), p)
    ensures MatchAt(s, p) == (Directive(k, Quoted(q)), p + |RenderToken(Directive(k, Quoted(q)))|)
  {
    var r := RenderToken(Directive(k, Quoted(q)));
    assert r == ("-" + k + ":") + ("\"" + q + "\"");
    PlacedSplit(s, "-" + k + ":", "\"" + q + "\"", p);
    DirectiveAt(s, p, k);
    QuotedAt(s, p + |k| + 2, q);
  }

  lemma MatchAtUnquoted(s: string, p: nat, k: string, q: string)
    requires WellFormed(Directive(k, Unquoted(q)))
    requires Placed(s, RenderToken(Directive(k, Unquoted(q))), p)
    requires p + |RenderToken(Directive(k, Unquoted(q)))| == |s|
          || IsSpace(s[p + |RenderToken(Directive(k, Unquoted(q)))|])
    ensures MatchAt(s, p) == (Directive(k, Unquoted(q)), p + |RenderToken(Directive(k, Unquoted(q)))|)
  {
    var r := RenderToken(Directive(k, Unquoted(q)));
    assert r == ("-" + k + ":") + q;
    PlacedSplit(s, "-" + k + ":", q, p);
    DirectiveAt(s, p, k);
    UnquotedAt(s, p + |k| + 2, q);
  }

  /** The regex reads a well-formed match back from its text, whatever
      blank-led text follows. */
  lemma MatchAtRendered(s: string, p: nat, t: Match)
    requires WellFormed(t) && Placed(s, RenderToken(t), p)
    requires p + |RenderToken(t)| == |s| || IsSpace(s[p + |RenderToken(t)|])
    ensures |RenderToken(t)| > 0 && !IsSpace(s[p])
    ensures MatchAt(s, p) == (t, p + |RenderToken(t)|)
  {
    match t
    case Word(w) =>
      assert s[p] == w[0];
      MatchAtWord(s, p, w);
    case Directive(k, Quoted(q)) =>
      assert s[p] == RenderToken(t)[0];
      MatchAtQuoted(s, p, k, q);
    case Directive(k, Unquoted(q)) =>
      assert s[p] == RenderToken(t)[0];
      MatchAtUnquoted(s, p, k, q);
  }

  /** A well-formed match written at a position is the next token there. */
  lemma TokensRenderedToken(s: string, p: nat, t: Match)
    requires WellFormed(t) && Placed(s, RenderToken(t), p)
    requires p + |RenderToken(t)| == |s| || IsSpace(s[p + |RenderToken(t)|])
    ensures Tokens(s, p) == [t] + Tokens(s, p + |RenderToken(t)|)
  {
    MatchAtRendered(s, p, t);
    ExecAt(s, p);
    TokensStep(s, p);
  }

  /** A blank between tokens changes nothing. */
  lemma TokensSkipBlank(s: string, k: nat)
    requires k < |s| && IsSpace(s[k])
    ensures Tokens(s, k) == Tokens(s, k + 1)
  {
    ExecSkipsBlank(s, k);
    TokensSameExec(s, k, k + 1);
  }

  /** The rendering of two or more matches is the first one's text, a
      blank, and the rendering of the rest. */
  lemma RenderedSplit(s: string, p: nat, ts: seq<Match>)
    requires |ts| > 1 && (forall i :: 0 <= i < |ts| ==> WellFormed(ts[i]))
    requires Placed(s, Render(ts), p) && p + |Render(ts)| == |s|
    ensures Placed(s, RenderToken(ts[0]), p) && IsSpace(s[p + |RenderToken(ts[0])|])
    ensures Placed(s, Render(ts[1..]), p + |RenderToken(ts[0])| + 1)
    ensures p + |RenderToken(ts[0])| + 1 + |Render(ts[1..])| == |s|
    ensures forall i :: 0 <= i < |ts[1..]| ==> WellFormed(ts[1..][i])
  {
    var r := RenderToken(ts[0]);
    var rest := Render(ts[1..]);
    assert Render(ts) == (r + " ") + rest;
    PlacedSplit(s, r + " ", rest, p);
    PlacedSplit(s, r, " ", p);
  }

  /** The recursive step of reading a rendering back. */
  lemma TokensRenderedCons(s: string, p: nat, ts: seq<Match>)
    requires |ts| > 0 && WellFormed(ts[0]) && Placed(s, RenderToken(ts[0]), p)
    requires p + |RenderToken(ts[0])| < |s| && IsSpace(s[p + |RenderToken(ts[0])|])
    requires Tokens(s, p + |RenderToken(ts[0])| + 1) == ts[1..]
    ensures Tokens(s, p) == ts
  {
    var k := p + |RenderToken(ts[0])|;
    TokensRenderedToken(s, p, ts[0]);
    TokensSkipBlank(s, k);
    assert ts == [ts[0]] + ts[1..];
  }

  /** Reading the rendering of well-formed matches written at the end of a
      query gives back those matches. */
  lemma {:induction false} TokensRendered(s: string, p: nat, ts: seq<Match>)
    requires forall i :: 0 <= i < |ts| ==> WellFormed(ts[i])
    requires Placed(s, Render(ts), p) && p + |Render(ts)| == |s|
    ensures Tokens(s, p) == ts
    decreases |ts|
  {
    if |ts| == 0 {
      ExecAtEnd(s);
    } else if |ts| == 1 {
      TokensRenderedToken(s, p, ts[0]);
      ExecAtEnd(s);
    } else {
      RenderedSplit(s, p, ts);
      TokensRendered(s, p + |RenderToken(ts[0])| + 1, ts[1..]);
      TokensRenderedCons(s, p, ts);
    }
  }

  /** Round trip: the scanner reads back any sequence of well-formed matches
      from their space-separated text. */
  lemma ScanRender(ts: seq<Match>)
    requires forall i :: 0 <= i < |ts| ==> WellFormed(ts[i])
    ensures Scan(Render(ts)) == ts
  {
    TokensRendered(Render(ts), 0, ts);
  }

  /** Visible ASCII text holds no blank. */
  lemma VisibleNoSpace(s: string)
    requires Visible(s)
    ensures NoSpace(s)
  {
  }

  /** A directive head needs a lower-case key: `-Rating:3` is a bare word. */
  lemma UpperCaseKeyIsWord()
    ensures Scan("-Rating:3") == [Word("-Rating:3")]
  {
    var a := "-Rating:3";
    assert RunEnd(a, 1, IsLower) == 1;
    VisibleNoSpace(a);
    assert Render([Word(a)]) == a;
    ScanRender([Word(a)]);
  }

  /** A directive must start its token: `foo-rating:3` is a bare word. */
  lemma EmbeddedKeyIsWord()
    ensures Scan("foo-rating:3") == [Word("foo-rating:3")]
  {
    var b := "foo-rating:3";
    assert !DirectiveHeadAt(b, 0);
    VisibleNoSpace(b);
    assert Render([Word(b)]) == b;
    ScanRender([Word(b)]);
  }
}
