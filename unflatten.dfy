/** `unflattenObject`: a flat object whose keys name nested paths with `:`
    becomes a nested object. `key.includes` on an `undefined` key throws a
    `TypeError`, and so does a write into a primitive, because the source runs
    in strict mode (it is an ES module); the model returns the `TypeError` as
    an outcome. Objects are values
    here: the walk down the output keeps the path `target` points to. */
module Unflatten {
  import opened Wrappers
  import opened JsText

  /** The JavaScript values an entry may carry. */
  datatype Value = Str(s: string) | Num(n: int) | Bool(b: bool) | Null | Obj(props: map<string, Value>)

  /** `unflattenObject(obj)` returns an object or throws. */
  datatype Outcome = Done(out: map<string, Value>) | TypeError

  /** JavaScript truthiness: `""`, `0`, `false` and `null` are falsy; every
      object is truthy. */
  predicate Truthy(v: Value) {
    match v
    case Str(s) => s != ""
    case Num(n) => n != 0
    case Bool(b) => b
    case Null => false
    case Obj(_) => true
  }

  // ---------------------------------------------------------------------------
  // `key.split(/:(.+)/)`.

  predicate NotLineTerminator(c: char) {
    !IsLineTerminator(c)
  }

  /** A match of `/:(.+)/` can start at `i`: a `:` followed by at least one
      character that `.` matches. */
  predicate MatchStart(key: string, i: nat) {
    i + 1 < |key| && key[i] == ':' && NotLineTerminator(key[i + 1])
  }

  /** The leftmost match from `from` on, or `|key|` when there is none. */
  function MatchFrom(key: string, from: nat): (i: nat)
    requires from <= |key|
    ensures from <= i <= |key|
    ensures i < |key| ==> MatchStart(key, i)
    ensures forall j :: from <= j < i ==> !MatchStart(key, j)
    decreases |key| - from
  {
    if from == |key| || MatchStart(key, from) then from else MatchFrom(key, from + 1)
  }

  /** `const [index, newKey] = key.split(/:(.+)/)`: the text before the
      leftmost match and the group `(.+)`, which runs to the end of the
      line; `None` when nothing matches and `newKey` is `undefined`. */
  function SplitKey(key: string): (r: Option<(string, string)>)
    ensures r.None? <==> forall j :: 0 <= j < |key| ==> !MatchStart(key, j)
    ensures r.Some? ==> |r.value.0| + |r.value.1| < |key|
  {
    var i := MatchFrom(key, 0);
    if i == |key| then None
    else Some((key[..i], key[i + 1..RunEnd(key, i + 1, NotLineTerminator)]))
  }

  // ---------------------------------------------------------------------------
  // One entry.

  /** The entry `(key, value)` written into `target`: the inner `while`
      loop, then `target[key] = value`. `None` is a `TypeError`. */
  function Assign(target: map<string, Value>, key: string, value: Value): Option<map<string, Value>>
    decreases |key|
  {
    if ':' !in key then Some(target[key := value])
    else match SplitKey(key)
      case None => None
      case Some((index, newKey)) =>
        var child := if index in target && Truthy(target[index]) then target[index] else Obj(map[]);
        if !child.Obj? then None
        else match Assign(child.props, newKey, value)
          case None => None
          case Some(m) => Some(target[index := Obj(m)])
  }

  /** The `for` loop over the first `n` entries. */
  function UnflattenUpTo(entries: seq<(string, Value)>, n: nat): Outcome
    requires n <= |entries|
  {
    if n == 0 then Done(map[])
    else match UnflattenUpTo(entries, n - 1)
      case TypeError => TypeError
      case Done(out) =>
        match Assign(out, entries[n - 1].0, entries[n - 1].1)
        case None => TypeError
        case Some(m) => Done(m)
  }

  /** `unflattenObject` over `Object.entries(obj)`. */
  function Unflatten(entries: seq<(string, Value)>): Outcome {
    UnflattenUpTo(entries, |entries|)
  }

  /** A `TypeError` ends the loop: nothing after it runs. */
  lemma {:induction false} ThrowSticks(entries: seq<(string, Value)>, n: nat, k: nat)
    requires n <= k <= |entries|
    requires UnflattenUpTo(entries, n) == TypeError
    ensures UnflattenUpTo(entries, k) == TypeError
    decreases k - n
  {
    if n < k {
      ThrowSticks(entries, n + 1, k);
    }
  }

  // ---------------------------------------------------------------------------
  // Paths into nested objects.

  /** The object reached from `m` along `path`, when every step is an
      object. */
  function GetAt(m: map<string, Value>, path: seq<string>): Option<map<string, Value>>
    decreases |path|
  {
    if |path| == 0 then Some(m)
    else if path[0] in m && m[path[0]].Obj? then GetAt(m[path[0]].props, path[1..])
    else None
  }

  /** `m` with the object at `path` replaced by `sub`. */
  function PutAt(m: map<string, Value>, path: seq<string>, sub: map<string, Value>): map<string, Value>
    decreases |path|
  {
    if |path| == 0 then sub
    else if path[0] in m && m[path[0]].Obj? then m[path[0] := Obj(PutAt(m[path[0]].props, path[1..], sub))]
    else m
  }

  lemma {:induction false} GetAtSnoc(m: map<string, Value>, path: seq<string>, i: string)
    requires GetAt(m, path).Some?
    ensures var h := GetAt(m, path).value;
      GetAt(m, path + [i]) == if i in h && h[i].Obj? then Some(h[i].props) else None
    decreases |path|
  {
    if |path| > 0 {
      assert (path + [i])[1..] == path[1..] + [i];
      GetAtSnoc(m[path[0]].props, path[1..], i);
    } else {
      assert [i][1..] == [];
    }
  }

  lemma {:induction false} PutAtSnoc(m: map<string, Value>, path: seq<string>, i: string, sub: map<string, Value>)
    requires GetAt(m, path).Some?
    requires var h := GetAt(m, path).value; i in h && h[i].Obj?
    ensures var h := GetAt(m, path).value;
      PutAt(m, path + [i], sub) == PutAt(m, path, h[i := Obj(sub)])
    decreases |path|
  {
    if |path| > 0 {
      assert (path + [i])[1..] == path[1..] + [i];
      PutAtSnoc(m[path[0]].props, path[1..], i, sub);
    } else {
      assert [i][1..] == [];
    }
  }

  lemma {:induction false} GetPut(m: map<string, Value>, path: seq<string>, sub: map<string, Value>)
    requires GetAt(m, path).Some?
    ensures GetAt(PutAt(m, path, sub), path) == Some(sub)
    decreases |path|
  {
    if |path| > 0 {
      GetPut(m[path[0]].props, path[1..], sub);
    }
  }

  lemma {:induction false} PutPut(m: map<string, Value>, path: seq<string>, a: map<string, Value>, b: map<string, Value>)
    requires GetAt(m, path).Some?
    ensures PutAt(PutAt(m, path, a), path, b) == PutAt(m, path, b)
    decreases |path|
  {
    if |path| > 0 {
      PutPut(m[path[0]].props, path[1..], a, b);
    }
  }

  // ---------------------------------------------------------------------------
  // The imperative loop.

  /** What is left of one entry's work with `target` at `path` and `key`
      still to walk: finish the walk there and put the result back. */
  function Resume(out: map<string, Value>, path: seq<string>, key: string, value: Value): Option<map<string, Value>> {
    match GetAt(out, path)
    case None => None
    case Some(here) =>
      match Assign(here, key, value)
      case None => None
      case Some(m) => Some(PutAt(out, path, m))
  }

  /** `Assign` one level down: the walk into the object `child` found or
      created at `index`. */
  lemma AssignDown(here: map<string, Value>, key: string, value: Value, index: string, newKey: string, child: map<string, Value>)
    requires ':' in key && SplitKey(key) == Some((index, newKey))
    requires index in here && Truthy(here[index]) ==> here[index].Obj?
    requires child == if index in here && Truthy(here[index]) then here[index].props else map[]
    ensures Assign(here, key, value) ==
      match Assign(child, newKey, value)
      case None => None
      case Some(m) => Some(here[index := Obj(m)])
  {
  }

  /** One step of the inner loop when the child at `index` is an object to
      descend into. */
  lemma DescendStep(out: map<string, Value>, path: seq<string>, key: string, value: Value, index: string, newKey: string)
    requires ':' in key && SplitKey(key) == Some((index, newKey))
    requires GetAt(out, path).Some?
    requires var here := GetAt(out, path).value; index in here && Truthy(here[index]) && here[index].Obj?
    ensures GetAt(out, path + [index]).Some?
    ensures Resume(out, path + [index], newKey, value) == Resume(out, path, key, value)
  {
    var here := GetAt(out, path).value;
    GetAtSnoc(out, path, index);
    AssignDown(here, key, value, index, newKey, here[index].props);
    match Assign(here[index].props, newKey, value)
    case None =>
    case Some(m) =>
      PutAtSnoc(out, path, index, m);
  }

  /** One step of the inner loop when the child at `index` is missing or
      falsy and `target[index] = {}` replaces it. */
  lemma CreateStep(out: map<string, Value>, path: seq<string>, key: string, value: Value, index: string, newKey: string)
    requires ':' in key && SplitKey(key) == Some((index, newKey))
    requires GetAt(out, path).Some?
    requires var here := GetAt(out, path).value; !(index in here && Truthy(here[index]))
    ensures var here := GetAt(out, path).value;
      var out' := PutAt(out, path, here[index := Obj(map[])]);
      GetAt(out', path + [index]).Some? &&
      Resume(out', path + [index], newKey, value) == Resume(out, path, key, value)
  {
    var here := GetAt(out, path).value;
    var here' := here[index := Obj(map[])];
    var out' := PutAt(out, path, here');
    GetPut(out, path, here');
    GetAtSnoc(out', path, index);
    AssignDown(here, key, value, index, newKey, map[]);
    match Assign(map[], newKey, value)
    case None =>
    case Some(m) =>
      PutAtSnoc(out', path, index, m);
      PutPut(out, path, here', here'[index := Obj(m)]);
      assert here'[index := Obj(m)] == here[index := Obj(m)];
  }

  /** `unflattenObject(obj)` for `Object.entries(obj) == entries`: the
      `for` loop over the entries, the inner `while` loop walking `target`
      down the output. */
  method UnflattenObject(entries: seq<(string, Value)>) returns (r: Outcome)
    ensures r == Unflatten(entries)
  {
    var out: map<string, Value> := map[];
    for n := 0 to |entries|
      invariant UnflattenUpTo(entries, n) == Done(out)
    {
      var key, value := entries[n].0, entries[n].1;
      var target: seq<string> := [];
      ghost var start := out;
      while ':' in key
        invariant GetAt(out, target).Some?
        invariant Resume(out, target, key, value) == Assign(start, entries[n].0, value)
        decreases |key|
      {
        var split := SplitKey(key);
        if split.None? {
          // `newKey` is `undefined`: the next `key.includes` throws.
          ThrowSticks(entries, n + 1, |entries|);
          return TypeError;
        }
        var index, newKey := split.value.0, split.value.1;
        var here := GetAt(out, target).value;
        if index in here && Truthy(here[index]) {
          if !here[index].Obj? {
            // A truthy primitive: the walk can only end in a write into it.
            ThrowSticks(entries, n + 1, |entries|);
            return TypeError;
          }
          DescendStep(out, target, key, value, index, newKey);
        } else {
          CreateStep(out, target, key, value, index, newKey);
          out := PutAt(out, target, here[index := Obj(map[])]);
        }
        target := target + [index];
        key := newKey;
      }
      var here := GetAt(out, target).value;
      out := PutAt(out, target, here[key := value]);
    }
    return Done(out);
  }

  // ---------------------------------------------------------------------------
  // What an entry writes, and where.

  /** The path an entry's key names: the `index` of each step, then the key
      written last; `None` when the walk meets a key that `/:(.+)/` does not
      split. */
  function Path(key: string): (r: Option<seq<string>>)
    ensures r.Some? ==> |r.value| > 0
    decreases |key|
  {
    if ':' !in key then Some([key])
    else match SplitKey(key)
      case None => None
      case Some((index, newKey)) =>
        match Path(newKey)
        case None => None
        case Some(p) => Some([index] + p)
  }

  /** The value at a non-empty path, when every step but the last is an
      object. */
  function Lookup(m: map<string, Value>, path: seq<string>): Option<Value>
    decreases |path|
  {
    if |path| == 0 || path[0] !in m then None
    else if |path| == 1 then Some(m[path[0]])
    else if m[path[0]].Obj? then Lookup(m[path[0]].props, path[1..])
    else None
  }

  /** Two paths part somewhere: neither is a prefix of the other. */
  predicate Diverge(p: seq<string>, q: seq<string>)
    decreases |p|
  {
    |p| > 0 && |q| > 0 && (p[0] != q[0] || Diverge(p[1..], q[1..]))
  }

  /** A write that succeeds leaves the value at its key's path. */
  lemma {:induction false} AssignSets(target: map<string, Value>, key: string, value: Value)
    requires Assign(target, key, value).Some?
    ensures Path(key).Some?
    ensures Lookup(Assign(target, key, value).value, Path(key).value) == Some(value)
    decreases |key|
  {
    if ':' in key {
      var (index, newKey) := SplitKey(key).value;
      var child := if index in target && Truthy(target[index]) then target[index] else Obj(map[]);
      AssignSets(child.props, newKey, value);
      var p := Path(newKey).value;
      assert ([index] + p)[1..] == p;
    }
  }

  /** A write changes nothing at a path that parts from its own. */
  lemma {:induction false} AssignFrame(target: map<string, Value>, key: string, value: Value, q: seq<string>)
    requires Assign(target, key, value).Some?
    requires Path(key).Some? && Diverge(Path(key).value, q)
    ensures Lookup(Assign(target, key, value).value, q) == Lookup(target, q)
    decreases |key|
  {
    if ':' in key {
      var (index, newKey) := SplitKey(key).value;
      var child := if index in target && Truthy(target[index]) then target[index] else Obj(map[]);
      var p := Path(newKey).value;
      assert ([index] + p)[0] == index && ([index] + p)[1..] == p;
      if q[0] == index {
        assert Diverge(p, q[1..]);
        AssignFrame(child.props, newKey, value, q[1..]);
        if |q| > 1 && !(index in target && Truthy(target[index])) && index in target {
          // The falsy value `{}` replaced was no object to look into.
          assert !target[index].Obj?;
        }
      }
    }
  }

  /** An entry whose key never splits makes the whole call throw. */
  lemma AssignNoPath(target: map<string, Value>, key: string, value: Value)
    requires Path(key).None?
    ensures Assign(target, key, value).None?
  {
    if Assign(target, key, value).Some? {
      AssignSets(target, key, value);
    }
  }

  // ---------------------------------------------------------------------------
  // The whole object.

  /** Every prefix of the entries of a call that returns ran without
      throwing. */
  lemma DoneBefore(entries: seq<(string, Value)>, m: nat, n: nat)
    requires m <= n <= |entries|
    requires UnflattenUpTo(entries, n).Done?
    ensures UnflattenUpTo(entries, m).Done?
  {
    if UnflattenUpTo(entries, m).TypeError? {
      ThrowSticks(entries, m, n);
    }
  }

  lemma {:induction false} KeptUpTo(entries: seq<(string, Value)>, j: nat, n: nat, p: seq<string>)
    requires j < n <= |entries|
    requires UnflattenUpTo(entries, n).Done?
    requires Path(entries[j].0) == Some(p)
    requires forall k :: j < k < |entries| ==> Path(entries[k].0).Some? && Diverge(Path(entries[k].0).value, p)
    ensures Lookup(UnflattenUpTo(entries, n).out, p) == Some(entries[j].1)
    decreases n
  {
    DoneBefore(entries, n - 1, n);
    var before := UnflattenUpTo(entries, n - 1).out;
    var (key, value) := entries[n - 1];
    if n - 1 == j {
      AssignSets(before, key, value);
    } else {
      KeptUpTo(entries, j, n - 1, p);
      AssignFrame(before, key, value, p);
    }
  }

  /** The last write wins: the value an entry wrote stays at its path
      unless a later entry writes at, above or below that path. */
  lemma LastWriteWins(entries: seq<(string, Value)>, j: nat)
    requires j < |entries| && Unflatten(entries).Done?
    ensures Path(entries[j].0).Some?
    ensures (forall k :: j < k < |entries| ==> Path(entries[k].0).Some? && Diverge(Path(entries[k].0).value, Path(entries[j].0).value))
      ==> Lookup(Unflatten(entries).out, Path(entries[j].0).value) == Some(entries[j].1)
  {
    DoneBefore(entries, j + 1, |entries|);
    DoneBefore(entries, j, |entries|);
    AssignSets(UnflattenUpTo(entries, j).out, entries[j].0, entries[j].1);
    var p := Path(entries[j].0).value;
    if forall k :: j < k < |entries| ==> Path(entries[k].0).Some? && Diverge(Path(entries[k].0).value, p) {
      KeptUpTo(entries, j, |entries|, p);
    }
  }

  /** `Object.assign({}, obj)` over the first `n` entries: a shallow copy. */
  function CopiedUpTo(entries: seq<(string, Value)>, n: nat): map<string, Value>
    requires n <= |entries|
  {
    if n == 0 then map[] else CopiedUpTo(entries, n - 1)[entries[n - 1].0 := entries[n - 1].1]
  }

  /** Keys without `:` are copied as they are. */
  lemma {:induction false} ColonFreeCopies(entries: seq<(string, Value)>, n: nat)
    requires n <= |entries|
    requires forall i :: 0 <= i < |entries| ==> ':' !in entries[i].0
    ensures UnflattenUpTo(entries, n) == Done(CopiedUpTo(entries, n))
  {
    if n > 0 {
      ColonFreeCopies(entries, n - 1);
    }
  }

  /** The shallow copy holds exactly the keys of the entries. */
  lemma {:induction false} CopiedKeys(entries: seq<(string, Value)>, n: nat, k: string)
    requires n <= |entries|
    ensures k in CopiedUpTo(entries, n) <==> exists i :: 0 <= i < n && entries[i].0 == k
  {
    if n > 0 {
      CopiedKeys(entries, n - 1, k);
    }
  }

  /** Each key of the shallow copy holds the value of its last entry. */
  lemma {:induction false} CopiedLast(entries: seq<(string, Value)>, n: nat, i: nat)
    requires i < n <= |entries|
    requires forall l :: i < l < n ==> entries[l].0 != entries[i].0
    ensures entries[i].0 in CopiedUpTo(entries, n)
    ensures CopiedUpTo(entries, n)[entries[i].0] == entries[i].1
  {
    if i < n - 1 {
      CopiedLast(entries, n - 1, i);
    }
  }

  // ---------------------------------------------------------------------------
  // Keys that end in `:`.

  predicate EndsInColon(key: string) {
    |key| > 0 && key[|key| - 1] == ':'
  }

  /** Without line terminators the group `(.+)` runs to the end of the key. */
  lemma RunToEnd(key: string, i: nat)
    requires i <= |key| && !HasLineTerminator(key)
    ensures RunEnd(key, i, NotLineTerminator) == |key|
  {
    RunEndIs(key, i, |key|, NotLineTerminator);
  }

  /** Without line terminators a split cuts the key at one `:`. */
  lemma SplitWhole(key: string, index: string, newKey: string)
    requires !HasLineTerminator(key) && SplitKey(key) == Some((index, newKey))
    ensures key == index + ":" + newKey && |newKey| > 0
  {
    var i := MatchFrom(key, 0);
    RunToEnd(key, i + 1);
    assert key == key[..i] + ":" + key[i + 1..];
  }

  /** A key that ends in `:` never splits all the way down. */
  lemma {:induction false} ColonEndNoPath(key: string)
    requires EndsInColon(key) && !HasLineTerminator(key)
    ensures Path(key).None?
    decreases |key|
  {
    assert key[|key| - 1] in key;
    match SplitKey(key)
    case None =>
    case Some((index, newKey)) =>
      SplitWhole(key, index, newKey);
      assert newKey[|newKey| - 1] == key[|key| - 1];
      assert !HasLineTerminator(newKey) by {
        forall c | 0 <= c < |newKey| ensures !IsLineTerminator(newKey[c]) {
          assert newKey[c] == key[|index| + 1 + c];
        }
      }
      ColonEndNoPath(newKey);
  }

  /** An entry whose key ends in `:` makes `unflattenObject` throw. */
  lemma ColonEndThrows(entries: seq<(string, Value)>, j: nat)
    requires j < |entries| && EndsInColon(entries[j].0) && !HasLineTerminator(entries[j].0)
    ensures Unflatten(entries) == TypeError
  {
    ColonEndNoPath(entries[j].0);
    if UnflattenUpTo(entries, j).Done? {
      AssignNoPath(UnflattenUpTo(entries, j).out, entries[j].0, entries[j].1);
    } else {
      ThrowSticks(entries, j, j + 1);
    }
    ThrowSticks(entries, j + 1, |entries|);
  }

  /** Without line terminators a key maps to a path exactly when it does
      not end in `:`, and joining that path with `:` gives the key back. */
  lemma {:induction false} PathJoin(key: string)
    requires !HasLineTerminator(key)
    ensures Path(key).Some? <==> !EndsInColon(key)
    ensures Path(key).Some? ==> Join(Path(key).value, ":") == key
    decreases |key|
  {
    if EndsInColon(key) {
      ColonEndNoPath(key);
    } else if ':' in key {
      var c := IndexOf(key, ':');
      assert MatchStart(key, c) by {
        assert c + 1 < |key|;
      }
      match SplitKey(key)
      case Some((index, newKey)) =>
        SplitWhole(key, index, newKey);
        assert !HasLineTerminator(newKey) && !EndsInColon(newKey) by {
          forall d | 0 <= d < |newKey| ensures newKey[d] == key[|index| + 1 + d] {
          }
        }
        PathJoin(newKey);
        var p := Path(newKey).value;
        assert ([index] + p)[1..] == p;
    }
  }

  // ---------------------------------------------------------------------------
  // The example in the source's comment.

  /** The leftmost match is the first `:` that starts one. */
  lemma {:induction false} MatchFromIs(key: string, from: nat, i: nat)
    requires from <= i < |key| && MatchStart(key, i)
    requires forall j :: from <= j < i ==> !MatchStart(key, j)
    ensures MatchFrom(key, from) == i
    decreases i - from
  {
    if from < i {
      MatchFromIs(key, from + 1, i);
    }
  }

  /** `index:newKey` splits at the `:` after `index` when `index` holds none. */
  lemma SplitAt(index: string, newKey: string)
    requires ':' !in index && |newKey| > 0 && !HasLineTerminator(newKey)
    ensures SplitKey(index + ":" + newKey) == Some((index, newKey))
  {
    var key := index + ":" + newKey;
    var i := |index|;
    assert key[i] == ':' && key[i + 1] == newKey[0];
    forall j | 0 <= j < i ensures !MatchStart(key, j) {
      assert key[j] == index[j];
    }
    MatchFromIs(key, 0, i);
    forall k | i + 1 <= k < |key| ensures NotLineTerminator(key[k]) {
      assert key[k] == newKey[k - i - 1];
    }
    RunEndIs(key, i + 1, |key|, NotLineTerminator);
    assert key[..i] == index && key[i + 1..|key|] == newKey;
  }

  /** A two-level key `index:name` writes `name` inside the object at
      `index`, which it creates when there is none. */
  lemma AssignTwoLevels(target: map<string, Value>, index: string, name: string, value: Value)
    requires ':' !in index && ':' !in name && |name| > 0 && !HasLineTerminator(name)
    requires index in target ==> target[index].Obj?
    ensures Assign(target, index + ":" + name, value) ==
      Some(target[index := Obj((if index in target then target[index].props else map[])[name := value])])
  {
    SplitAt(index, name);
    assert ':' in index + ":" + name by {
      assert (index + ":" + name)[|index|] == ':';
    }
  }

  /** The `for` loop's step over entry `n - 1`. */
  lemma UnflattenStep(entries: seq<(string, Value)>, n: nat, before: map<string, Value>, after: map<string, Value>)
    requires 0 < n <= |entries|
    requires UnflattenUpTo(entries, n - 1) == Done(before)
    requires Assign(before, entries[n - 1].0, entries[n - 1].1) == Some(after)
    ensures UnflattenUpTo(entries, n) == Done(after)
  {
  }

  /** The example's key spellings. */
  lemma ExampleKeys()
    ensures "bar:one" == "bar" + ":" + "one" && "bar:two" == "bar" + ":" + "two"
    ensures ':' !in "foo" && ':' !in "bar" && ':' !in "one" && ':' !in "two"
    ensures !HasLineTerminator("one") && !HasLineTerminator("two")
  {
  }

  /** The example's output once the second write to `bar` replaced the first. */
  lemma ExampleOutput(m1: map<string, Value>, m2: map<string, Value>, m3: map<string, Value>)
    requires m1 == map["foo" := Str("A")]
    requires m2 == m1["bar" := Obj(map["one" := Str("B")])]
    requires m3 == m2["bar" := Obj(map["one" := Str("B")]["two" := Str("C")])]
    ensures m3 == map["foo" := Str("A"), "bar" := Obj(map["one" := Str("B"), "two" := Str("C")])]
  {
  }

  /** `{'foo': 'A', 'bar:one': 'B', 'bar:two': 'C'}` becomes
      `{'foo': 'A', 'bar': {'one': 'B', 'two': 'C'}}`. */
  lemma CommentExample()
    ensures Unflatten([("foo", Str("A")), ("bar:one", Str("B")), ("bar:two", Str("C"))])
      == Done(map["foo" := Str("A"), "bar" := Obj(map["one" := Str("B"), "two" := Str("C")])])
  {
    var entries := [("foo", Str("A")), ("bar:one", Str("B")), ("bar:two", Str("C"))];
    ExampleKeys();
    var m1 := map["foo" := Str("A")];
    UnflattenStep(entries, 1, map[], m1);
    AssignTwoLevels(m1, "bar", "one", Str("B"));
    var m2 := m1["bar" := Obj(map["one" := Str("B")])];
    UnflattenStep(entries, 2, m1, m2);
    AssignTwoLevels(m2, "bar", "two", Str("C"));
    var m3 := m2["bar" := Obj(map["one" := Str("B")]["two" := Str("C")])];
    UnflattenStep(entries, 3, m2, m3);
    ExampleOutput(m1, m2, m3);
  }
}
