/** The path resolver (src/object+access.ts): split a path on the separator
    and walk one key per segment. */
module Access {
  import opened Values
  import opened Results
  import opened Paths
  import opened ObjectStore

  /** How a walk ended: with a value, on a missing/`undefined`/`null`
      segment, or by indexing `undefined`/`null`, which raises. */
  datatype Walked = Found(value: Value) | Missing | Threw

  /** `v[key]` for a value that can be indexed. Primitives have no keys. */
  function Index(v: Value, key: string): Value {
    match v
    case Obj(m) => if key in m then m[key] else Undef
    case _ => Undef
  }

  /** The loop of `_valueAtNode`: look up one key per segment and stop at the
      first `undefined`/`null`. */
  function Walk(v: Value, segs: seq<string>): (r: Walked)
    ensures r.Threw? <==> |segs| >= 1 && IsNullish(v)
    ensures r.Found? && |segs| >= 1 ==> !IsNullish(r.value)
    decreases |segs|
  {
    if |segs| == 0 then Found(v)
    else if IsNullish(v) then Threw
    else
      var next := Index(v, segs[0]);
      if IsNullish(next) then Missing else Walk(next, segs[1..])
  }

  /** Walking a longer path is walking its first part, then the rest from
      wherever that ended. */
  lemma {:induction false} WalkAppend(v: Value, a: seq<string>, b: seq<string>)
    ensures Walk(v, a + b) ==
              match Walk(v, a)
              case Found(x) => Walk(x, b)
              case Missing => Missing
              case Threw => Threw
    decreases |a|
  {
    if |a| > 0 {
      assert (a + b)[0] == a[0];
      assert (a + b)[1..] == a[1..] + b;
      if !IsNullish(v) && !IsNullish(Index(v, a[0])) {
        WalkAppend(Index(v, a[0]), a[1..], b);
      }
    } else {
      assert a + b == b;
    }
  }

  /** `_valueAtNode(object, path)`: resolution from any object. A failure is
      a result, never an exception: indexing `undefined`/`null` becomes
      `NotIndexable`, every other miss `NoValueAt`. */
  function ResolveIn(obj: Value, path: string, sep: string): (r: Result<Value>)
    ensures r.Success? && |Split(path, sep)| >= 1 ==> !IsNullish(r.value)
    ensures r.Failure? ==> r.error == NoValueAt(path) || r.error == NotIndexable(path)
    ensures r == Failure(NotIndexable(path)) <==> IsNullish(obj) && |Split(path, sep)| >= 1
  {
    match Walk(obj, Split(path, sep))
    case Found(v) => Success(v)
    case Missing => Failure(NoValueAt(path))
    case Threw => Failure(NotIndexable(path))
  }

  /** `valueAtNode(path)`: resolution from the store's root. */
  function ValueAt(s: Store, path: string): Result<Value> {
    ResolveIn(Obj(s.root), path, s.sep)
  }

  /** `booleanAtNode`: succeeds exactly when `valueAtNode` does with a
      boolean; keeps `valueAtNode`'s own failure otherwise. */
  function BooleanAt(s: Store, path: string): (r: Result<bool>)
    ensures r.Success? <==> ValueAt(s, path).Success? && ValueAt(s, path).value.Bool?
    ensures r.Success? ==> Bool(r.value) == ValueAt(s, path).value
    ensures ValueAt(s, path).Failure? ==> r == Failure(ValueAt(s, path).error)
    ensures ValueAt(s, path).Success? && !ValueAt(s, path).value.Bool? ==>
              r == Failure(NoTypeAt("boolean", path))
  {
    match ValueAt(s, path)
    case Success(v) => if v.Bool? then Success(v.b) else Failure(NoTypeAt("boolean", path))
    case Failure(e) => Failure(e)
  }

  /** `numberAtNode`. */
  function NumberAt(s: Store, path: string): (r: Result<int>)
    ensures r.Success? <==> ValueAt(s, path).Success? && ValueAt(s, path).value.Num?
    ensures r.Success? ==> Num(r.value) == ValueAt(s, path).value
    ensures ValueAt(s, path).Failure? ==> r == Failure(ValueAt(s, path).error)
    ensures ValueAt(s, path).Success? && !ValueAt(s, path).value.Num? ==>
              r == Failure(NoTypeAt("number", path))
  {
    match ValueAt(s, path)
    case Success(v) => if v.Num? then Success(v.n) else Failure(NoTypeAt("number", path))
    case Failure(e) => Failure(e)
  }

  /** `stringAtNode`. */
  function StringAt(s: Store, path: string): (r: Result<string>)
    ensures r.Success? <==> ValueAt(s, path).Success? && ValueAt(s, path).value.Str?
    ensures r.Success? ==> Str(r.value) == ValueAt(s, path).value
    ensures ValueAt(s, path).Failure? ==> r == Failure(ValueAt(s, path).error)
    ensures ValueAt(s, path).Success? && !ValueAt(s, path).value.Str? ==>
              r == Failure(NoTypeAt("string", path))
  {
    match ValueAt(s, path)
    case Success(v) => if v.Str? then Success(v.s) else Failure(NoTypeAt("string", path))
    case Failure(e) => Failure(e)
  }

  // ---------------------------------------------------------------------
  // An independent reading of a path

  /** Follow object fields one segment at a time; the raw entry at the end,
      whatever it holds. */
  function Lookup(m: map<string, Value>, segs: seq<string>): Option<Value>
    requires |segs| >= 1
    decreases |segs|
  {
    if segs[0] !in m then None
    else if |segs| == 1 then Some(m[segs[0]])
    else match m[segs[0]]
      case Obj(child) => Lookup(child, segs[1..])
      case _ => None
  }

  lemma {:induction false} WalkIsLookup(m: map<string, Value>, segs: seq<string>)
    requires |segs| >= 1
    ensures Walk(Obj(m), segs) ==
              if Lookup(m, segs).Some? && !IsNullish(Lookup(m, segs).value)
              then Found(Lookup(m, segs).value) else Missing
    decreases |segs|
  {
    if segs[0] in m && |segs| > 1 && m[segs[0]].Obj? {
      WalkIsLookup(m[segs[0]].fields, segs[1..]);
    }
  }

  /** Resolution looks up one key per segment of the split path and, on
      success, returns the entry under the last one; it fails with "no value
      found at <path>" exactly when some entry on the way is missing,
      `undefined` or `null`, or a segment runs into a primitive. */
  lemma ResolveFollowsSegments(s: Store, path: string)
    requires s.sep != "" || path != ""
    ensures var segs := Split(path, s.sep);
            var hit := Lookup(s.root, segs);
            && (ValueAt(s, path).Success? <==> hit.Some? && !IsNullish(hit.value))
            && (ValueAt(s, path).Success? ==> ValueAt(s, path).value == hit.value)
            && (ValueAt(s, path).Failure? ==> ValueAt(s, path) == Failure(NoValueAt(path)))
  {
    WalkIsLookup(s.root, Split(path, s.sep));
  }

  /** A stored `null` or `undefined` reads exactly like an absent key. */
  lemma {:induction false} NullishReadsAsAbsent(m: map<string, Value>, k: string, v: Value, sep: string, path: string)
    requires IsNullish(v)
    requires sep != "" || path != ""
    ensures ValueAt(Store(m[k := v], sep), path) == ValueAt(Store(m - {k}, sep), path)
  {
    var segs := Split(path, sep);
    assert |segs| >= 1;
    if segs[0] != k {
      assert Index(Obj(m[k := v]), segs[0]) == Index(Obj(m - {k}), segs[0]);
    }
  }

  /** The empty path is the single segment "", so it resolves only when the
      root holds a non-`null` value under the key "". */
  lemma EmptyPathNeedsEmptyKey(s: Store)
    requires s.sep != ""
    ensures ValueAt(s, "").Success? <==> "" in s.root && !IsNullish(s.root[""])
  {
    EmptyPathIsOneSegment(s.sep);
    var segs := Split("", s.sep);
    assert segs[1..] == [];
    assert Walk(Obj(s.root), segs) == (if IsNullish(Index(Obj(s.root), "")) then Missing else Found(Index(Obj(s.root), "")));
  }

  /** `empty()` uses the default separator and resolves no path at all. */
  lemma EmptyResolvesNothing(path: string)
    ensures Empty().sep == DefaultSeparator
    ensures ValueAt(Empty(), path) == Failure(NoValueAt(path))
  {
    assert |Split(path, DefaultSeparator)| >= 1;
  }
}
