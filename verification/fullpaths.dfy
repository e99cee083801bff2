/** Flattening a store into full paths: `valuesWithFullPaths` of
    src/object+access.ts. */
module FullPaths {
  import opened Values
  import opened Results
  import opened Paths
  import opened ObjectStore
  import opened Access

  /** The segment lists that lead from `v` to a boolean, number or string.
      `undefined` and `null` entries lead nowhere: the source wraps them with
      `just`, which ignores them, and they flatten to nothing. */
  function Leaves(v: Value): (r: set<seq<string>>)
    ensures forall p | p in r :: |p| >= 1
  {
    match v
    case Obj(m) =>
      (set k | k in m && IsPrimitive(m[k]) :: [k])
      + (set k, p | k in m && p in Leaves(m[k]) :: [k] + p)
    case _ => {}
  }

  /** The separator a call with the optional `separator` argument uses:
      `separator || pathSeparator`, so a missing or empty one falls back to
      the store's own. */
  function EffectiveSep(given: Option<string>, storeSep: string): (r: string)
    ensures given.Some? && given.value != "" ==> r == given.value
    ensures given.None? || given.value == "" ==> r == storeSep
  {
    if given.Some? && given.value != "" then given.value else storeSep
  }

  /** The separator a nested level is flattened with. The nested object is
      wrapped by `just`, whose own separator is the default, so an empty
      separator falls back to "." below the top level. */
  function NestedSep(sep: string): (r: string)
    ensures r != ""
    ensures sep != "" ==> r == sep
  {
    EffectiveSep(Some(sep), DefaultSeparator)
  }

  /** The key a leaf is emitted under: `${key}${sep}${subKey}` level by level. */
  function FullKey(p: seq<string>, sep: string): string
    requires |p| >= 1
    decreases |p|
  {
    if |p| == 1 then p[0] else p[0] + sep + FullKey(p[1..], NestedSep(sep))
  }

  /** The keys of the flattened map. */
  function FlatKeys(m: map<string, Value>, sep: string): set<string> {
    set p | p in Leaves(Obj(m)) :: FullKey(p, sep)
  }

  /** The value under a flattened key: that of a leaf whose full key it is.
      When several leaves share a full key (keys that contain the separator)
      the source keeps the one written last in key order; here it is any of
      them. */
  ghost function FlatValue(m: map<string, Value>, sep: string, key: string): (r: Value)
    requires key in FlatKeys(m, sep)
    ensures exists p | p in Leaves(Obj(m)) :: FullKey(p, sep) == key && Walk(Obj(m), p) == Found(r)
  {
    var p :| p in Leaves(Obj(m)) && FullKey(p, sep) == key;
    LeafReads(Obj(m), p);
    Walk(Obj(m), p).value
  }

  /** `valuesWithFullPaths` of a root with a separator. */
  ghost function Flatten(m: map<string, Value>, sep: string): map<string, Value> {
    map key | key in FlatKeys(m, sep) :: FlatValue(m, sep, key)
  }

  /** `valuesWithFullPaths(separator?)`. */
  ghost function ValuesWithFullPaths(s: Store, given: Option<string>): (r: map<string, Value>)
    ensures forall key | key in r :: IsPrimitive(r[key])
  {
    FlattenPrimitive(s.root, EffectiveSep(given, s.sep));
    Flatten(s.root, EffectiveSep(given, s.sep))
  }

  // ---------------------------------------------------------------------
  // Leaves are the walks that end on a primitive

  lemma {:induction false} LeafReads(v: Value, p: seq<string>)
    requires p in Leaves(v)
    ensures Walk(v, p).Found? && IsPrimitive(Walk(v, p).value)
    decreases |p|
  {
    var m := v.fields;
    var k := p[0];
    assert [k] + p[1..] == p;
    if |p| > 1 {
      var k', q :| k' in m && q in Leaves(m[k']) && p == [k'] + q;
      assert k' == k && q == p[1..];
      LeafReads(m[k], p[1..]);
    }
  }

  lemma {:induction false} ReadLeaf(v: Value, p: seq<string>)
    requires |p| >= 1 && Walk(v, p).Found? && IsPrimitive(Walk(v, p).value)
    ensures p in Leaves(v)
    decreases |p|
  {
    var k := p[0];
    var m := v.fields;
    assert [k] + p[1..] == p;
    assert k in m && Walk(v, p) == Walk(m[k], p[1..]);
    if |p| > 1 {
      ReadLeaf(m[k], p[1..]);
      assert p == [k] + p[1..] && p[1..] in Leaves(m[k]);
      assert p in (set k', q | k' in m && q in Leaves(m[k']) :: [k'] + q);
    } else {
      assert p == [k] && IsPrimitive(m[k]);
      assert p in (set k' | k' in m && IsPrimitive(m[k']) :: [k']);
    }
  }

  /** A segment list is a leaf exactly when walking it ends on a boolean,
      number or string. */
  lemma LeafIffPrimitiveWalk(v: Value, p: seq<string>)
    ensures p in Leaves(v) <==> |p| >= 1 && Walk(v, p).Found? && IsPrimitive(Walk(v, p).value)
  {
    if p in Leaves(v) {
      LeafReads(v, p);
    }
    if |p| >= 1 && Walk(v, p).Found? && IsPrimitive(Walk(v, p).value) {
      ReadLeaf(v, p);
    }
  }

  /** No leaf lies below another: a walk cannot go on through a primitive. */
  lemma LeavesDiverge(v: Value, p: seq<string>, q: seq<string>)
    requires p in Leaves(v) && q in Leaves(v) && p != q
    ensures Diverge(p, q)
  {
    LeafReads(v, p);
    LeafReads(v, q);
    if p <= q {
      PrimitiveEndsWalk(v, p, q);
    } else if q <= p {
      PrimitiveEndsWalk(v, q, p);
    }
  }

  lemma PrimitiveEndsWalk(v: Value, p: seq<string>, q: seq<string>)
    requires p <= q && p != q
    requires Walk(v, p).Found? && IsPrimitive(Walk(v, p).value)
    ensures Walk(v, q) == Missing
  {
    assert q == p + q[|p|..];
    WalkAppend(v, p, q[|p|..]);
  }

  lemma FlattenPrimitive(m: map<string, Value>, sep: string)
    ensures forall key | key in Flatten(m, sep) :: IsPrimitive(Flatten(m, sep)[key])
  {
    forall key | key in Flatten(m, sep)
      ensures IsPrimitive(Flatten(m, sep)[key])
    {
      var p :| p in Leaves(Obj(m)) && FullKey(p, sep) == key && Walk(Obj(m), p) == Found(Flatten(m, sep)[key]);
      LeafReads(Obj(m), p);
    }
  }

  // ---------------------------------------------------------------------
  // Full keys

  /** With a non-empty separator the full key is the plain join. */
  lemma {:induction false} FullKeyIsJoin(p: seq<string>, sep: string)
    requires |p| >= 1 && sep != ""
    ensures FullKey(p, sep) == Join(sep, p)
    decreases |p|
  {
    if |p| > 1 {
      FullKeyIsJoin(p[1..], sep);
    }
  }

  /** A nested entry is emitted as `key + sep + subKey`, where `subKey` is
      its full key inside the nested object. */
  lemma NestedKeyShape(m: map<string, Value>, sep: string, k: string, sub: seq<string>)
    requires k in m && sub in Leaves(m[k])
    ensures [k] + sub in Leaves(Obj(m))
    ensures FullKey([k] + sub, sep) == k + sep + FullKey(sub, NestedSep(sep))
  {
    assert ([k] + sub)[1..] == sub;
  }

  /** Every key of a store's tree, at every depth on the way to a leaf, is
      clean for the separator, so that full keys split back into segments. */
  predicate KeysClean(v: Value, sep: string) {
    forall p | p in Leaves(v) :: AllClean(p, sep)
  }

  // ---------------------------------------------------------------------
  // Flattening and reading agree

  /** Every leaf shows up in the flattened map. */
  lemma LeafFlattens(m: map<string, Value>, sep: string, p: seq<string>)
    requires p in Leaves(Obj(m))
    ensures FullKey(p, sep) in Flatten(m, sep)
  {
  }

  /** If no key contains the separator, a key is in the flattened map with
      value `x` exactly when reading that key from the store yields the
      boolean, number or string `x`. */
  lemma FlattenMatchesReads(m: map<string, Value>, sep: string, key: string)
    requires sep != "" && KeysClean(Obj(m), sep)
    ensures key in Flatten(m, sep) <==>
              ValueAt(Store(m, sep), key).Success? && IsPrimitive(ValueAt(Store(m, sep), key).value)
    ensures key in Flatten(m, sep) ==> ValueAt(Store(m, sep), key) == Success(Flatten(m, sep)[key])
  {
    var segs := Split(key, sep);
    if key in Flatten(m, sep) {
      var p :| p in Leaves(Obj(m)) && FullKey(p, sep) == key && Walk(Obj(m), p) == Found(Flatten(m, sep)[key]);
      FullKeyIsJoin(p, sep);
      SplitJoin(p, sep);
      LeafReads(Obj(m), p);
    }
    if ValueAt(Store(m, sep), key).Success? && IsPrimitive(ValueAt(Store(m, sep), key).value) {
      ReadLeaf(Obj(m), segs);
      FullKeyIsJoin(segs, sep);
      LeafFlattens(m, sep, segs);
    }
  }
}
