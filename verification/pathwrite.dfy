/** The write walk of `_mappingValue` (src/object+modify.ts): every
    mutation of the store goes through it. */
module PathWrite {
  import opened Values
  import opened Paths
  import opened Access
  import opened FullPaths

  /** `currentResult[subpath]` on an object. */
  function Current(m: map<string, Value>, k: string): Value {
    if k in m then m[k] else Undef
  }

  /** The object a write goes on through. A missing, `undefined` or `null`
      entry, and a primitive (which is not extensible), are replaced by a
      new empty object; an object is shallow-copied. */
  function Descend(v: Value): map<string, Value> {
    if v.Obj? then ShallowCloneObject(v.fields) else map[]
  }

  /** The effect of the map function's answer on the last key: the delete
      marker removes the key, anything else is stored (shallow-cloned). */
  function Apply(m: map<string, Value>, k: string, w: Write): map<string, Value> {
    match ShallowClone(w)
    case Delete => m - {k}
    case Put(x) => m[k := x]
  }

  /** The map function that ignores its argument: `() => value`. */
  function Constant(w: Write): Value -> Write {
    _ => w
  }

  /** The loop of `_mappingValue` over the segments of a path: replace or
      copy every intermediate object, then apply `f` to the entry under the
      last segment. Entries under other top-level keys are left as they
      were; an empty segment list changes nothing. */
  function MapAt(m: map<string, Value>, segs: seq<string>, f: Value -> Write): (r: map<string, Value>)
    ensures forall k | k in m && (|segs| == 0 || k != segs[0]) :: k in r && r[k] == m[k]
    ensures forall k | k in r && (|segs| == 0 || k != segs[0]) :: k in m
    ensures |segs| >= 2 ==> segs[0] in r && r[segs[0]].Obj?
    decreases |segs|
  {
    if |segs| == 0 then m
    else if |segs| == 1 then Apply(m, segs[0], f(Current(m, segs[0])))
    else m[segs[0] := Obj(MapAt(Descend(Current(m, segs[0])), segs[1..], f))]
  }

  /** The entry `f` is applied to: what sits under the last segment once
      the intermediate objects have been replaced or copied. */
  function Reached(m: map<string, Value>, segs: seq<string>): Value
    requires |segs| >= 1
    decreases |segs|
  {
    if |segs| == 1 then Current(m, segs[0])
    else Reached(Descend(Current(m, segs[0])), segs[1..])
  }

  /** How reading a value back ends: `undefined` and `null` read as nothing. */
  function Settle(v: Value): Walked {
    if IsNullish(v) then Missing else Found(v)
  }

  /** What a walk `t` further down from a freshly written entry finds. */
  function Written(w: Write, t: seq<string>): Walked {
    match w
    case Delete => Missing
    case Put(x) => if IsNullish(x) then Missing else Walk(x, t)
  }

  // ---------------------------------------------------------------------
  // Reading after a write

  lemma {:induction false} ReachedInEmpty(segs: seq<string>)
    requires |segs| >= 1
    ensures Reached(map[], segs) == Undef
    decreases |segs|
  {
    if |segs| > 1 {
      ReachedInEmpty(segs[1..]);
    }
  }

  /** The entry the map function receives is the one a read of the same
      path resolves to, with every failed read handing it `undefined` or
      `null`. */
  lemma {:induction false} ReachedIsRead(m: map<string, Value>, q: seq<string>)
    requires |q| >= 1
    ensures Walk(Obj(m), q) == Settle(Reached(m, q))
    decreases |q|
  {
    var c := Current(m, q[0]);
    assert Index(Obj(m), q[0]) == c;
    if |q| > 1 {
      if c.Obj? {
        ReachedIsRead(c.fields, q[1..]);
      } else {
        ReachedInEmpty(q[1..]);
      }
    }
  }

  /** After a write at `q`, everything at and below `q` is what the map
      function answered: nothing after a delete or an `undefined`/`null`,
      otherwise the written value and its own entries. */
  lemma {:induction false} WriteReadBelow(m: map<string, Value>, q: seq<string>, t: seq<string>, f: Value -> Write)
    requires |q| >= 1
    ensures Walk(Obj(MapAt(m, q, f)), q + t) == Written(f(Reached(m, q)), t)
    decreases |q|
  {
    var k := q[0];
    assert (q + t)[0] == k;
    assert (q + t)[1..] == q[1..] + t;
    if |q| > 1 {
      WriteReadBelow(Descend(Current(m, k)), q[1..], t, f);
    }
  }

  /** One step of a walk from an object. */
  lemma WalkObj(m: map<string, Value>, p: seq<string>)
    requires |p| >= 1
    ensures Walk(Obj(m), p) == if IsNullish(Current(m, p[0])) then Missing else Walk(Current(m, p[0]), p[1..])
  {
  }

  lemma WalkNone(v: Value)
    ensures Walk(v, []) == Found(v)
  {
  }

  /** Only an object has anything below it. */
  lemma WalkPrimitive(v: Value, p: seq<string>)
    requires |p| >= 1 && !v.Obj?
    ensures !Walk(v, p).Found?
  {
  }

  lemma WalkEmptyObject(p: seq<string>)
    requires |p| >= 1
    ensures Walk(Obj(map[]), p) == Missing
  {
  }

  /** A write at `q` leaves every path that parts ways with `q` reading as
      before. */
  lemma {:induction false} WriteFrame(m: map<string, Value>, q: seq<string>, p: seq<string>, f: Value -> Write)
    requires |q| >= 1 && |p| >= 1 && Diverge(p, q)
    ensures Walk(Obj(MapAt(m, q, f)), p) == Walk(Obj(m), p)
    decreases |q|
  {
    var k := q[0];
    var r := MapAt(m, q, f);
    WalkObj(m, p);
    WalkObj(r, p);
    if p[0] == k {
      assert p == [k] + p[1..] && q == [k] + q[1..];
      assert |p| >= 2 && |q| >= 2;
      assert Diverge(p[1..], q[1..]);
      var c := Current(m, k);
      assert Current(r, k) == Obj(MapAt(Descend(c), q[1..], f));
      hide Walk, MapAt;
      WriteFrame(Descend(c), q[1..], p[1..], f);
      if c.Obj? {
        assert Descend(c) == c.fields;
      } else {
        WalkEmptyObject(p[1..]);
      }
    } else {
      assert Current(r, p[0]) == Current(m, p[0]);
    }
  }


  /** A write at `q` leaves an object at every proper prefix of `q`. */
  lemma {:induction false} WritePrefixIsObject(m: map<string, Value>, q: seq<string>, p: seq<string>, f: Value -> Write)
    requires 1 <= |p| < |q| && p <= q
    ensures Walk(Obj(MapAt(m, q, f)), p).Found?
    ensures Walk(Obj(MapAt(m, q, f)), p).value.Obj?
    decreases |q|
  {
    if |p| > 1 {
      assert p[1..] <= q[1..];
      WritePrefixIsObject(Descend(Current(m, q[0])), q[1..], p[1..], f);
    }
  }

  /** A write below a path that holds an object shows, at that path, as the
      same write applied inside the object. */
  lemma {:induction false} WriteInside(m: map<string, Value>, a: seq<string>, b: seq<string>, g: map<string, Value>, f: Value -> Write)
    requires |a| >= 1 && |b| >= 1 && Walk(Obj(m), a) == Found(Obj(g))
    ensures Walk(Obj(MapAt(m, a + b, f)), a) == Found(Obj(MapAt(g, b, f)))
    decreases |a|
  {
    var k := a[0];
    assert (a + b)[0] == k;
    assert (a + b)[1..] == a[1..] + b;
    var c := Current(m, k);
    var r := MapAt(m, a + b, f);
    assert Current(r, k) == Obj(MapAt(Descend(c), a[1..] + b, f));
    WalkObj(m, a);
    WalkObj(r, a);
    hide Walk, MapAt;
    if |a| == 1 {
      WalkNone(c);
      WalkNone(Obj(MapAt(Descend(c), a[1..] + b, f)));
      assert c == Obj(g);
      assert a[1..] + b == b;
      assert Descend(c) == g;
    } else {
      if !c.Obj? {
        WalkPrimitive(c, a[1..]);
      }
      assert Descend(c) == c.fields;
      WriteInside(c.fields, a[1..], b, g, f);
    }
  }


  /** Writing the value a path already holds gives back the same object. */
  lemma {:induction false} WriteSameIsIdentity(m: map<string, Value>, q: seq<string>, x: Value)
    requires |q| >= 1 && Walk(Obj(m), q) == Found(x)
    ensures MapAt(m, q, Constant(Put(x))) == m
    decreases |q|
  {
    var k := q[0];
    var c := Current(m, k);
    assert Index(Obj(m), k) == c;
    if |q| > 1 {
      assert Descend(c) == c.fields;
      WriteSameIsIdentity(c.fields, q[1..], x);
      assert m[k := c] == m;
    }
  }

  /** Writing a boolean, number or string at `q` makes `q` a leaf and drops
      exactly the leaves at or below `q` and those through its prefixes. */
  lemma LeavesAfterPut(m: map<string, Value>, q: seq<string>, x: Value)
    requires |q| >= 1 && IsPrimitive(x)
    ensures Leaves(Obj(MapAt(m, q, Constant(Put(x))))) ==
              (set p | p in Leaves(Obj(m)) && Diverge(p, q)) + {q}
  {
    var f := Constant(Put(x));
    var after := Obj(MapAt(m, q, f));
    forall p ensures p in Leaves(after) <==> (p in Leaves(Obj(m)) && Diverge(p, q)) || p == q {
      LeafIffPrimitiveWalk(after, p);
      LeafIffPrimitiveWalk(Obj(m), p);
      if |p| >= 1 && Diverge(p, q) {
        WriteFrame(m, q, p, f);
      } else if q <= p {
        var t := p[|q|..];
        assert p == q + t;
        WriteReadBelow(m, q, t, f);
        if |t| > 0 {
          assert Walk(x, t) == Missing;
        }
      } else if |p| >= 1 {
        assert p <= q;
        WritePrefixIsObject(m, q, p, f);
      }
    }
  }

  /** Constant writes of `xs[i]` at `qs[i]`, in order. */
  function PutAll(m: map<string, Value>, qs: seq<seq<string>>, xs: seq<Value>): map<string, Value>
    requires |qs| == |xs|
    decreases |qs|
  {
    if |qs| == 0 then m
    else
      var n := |qs| - 1;
      MapAt(PutAll(m, qs[..n], xs[..n]), qs[n], Constant(Put(xs[n])))
  }

  lemma PutAllUnfolds(m: map<string, Value>, qs: seq<seq<string>>, xs: seq<Value>)
    requires |qs| == |xs| > 0
    ensures PutAll(m, qs, xs) == MapAt(PutAll(m, qs[..|qs| - 1], xs[..|qs| - 1]), qs[|qs| - 1], Constant(Put(xs[|qs| - 1])))
  {
  }
  /** Segment lists, none empty, that pairwise part ways. */
  predicate Separate(qs: seq<seq<string>>) {
    && (forall i | 0 <= i < |qs| :: |qs[i]| >= 1)
    && (forall i, j | 0 <= i < j < |qs| :: Diverge(qs[i], qs[j]))
  }

  lemma SeparatePrefix(qs: seq<seq<string>>, n: nat)
    requires Separate(qs) && n <= |qs|
    ensures Separate(qs[..n])
  {
    assert forall i | 0 <= i < n :: qs[..n][i] == qs[i];
  }

  lemma PutAllStepLeaves(m: map<string, Value>, qs: seq<seq<string>>, xs: seq<Value>)
    requires |qs| == |xs| >= 1 && Separate(qs) && IsPrimitive(xs[|qs| - 1])
    requires Leaves(Obj(m)) == (set k | 0 <= k < |qs| - 1 :: qs[k])
    ensures Leaves(Obj(MapAt(m, qs[|qs| - 1], Constant(Put(xs[|qs| - 1]))))) == (set q | q in qs)
  {
    var n := |qs| - 1;
    var q := qs[n];
    LeavesAfterPut(m, q, xs[n]);
    hide Leaves, MapAt;
    forall p | p in qs ensures p in Leaves(Obj(MapAt(m, q, Constant(Put(xs[n]))))) {
      var i :| 0 <= i < |qs| && qs[i] == p;
      if i < n {
        assert p in (set k | 0 <= k < n :: qs[k]);
        assert Diverge(p, q);
      }
    }
  }

  lemma PutAllStepWalks(m: map<string, Value>, qs: seq<seq<string>>, xs: seq<Value>, i: nat)
    requires |qs| == |xs| >= 1 && Separate(qs) && i < |qs| && IsPrimitive(xs[|qs| - 1])
    requires i < |qs| - 1 ==> Walk(Obj(m), qs[i]) == Found(xs[i])
    ensures Walk(Obj(MapAt(m, qs[|qs| - 1], Constant(Put(xs[|qs| - 1])))), qs[i]) == Found(xs[i])
  {
    var n := |qs| - 1;
    var q := qs[n];
    var f := Constant(Put(xs[n]));
    if i < n {
      WriteFrame(m, q, qs[i], f);
    } else {
      assert q + [] == q;
      WriteReadBelow(m, q, [], f);
    }
  }

  lemma PutAllStep(m: map<string, Value>, qs: seq<seq<string>>, xs: seq<Value>)
    requires |qs| == |xs| >= 1 && Separate(qs)
    requires forall i | 0 <= i < |xs| :: IsPrimitive(xs[i])
    requires var n := |qs| - 1;
             && Leaves(Obj(m)) == (set q | q in qs[..n])
             && forall i | 0 <= i < n :: Walk(Obj(m), qs[i]) == Found(xs[i])
    ensures var after := MapAt(m, qs[|qs| - 1], Constant(Put(xs[|qs| - 1])));
            && Leaves(Obj(after)) == (set q | q in qs)
            && forall i | 0 <= i < |qs| :: Walk(Obj(after), qs[i]) == Found(xs[i])
  {
    var n := |qs| - 1;
    assert (set q | q in qs[..n]) == (set k | 0 <= k < n :: qs[k]) by {
      forall q | q in qs[..n] ensures q in (set k | 0 <= k < n :: qs[k]) {
        var k :| 0 <= k < n && qs[..n][k] == q;
      }
    }
    PutAllStepLeaves(m, qs, xs);
    forall i | 0 <= i < |qs|
      ensures Walk(Obj(MapAt(m, qs[|qs| - 1], Constant(Put(xs[|qs| - 1])))), qs[i]) == Found(xs[i])
    {
      PutAllStepWalks(m, qs, xs, i);
    }
  }


  /** Writing primitives, into an empty root, at segment lists that pairwise
      part ways leaves exactly those lists as leaves, each holding its value. */
  lemma {:induction false} PutAllLeaves(qs: seq<seq<string>>, xs: seq<Value>)
    requires |qs| == |xs| && Separate(qs)
    requires forall i | 0 <= i < |xs| :: IsPrimitive(xs[i])
    ensures Leaves(Obj(PutAll(map[], qs, xs))) == (set q | q in qs)
    ensures forall i | 0 <= i < |qs| :: Walk(Obj(PutAll(map[], qs, xs)), qs[i]) == Found(xs[i])
    decreases |qs|
  {
    if |qs| == 0 {
      assert Leaves(Obj(map[])) == {};
    } else {
      var n := |qs| - 1;
      SeparatePrefix(qs, n);
      assert forall i | 0 <= i < n :: xs[..n][i] == xs[i] && qs[..n][i] == qs[i];
      PutAllLeaves(qs[..n], xs[..n]);
      PutAllUnfolds(map[], qs, xs);
      hide PutAll, MapAt, Walk, Leaves;
      PutAllStep(PutAll(map[], qs[..n], xs[..n]), qs, xs);
    }
  }

  /** Among lists with pairwise different joins, a list is named by its join. */
  lemma JoinPicksList(qs: seq<seq<string>>, keys: seq<string>, flat: string, p: seq<string>, i: nat)
    requires |qs| == |keys| && i < |qs| && flat != "" && p in qs && |p| >= 1
    requires forall j | 0 <= j < |qs| :: Join(flat, qs[j]) == keys[j]
    requires forall a, b | 0 <= a < b < |keys| :: keys[a] != keys[b]
    requires FullKey(p, flat) == keys[i]
    ensures p == qs[i]
  {
    var j :| 0 <= j < |qs| && p == qs[j];
    FullKeyIsJoin(p, flat);
    assert keys[j] == keys[i];
  }

  /** A leaf whose join is `key`, in a root whose leaves all have
      different joins, gives the flattened value under `key`. */
  lemma FlattenEntry(w: map<string, Value>, qs: seq<seq<string>>, xs: seq<Value>, keys: seq<string>,
                     flat: string, i: nat)
    requires |qs| == |xs| == |keys| && i < |qs| && flat != ""
    requires qs[i] in Leaves(Obj(w))
    requires forall p | p in Leaves(Obj(w)) :: p in qs
    requires Walk(Obj(w), qs[i]) == Found(xs[i])
    requires forall j | 0 <= j < |qs| :: Join(flat, qs[j]) == keys[j]
    requires forall a, b | 0 <= a < b < |keys| :: keys[a] != keys[b]
    ensures keys[i] in Flatten(w, flat) && Flatten(w, flat)[keys[i]] == xs[i]
  {
    FullKeyIsJoin(qs[i], flat);
    assert keys[i] in FlatKeys(w, flat);
    var v := FlatValue(w, flat, keys[i]);
    var p :| p in Leaves(Obj(w)) && FullKey(p, flat) == keys[i] && Walk(Obj(w), p) == Found(v);
    JoinPicksList(qs, keys, flat, p, i);
  }

  /** Every flattened key is the join of a leaf. */
  lemma FlattenOnlyKeys(w: map<string, Value>, qs: seq<seq<string>>, keys: seq<string>, flat: string, k: string)
    requires |qs| == |keys| && flat != ""
    requires Leaves(Obj(w)) == (set q | q in qs)
    requires forall j | 0 <= j < |qs| :: Join(flat, qs[j]) == keys[j]
    requires k in Flatten(w, flat)
    ensures k in keys
  {
    assert k in FlatKeys(w, flat);
    var p :| p in Leaves(Obj(w)) && FullKey(p, flat) == k;
    assert p in (set q | q in qs);
    var i :| 0 <= i < |qs| && p == qs[i];
    FullKeyIsJoin(p, flat);
    assert keys[i] == k;
  }

  /** Flattening primitives written at separate segment lists gives back
      each value under its list's join, and nothing else. */
  lemma FlattenPutAll(qs: seq<seq<string>>, xs: seq<Value>, keys: seq<string>, flat: string)
    requires |qs| == |xs| == |keys| && Separate(qs) && flat != ""
    requires forall i | 0 <= i < |xs| :: IsPrimitive(xs[i])
    requires forall i | 0 <= i < |qs| :: Join(flat, qs[i]) == keys[i]
    requires forall i, j | 0 <= i < j < |keys| :: keys[i] != keys[j]
    ensures var r := Flatten(PutAll(map[], qs, xs), flat);
            && (forall i | 0 <= i < |keys| :: keys[i] in r && r[keys[i]] == xs[i])
            && (forall k | k in r :: k in keys)
  {
    var w := PutAll(map[], qs, xs);
    PutAllLeaves(qs, xs);
    forall i | 0 <= i < |keys| ensures keys[i] in Flatten(w, flat) && Flatten(w, flat)[keys[i]] == xs[i] {
      assert qs[i] in Leaves(Obj(w));
      FlattenEntry(w, qs, xs, keys, flat, i);
    }
    forall k | k in Flatten(w, flat) ensures k in keys {
      FlattenOnlyKeys(w, qs, keys, flat, k);
    }
  }
}
