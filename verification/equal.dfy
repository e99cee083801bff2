/** Comparing two stores at a list of paths (src/object+equal.ts). */
module Equality {
  import opened Values
  import opened Results
  import opened Paths
  import opened ObjectStore
  import opened Access
  import opened Modify

  /** The check for one path passes: neither side resolves it, or both do
      and the comparator answers true for the two values. */
  predicate PathAgrees(lhs: Store, rhs: Store, path: string, cmp: (Value, Value) -> Verdict) {
    var a := ValueAt(lhs, path);
    var b := ValueAt(rhs, path);
    (a.Failure? && b.Failure?) || (a.Success? && b.Success? && cmp(a.value, b.value) == Returned(true))
  }

  /** The loop of `equalsForValues`: skip a path neither side resolves,
      stop with false at the first path where one side fails, the
      comparator answers false, or it raises. */
  function EqualsAt(lhs: Store, rhs: Store, paths: seq<string>, cmp: (Value, Value) -> Verdict): (r: bool)
    ensures r <==> forall i | 0 <= i < |paths| :: PathAgrees(lhs, rhs, paths[i], cmp)
  {
    if |paths| == 0 then true
    else
      var a := ValueAt(lhs, paths[0]);
      var b := ValueAt(rhs, paths[0]);
      if a.Failure? && b.Failure? then EqualsAt(lhs, rhs, paths[1..], cmp)
      else if a.Failure? || b.Failure? then false
      else match cmp(a.value, b.value)
        case Returned(true) => EqualsAt(lhs, rhs, paths[1..], cmp)
        case Returned(false) => false
        case Raised => false
  }

  /** `equalsForValues(object, paths, equalFn?)`: the other side is taken
      through `just`, and a missing comparator means `===`. */
  function EqualsForValues(s: Store, other: Source, paths: seq<string>,
                           fn: Option<(Value, Value) -> Verdict>): bool {
    EqualsAt(s, Just(other), paths, if fn.Some? then fn.value else DefaultComparator())
  }

  /** With the default comparator a store equals itself at any paths. */
  lemma EqualsReflexive(s: Store, paths: seq<string>)
    ensures EqualsForValues(s, Existing(s), paths, None)
  {
    forall i | 0 <= i < |paths|
      ensures PathAgrees(s, s, paths[i], DefaultComparator())
    {
    }
  }

  /** With the default comparator the answer does not depend on which
      store asks. */
  lemma EqualsSymmetric(s: Store, t: Store, paths: seq<string>)
    ensures EqualsForValues(s, Existing(t), paths, None) == EqualsForValues(t, Existing(s), paths, None)
  {
    var cmp := DefaultComparator();
    forall i | 0 <= i < |paths|
      ensures PathAgrees(s, t, paths[i], cmp) == PathAgrees(t, s, paths[i], cmp)
    {
    }
  }

  /** A path only one side resolves makes the answer false, whatever the
      comparator. */
  lemma EqualsOneSided(s: Store, other: Source, paths: seq<string>, fn: Option<(Value, Value) -> Verdict>, i: nat)
    requires i < |paths|
    requires ValueAt(s, paths[i]).Success? != ValueAt(Just(other), paths[i]).Success?
    ensures !EqualsForValues(s, other, paths, fn)
  {
  }

  /** A comparator that raises on some pair of resolved values makes the
      answer false: the exception is caught. */
  lemma EqualsRaised(s: Store, other: Source, paths: seq<string>, cmp: (Value, Value) -> Verdict, i: nat)
    requires i < |paths|
    requires ValueAt(s, paths[i]).Success? && ValueAt(Just(other), paths[i]).Success?
    requires cmp(ValueAt(s, paths[i]).value, ValueAt(Just(other), paths[i]).value) == Raised
    ensures !EqualsForValues(s, other, paths, Some(cmp))
  {
  }

  lemma AllConcat(ok: string -> bool, a: seq<string>, b: seq<string>)
    ensures (forall i | 0 <= i < |a + b| :: ok((a + b)[i]))
        <==> (forall i | 0 <= i < |a| :: ok(a[i])) && (forall i | 0 <= i < |b| :: ok(b[i]))
  {
    if (forall i | 0 <= i < |a| :: ok(a[i])) && (forall i | 0 <= i < |b| :: ok(b[i])) {
      forall i | 0 <= i < |a + b| ensures ok((a + b)[i]) {
        if i < |a| {
          assert (a + b)[i] == a[i];
        } else {
          assert (a + b)[i] == b[i - |a|];
        }
      }
    }
    if forall i | 0 <= i < |a + b| :: ok((a + b)[i]) {
      forall i | 0 <= i < |a| ensures ok(a[i]) {
        assert (a + b)[i] == a[i];
      }
      forall i | 0 <= i < |b| ensures ok(b[i]) {
        assert (a + b)[|a| + i] == b[i];
      }
    }
  }

  /** Checking a list of paths is checking each part of it. */
  lemma EqualsConcat(s: Store, other: Source, a: seq<string>, b: seq<string>, fn: Option<(Value, Value) -> Verdict>)
    ensures EqualsForValues(s, other, a + b, fn)
        == (EqualsForValues(s, other, a, fn) && EqualsForValues(s, other, b, fn))
  {
    var cmp := if fn.Some? then fn.value else DefaultComparator();
    var rhs := Just(other);
    AllConcat(p => PathAgrees(s, rhs, p, cmp), a, b);
  }

  /** Only the set of paths matters, not their order or repetitions. */
  lemma EqualsSamePaths(s: Store, other: Source, a: seq<string>, b: seq<string>, fn: Option<(Value, Value) -> Verdict>)
    requires forall p | p in b :: p in a
    requires EqualsForValues(s, other, a, fn)
    ensures EqualsForValues(s, other, b, fn)
  {
    var cmp := if fn.Some? then fn.value else DefaultComparator();
    forall i | 0 <= i < |b|
      ensures PathAgrees(s, Just(other), b[i], cmp)
    {
      assert b[i] in a;
      var j :| 0 <= j < |a| && a[j] == b[i];
    }
  }

  /** A store equals, at every path away from `path`, the store that
      `updatingValue(path, v)` makes of it. */
  lemma EqualsAwayFromUpdate(s: Store, path: string, v: Value, paths: seq<string>)
    requires forall i | 0 <= i < |paths| :: Diverge(Split(path, s.sep), Split(paths[i], s.sep))
    ensures EqualsForValues(s, Existing(UpdatingValue(s, path, v)), paths, None)
  {
    var t := UpdatingValue(s, path, v);
    forall i | 0 <= i < |paths|
      ensures PathAgrees(s, t, paths[i], DefaultComparator())
    {
      UpdateFrame(s, path, v, paths[i]);
    }
  }
}
