/** The store's mutators (src/object+modify.ts). The internal `_…`
    operations work on a root that is threaded through in the order the
    source mutates its working object; the public ones start from the
    store's own root and keep its separator. */
module Modify {
  import opened Values
  import opened Results
  import opened Paths
  import opened ObjectStore
  import opened Access
  import opened FullPaths
  import opened PathWrite

  /** What reading `path` gives right after `v` was stored there. */
  function Stored(path: string, v: Value): Result<Value> {
    if IsNullish(v) then Failure(NoValueAt(path)) else Success(v)
  }

  // ---------------------------------------------------------------------
  // Working-root operations

  /** `_mappingValue(object, path, mapFn)`. */
  function MappingIn(sep: string, work: map<string, Value>, path: string, f: Value -> Write): map<string, Value> {
    MapAt(work, Split(path, sep), f)
  }

  /** `_updatingValue(object, path, value)`; the value may be the delete
      marker. */
  function UpdatingIn(sep: string, work: map<string, Value>, path: string, w: Write): map<string, Value> {
    MappingIn(sep, work, path, Constant(w))
  }

  /** `_removingValue(object, path)`. */
  function RemovingIn(sep: string, work: map<string, Value>, path: string): map<string, Value> {
    UpdatingIn(sep, work, path, Delete)
  }

  /** `_copyingValue(object, src, dest)`: a failed read hands on its
      `.value`, which is `undefined`. */
  function CopyingIn(sep: string, work: map<string, Value>, src: string, dest: string): map<string, Value> {
    UpdatingIn(sep, work, dest, Put(ResolveIn(Obj(work), src, sep).ValueOr(Undef)))
  }

  /** `_movingValue(object, src, dest)`: copy, then remove `src` from the
      same, already modified, working object. */
  function MovingIn(sep: string, work: map<string, Value>, src: string, dest: string): map<string, Value> {
    RemovingIn(sep, CopyingIn(sep, work, src, dest), src)
  }

  // ---------------------------------------------------------------------
  // Public operations

  /** `emptying()`. */
  function Emptying(s: Store): Store {
    Store(map[], s.sep)
  }

  /** The raw map function `mappingValue` hands to `_mappingValue`: the
      current entry reaches `fn` as nothing when it is `undefined` or `null`,
      and an answer of nothing is stored as `undefined`. */
  function Unwrapped(fn: Option<Value> -> Option<Value>): Value -> Write {
    v => Put(match fn(if IsNullish(v) then None else Some(v)) case Some(x) => x case None => Undef)
  }

  /** `mappingValue(path, mapFn)`. */
  function MappingValue(s: Store, path: string, fn: Option<Value> -> Option<Value>): Store {
    Store(MappingIn(s.sep, s.root, path, Unwrapped(fn)), s.sep)
  }

  /** `updatingValue(path, value)`. */
  function UpdatingValue(s: Store, path: string, v: Value): Store {
    Store(UpdatingIn(s.sep, s.root, path, Put(v)), s.sep)
  }

  /** `removingValue(path)`. */
  function RemovingValue(s: Store, path: string): Store {
    Store(RemovingIn(s.sep, s.root, path), s.sep)
  }

  /** `copyingValue(src, dest)`. */
  function CopyingValue(s: Store, src: string, dest: string): Store {
    Store(CopyingIn(s.sep, s.root, src, dest), s.sep)
  }

  /** `movingValue(src, dest)`. */
  function MovingValue(s: Store, src: string, dest: string): Store {
    Store(MovingIn(s.sep, s.root, src, dest), s.sep)
  }

  /** `swappingValue(path1, path2)`: both values are read from the same
      root before either write; `path2` is written first. */
  function SwappingValue(s: Store, path1: string, path2: string): Store {
    var v1 := ResolveIn(Obj(s.root), path1, s.sep).ValueOr(Undef);
    var v2 := ResolveIn(Obj(s.root), path2, s.sep).ValueOr(Undef);
    var afterFirst := UpdatingIn(s.sep, s.root, path2, Put(v1));
    Store(UpdatingIn(s.sep, afterFirst, path1, Put(v2)), s.sep)
  }

  /** The key an entry of `updatingValuesWithFullPaths` is written under:
      re-joined with the store's separator when the given one differs. */
  function FullPathKey(key: string, given: string, storeSep: string): string {
    if given != storeSep then Join(storeSep, Split(key, given)) else key
  }

  /** The writes of `updatingValuesWithFullPaths`, in entry order. */
  function WriteEntries(sep: string, work: map<string, Value>, es: seq<(string, Value)>, given: string): map<string, Value>
    decreases |es|
  {
    if |es| == 0 then work
    else
      var last := es[|es| - 1];
      UpdatingIn(sep, WriteEntries(sep, work, es[..|es| - 1], given), FullPathKey(last.0, given, sep), Put(last.1))
  }

  /** `updatingValuesWithFullPaths(values, separator?)`; the entries come in
      `Objects.entries` order. */
  function UpdatingValuesWithFullPaths(s: Store, es: seq<(string, Value)>, given: Option<string>): Store {
    Store(WriteEntries(s.sep, s.root, es, EffectiveSep(given, s.sep)), s.sep)
  }

  // ---------------------------------------------------------------------
  // Reading back what was written

  lemma SplitNotEmpty(sep: string, path: string)
    requires sep != "" || path != ""
    ensures |Split(path, sep)| >= 1
  {
  }

  /** A write through `_updatingValue` reads back as the stored value. */
  lemma UpdatingInReads(sep: string, work: map<string, Value>, path: string, v: Value)
    requires sep != "" || path != ""
    ensures ResolveIn(Obj(UpdatingIn(sep, work, path, Put(v))), path, sep) == Stored(path, v)
  {
    var segs := Split(path, sep);
    assert segs + [] == segs;
    WriteReadBelow(work, segs, [], Constant(Put(v)));
  }

  /** A write leaves every path whose segments part ways with its own. */
  lemma UpdatingInFrame(sep: string, work: map<string, Value>, path: string, w: Write, other: string)
    requires Diverge(Split(path, sep), Split(other, sep))
    ensures ResolveIn(Obj(UpdatingIn(sep, work, path, w)), other, sep) == ResolveIn(Obj(work), other, sep)
  {
    WriteFrame(work, Split(path, sep), Split(other, sep), Constant(w));
  }

  /** After `updatingValue(path, v)`, `path` reads `v` (nothing when `v` is
      `undefined` or `null`), whatever lay on the way before. */
  lemma UpdateThenRead(s: Store, path: string, v: Value)
    requires s.sep != "" || path != ""
    ensures ValueAt(UpdatingValue(s, path, v), path) == Stored(path, v)
    ensures UpdatingValue(s, path, v).sep == s.sep
  {
    UpdatingInReads(s.sep, s.root, path, v);
  }

  /** `updatingValue` changes no path that parts ways with the written one. */
  lemma UpdateFrame(s: Store, path: string, v: Value, other: string)
    requires Diverge(Split(path, s.sep), Split(other, s.sep))
    ensures ValueAt(UpdatingValue(s, path, v), other) == ValueAt(s, other)
  {
    UpdatingInFrame(s.sep, s.root, path, Put(v), other);
  }

  /** Every proper prefix of the written path holds an object afterwards:
      missing, `null` and primitive intermediates were replaced. */
  lemma UpdateBuildsIntermediates(s: Store, path: string, v: Value, prefix: string)
    requires var p := Split(prefix, s.sep); var q := Split(path, s.sep);
             1 <= |p| < |q| && p <= q
    ensures ValueAt(UpdatingValue(s, path, v), prefix).Success?
    ensures ValueAt(UpdatingValue(s, path, v), prefix).value.Obj?
  {
    WritePrefixIsObject(s.root, Split(path, s.sep), Split(prefix, s.sep), Constant(Put(v)));
  }

  /** After `removingValue(path)`, `path` does not resolve. */
  lemma RemoveThenRead(s: Store, path: string)
    requires s.sep != "" || path != ""
    ensures ValueAt(RemovingValue(s, path), path) == Failure(NoValueAt(path))
  {
    var segs := Split(path, s.sep);
    assert segs + [] == segs;
    WriteReadBelow(s.root, segs, [], Constant(Delete));
  }

  /** `removingValue` changes no path that parts ways with the removed one. */
  lemma RemoveFrame(s: Store, path: string, other: string)
    requires Diverge(Split(path, s.sep), Split(other, s.sep))
    ensures ValueAt(RemovingValue(s, path), other) == ValueAt(s, other)
  {
    UpdatingInFrame(s.sep, s.root, path, Delete, other);
  }

  /** `emptying()` keeps the separator, and no path with a segment resolves. */
  lemma EmptyingResolvesNothing(s: Store, path: string)
    requires s.sep != "" || path != ""
    ensures Emptying(s).sep == s.sep
    ensures ValueAt(Emptying(s), path) == Failure(NoValueAt(path))
  {
    SplitNotEmpty(s.sep, path);
  }

  /** `mappingValue(path, fn)`: `fn` is given what `path` resolved to, and
      `path` afterwards reads `fn`'s answer. */
  lemma MappingThenRead(s: Store, path: string, fn: Option<Value> -> Option<Value>)
    requires s.sep != "" || path != ""
    ensures ValueAt(MappingValue(s, path, fn), path) ==
              match fn(ValueAt(s, path).ToOption())
              case Some(x) => Stored(path, x)
              case None => Failure(NoValueAt(path))
  {
    var segs := Split(path, s.sep);
    assert segs + [] == segs;
    WriteReadBelow(s.root, segs, [], Unwrapped(fn));
    ReachedIsRead(s.root, segs);
  }

  /** `mappingValue` changes no path that parts ways with the mapped one. */
  lemma MappingFrame(s: Store, path: string, fn: Option<Value> -> Option<Value>, other: string)
    requires Diverge(Split(path, s.sep), Split(other, s.sep))
    ensures ValueAt(MappingValue(s, path, fn), other) == ValueAt(s, other)
  {
    WriteFrame(s.root, Split(path, s.sep), Split(other, s.sep), Unwrapped(fn));
  }

  // ---------------------------------------------------------------------
  // Copy, move and swap

  /** A copy carries the whole subtree: every path below `dest` afterwards
      reads what the same path below `src` read before. */
  lemma CopyingInCarriesSubtree(sep: string, work: map<string, Value>, src: string, dest: string, t: seq<string>)
    requires sep != "" || dest != ""
    ensures Walk(Obj(CopyingIn(sep, work, src, dest)), Split(dest, sep) + t) == Walk(Obj(work), Split(src, sep) + t)
  {
    var d := Split(dest, sep);
    var v := ResolveIn(Obj(work), src, sep).ValueOr(Undef);
    WriteReadBelow(work, d, t, Constant(Put(v)));
    WalkAppend(Obj(work), Split(src, sep), t);
  }

  /** `copyingValue(src, dest)`: `dest` resolves exactly when `src` did, to
      the same value, and `src` is untouched when the paths part ways. */
  lemma CopyThenRead(s: Store, src: string, dest: string)
    requires s.sep != "" || dest != ""
    ensures ValueAt(CopyingValue(s, src, dest), dest).ToOption() == ValueAt(s, src).ToOption()
    ensures Diverge(Split(src, s.sep), Split(dest, s.sep)) ==>
              ValueAt(CopyingValue(s, src, dest), src) == ValueAt(s, src)
  {
    var d := Split(dest, s.sep);
    var p := Split(src, s.sep);
    CopyingInCarriesSubtree(s.sep, s.root, src, dest, []);
    assert d + [] == d && p + [] == p;
    if Diverge(p, d) {
      UpdatingInFrame(s.sep, s.root, dest, Put(ResolveIn(Obj(s.root), src, s.sep).ValueOr(Undef)), src);
    }
  }

  /** `movingValue(src, dest)`: `src` no longer resolves, and when the
      paths part ways `dest` holds what `src` held. */
  lemma MoveThenRead(s: Store, src: string, dest: string)
    requires s.sep != "" || (src != "" && dest != "")
    ensures ValueAt(MovingValue(s, src, dest), src) == Failure(NoValueAt(src))
    ensures Diverge(Split(src, s.sep), Split(dest, s.sep)) ==>
              ValueAt(MovingValue(s, src, dest), dest).ToOption() == ValueAt(s, src).ToOption()
  {
    var copied := CopyingValue(s, src, dest);
    RemoveThenRead(copied, src);
    CopyThenRead(s, src, dest);
    if Diverge(Split(src, s.sep), Split(dest, s.sep)) {
      RemoveFrame(copied, src, dest);
    }
  }

  /** `copyingValue(src, dest)` changes no path that parts ways with `dest`. */
  lemma CopyFrame(s: Store, src: string, dest: string, other: string)
    requires Diverge(Split(dest, s.sep), Split(other, s.sep))
    ensures ValueAt(CopyingValue(s, src, dest), other) == ValueAt(s, other)
  {
    UpdatingInFrame(s.sep, s.root, dest, Put(ResolveIn(Obj(s.root), src, s.sep).ValueOr(Undef)), other);
  }

  /** `movingValue(src, dest)` changes no path that parts ways with both
      `src` and `dest`. */
  lemma MoveFrame(s: Store, src: string, dest: string, other: string)
    requires Diverge(Split(dest, s.sep), Split(other, s.sep))
    requires Diverge(Split(src, s.sep), Split(other, s.sep))
    ensures ValueAt(MovingValue(s, src, dest), other) == ValueAt(s, other)
  {
    CopyFrame(s, src, dest, other);
    RemoveFrame(CopyingValue(s, src, dest), src, other);
  }

  /** A constant write at a path absorbs any earlier write at the same path. */
  lemma {:induction false} WriteAbsorbs(m: map<string, Value>, q: seq<string>, f: Value -> Write, w: Write)
    ensures MapAt(MapAt(m, q, f), q, Constant(w)) == MapAt(m, q, Constant(w))
    decreases |q|
  {
    if |q| > 1 {
      var k := q[0];
      var inner := MapAt(Descend(Current(m, k)), q[1..], f);
      assert Descend(Current(MapAt(m, q, f), k)) == inner;
      WriteAbsorbs(Descend(Current(m, k)), q[1..], f, w);
      assert MapAt(m, q, f)[k := Obj(MapAt(inner, q[1..], Constant(w)))] == m[k := Obj(MapAt(inner, q[1..], Constant(w)))];
    } else if |q| == 1 {
      var k := q[0];
      match f(Current(m, k))
      case Delete =>
      case Put(x) =>
        match w
        case Delete => assert m[k := x] - {k} == m - {k};
        case Put(y) =>
    }
  }

  /** Moving a path onto itself removes it: the copy writes it back, then
      the removal deletes it. */
  lemma MoveOntoItselfRemoves(s: Store, path: string)
    ensures MovingValue(s, path, path) == RemovingValue(s, path)
  {
    var v := ResolveIn(Obj(s.root), path, s.sep).ValueOr(Undef);
    WriteAbsorbs(s.root, Split(path, s.sep), Constant(Put(v)), Delete);
  }

  /** `swappingValue(p1, p2)` on paths that part ways exchanges what they
      resolve to and changes no path that parts ways with both. */
  lemma SwapExchanges(s: Store, p1: string, p2: string, other: string)
    requires Diverge(Split(p1, s.sep), Split(p2, s.sep))
    ensures ValueAt(SwappingValue(s, p1, p2), p1).ToOption() == ValueAt(s, p2).ToOption()
    ensures ValueAt(SwappingValue(s, p1, p2), p2).ToOption() == ValueAt(s, p1).ToOption()
    ensures Diverge(Split(p1, s.sep), Split(other, s.sep)) && Diverge(Split(p2, s.sep), Split(other, s.sep)) ==>
              ValueAt(SwappingValue(s, p1, p2), other) == ValueAt(s, other)
  {
    var v1 := ResolveIn(Obj(s.root), p1, s.sep).ValueOr(Undef);
    var v2 := ResolveIn(Obj(s.root), p2, s.sep).ValueOr(Undef);
    var afterFirst := UpdatingIn(s.sep, s.root, p2, Put(v1));
    assert Split(p1, s.sep) != [] && Split(p2, s.sep) != [];
    UpdatingInReads(s.sep, afterFirst, p1, v2);
    UpdatingInReads(s.sep, s.root, p2, v1);
    UpdatingInFrame(s.sep, afterFirst, p1, Put(v2), p2);
    if Diverge(Split(p1, s.sep), Split(other, s.sep)) && Diverge(Split(p2, s.sep), Split(other, s.sep)) {
      UpdatingInFrame(s.sep, afterFirst, p1, Put(v2), other);
      UpdatingInFrame(s.sep, s.root, p2, Put(v1), other);
    }
  }

  /** Two one-character segments joined by ".". */
  lemma SplitDotted(x: char, y: char)
    requires x != '.' && y != '.'
    ensures Split([x] + "." + [y], ".") == [[x], [y]]
  {
    assert Clean([y], ".") by { assert !OccursAt([y] + ".", ".", 0); }
    assert Clean([x], ".") by { assert !OccursAt([x] + ".", ".", 0); }
    SplitAppend([x], ".", [y]);
    SplitOnClean([x], ".");
  }

  lemma SwapExampleSplits()
    ensures Split("a.b", ".") == ["a", "b"]
    ensures Split("b.a", ".") == ["b", "a"]
  {
    SplitDotted('a', 'b');
    SplitDotted('b', 'a');
    assert "a.b" == ['a'] + "." + ['b'];
    assert "b.a" == ['b'] + "." + ['a'];
  }

  lemma SwapExampleReads(root: map<string, Value>)
    requires root == map["a" := Obj(map["b" := Num(1)]), "b" := Obj(map["a" := Num(2)])]
    ensures ResolveIn(Obj(root), "a.b", ".") == Success(Num(1))
    ensures ResolveIn(Obj(root), "b.a", ".") == Success(Num(2))
  {
    SwapExampleSplits();
    hide Split;
    var ab := ["a", "b"];
    var ba := ["b", "a"];
    assert ab[1..] == ["b"];
    assert ba[1..] == ["a"];
    assert Walk(Obj(root), ab) == Found(Num(1));
    assert Walk(Obj(root), ba) == Found(Num(2));
  }

  lemma SwapExampleWrite(m: map<string, Value>, k: string, j: string, x: Value)
    requires k in m && m[k].Obj?
    ensures MapAt(m, [k, j], Constant(Put(x))) == m[k := Obj(m[k].fields[j := x])]
  {
    assert [k, j][1..] == [j];
    assert Descend(Current(m, k)) == m[k].fields;
  }

  lemma SwapExampleUpdate(m: map<string, Value>, path: string, k: string, j: string, x: Value)
    requires Split(path, ".") == [k, j] && k in m && m[k].Obj?
    ensures UpdatingIn(".", m, path, Put(x)) == m[k := Obj(m[k].fields[j := x])]
  {
    SwapExampleWrite(m, k, j, x);
  }

  /** The example of test/object.complex.test.ts: swapping `a.b` and `b.a`
      in `{a: {b: 1}, b: {a: 2}}`. */
  lemma SwapUnfolds(s: Store, path1: string, path2: string, v1: Value, v2: Value)
    requires ResolveIn(Obj(s.root), path1, s.sep) == Success(v1)
    requires ResolveIn(Obj(s.root), path2, s.sep) == Success(v2)
    ensures SwappingValue(s, path1, path2).root
         == UpdatingIn(s.sep, UpdatingIn(s.sep, s.root, path2, Put(v1)), path1, Put(v2))
  {
  }

  lemma SwapExample(s: Store)
    requires s == Store(map["a" := Obj(map["b" := Num(1)]), "b" := Obj(map["a" := Num(2)])], ".")
    ensures SwappingValue(s, "a.b", "b.a").root == map["a" := Obj(map["b" := Num(2)]), "b" := Obj(map["a" := Num(1)])]
  {
    var root := s.root;
    SwapExampleSplits();
    SwapExampleReads(root);
    SwapUnfolds(s, "a.b", "b.a", Num(1), Num(2));
    hide *;
    SwapExampleUpdate(root, "b.a", "b", "a", Num(1));
    var first := root["b" := Obj(root["b"].fields["a" := Num(1)])];
    SwapExampleUpdate(first, "a.b", "a", "b", Num(2));
    assert root["b"].fields["a" := Num(1)] == map["a" := Num(1)];
    assert first["a"].fields["b" := Num(2)] == map["b" := Num(2)];
  }

  // ---------------------------------------------------------------------
  // Rebuilding from full paths

  /** The segments entry `i` is written at. */
  function EntrySegs(es: seq<(string, Value)>, i: int, given: string, sep: string): seq<string>
    requires 0 <= i < |es|
  {
    Split(FullPathKey(es[i].0, given, sep), sep)
  }

  /** Re-joining a key split on another separator lands on the same
      segments, as long as no segment contains the store's separator. */
  lemma FullPathKeySegments(key: string, given: string, sep: string)
    requires given != "" && sep != "" && AllClean(Split(key, given), sep)
    ensures Split(FullPathKey(key, given, sep), sep) == Split(key, given)
  {
    if given != sep {
      SplitJoin(Split(key, given), sep);
    }
  }

  /** A key that does not contain the given separator is written as it is. */
  lemma FullPathKeyKeeps(key: string, given: string, sep: string)
    requires given == sep || (given != "" && Clean(key, given))
    ensures FullPathKey(key, given, sep) == key
  {
    if given != sep {
      SplitOnClean(key, given);
    }
  }

  /** The segment lists the entries are written at, and their values. */
  function SegsOf(es: seq<(string, Value)>, given: string, sep: string): (r: seq<seq<string>>)
    ensures |r| == |es|
    ensures forall i | 0 <= i < |es| :: r[i] == EntrySegs(es, i, given, sep)
  {
    seq(|es|, i requires 0 <= i < |es| => EntrySegs(es, i, given, sep))
  }

  function ValuesOf(es: seq<(string, Value)>): (r: seq<Value>)
    ensures |r| == |es|
    ensures forall i | 0 <= i < |es| :: r[i] == es[i].1
  {
    seq(|es|, i requires 0 <= i < |es| => es[i].1)
  }

  function KeysOf(es: seq<(string, Value)>): (r: seq<string>)
    ensures |r| == |es|
    ensures forall i | 0 <= i < |es| :: r[i] == es[i].0
  {
    seq(|es|, i requires 0 <= i < |es| => es[i].0)
  }

  /** The segment lists and values of a prefix of the entries are the
      prefixes of theirs. */
  lemma EntriesPrefix(es: seq<(string, Value)>, n: nat, given: string, sep: string)
    requires n <= |es|
    ensures SegsOf(es, given, sep)[..n] == SegsOf(es[..n], given, sep)
    ensures ValuesOf(es)[..n] == ValuesOf(es[..n])
  {
    var pre := es[..n];
    forall k | 0 <= k < n
      ensures SegsOf(es, given, sep)[k] == SegsOf(pre, given, sep)[k] && ValuesOf(es)[k] == ValuesOf(pre)[k]
    {
      assert pre[k] == es[k];
    }
  }

  lemma WriteEntriesUnfolds(sep: string, work: map<string, Value>, es: seq<(string, Value)>, given: string)
    requires |es| > 0
    ensures WriteEntries(sep, work, es, given)
         == MapAt(WriteEntries(sep, work, es[..|es| - 1], given), EntrySegs(es, |es| - 1, given, sep),
                  Constant(Put(es[|es| - 1].1)))
  {
  }



  lemma WriteEntriesStep(sep: string, work: map<string, Value>, es: seq<(string, Value)>, given: string)
    requires |es| > 0
    requires WriteEntries(sep, work, es[..|es| - 1], given) ==
               PutAll(work, SegsOf(es[..|es| - 1], given, sep), ValuesOf(es[..|es| - 1]))
    ensures WriteEntries(sep, work, es, given) == PutAll(work, SegsOf(es, given, sep), ValuesOf(es))
  {
    EntriesPrefix(es, |es| - 1, given, sep);
    WriteEntriesUnfolds(sep, work, es, given);
    PutAllUnfolds(work, SegsOf(es, given, sep), ValuesOf(es));
  }

  /** The entry writes are the constant writes of their values at their
      segment lists. */
  lemma {:induction false} WriteEntriesIsPutAll(sep: string, work: map<string, Value>, es: seq<(string, Value)>, given: string)
    ensures WriteEntries(sep, work, es, given) == PutAll(work, SegsOf(es, given, sep), ValuesOf(es))
    decreases |es|
  {
    if |es| > 0 {
      WriteEntriesIsPutAll(sep, work, es[..|es| - 1], given);
      WriteEntriesStep(sep, work, es, given);
    }
  }

  /** Writing entries whose segment lists pairwise part ways and whose keys
      are the joins of their own segments, and flattening the result, gives
      the entries back. */
  lemma RebuildFlattens(sep: string, given: string, flat: string, es: seq<(string, Value)>)
    requires sep != "" && flat != ""
    requires Separate(SegsOf(es, given, sep))
    requires forall i | 0 <= i < |es| :: IsPrimitive(es[i].1)
    requires forall i | 0 <= i < |es| :: Join(flat, EntrySegs(es, i, given, sep)) == es[i].0
    ensures var r := Flatten(WriteEntries(sep, map[], es, given), flat);
            && (forall i | 0 <= i < |es| :: es[i].0 in r && r[es[i].0] == es[i].1)
            && (forall k | k in r :: exists i | 0 <= i < |es| :: es[i].0 == k)
  {
    var qs := SegsOf(es, given, sep);
    var keys := KeysOf(es);
    forall i, j | 0 <= i < j < |keys| ensures keys[i] != keys[j] {
      assert Diverge(qs[i], qs[j]);
    }
    WriteEntriesIsPutAll(sep, map[], es, given);
    FlattenPutAll(qs, ValuesOf(es), keys, flat);
    var r := Flatten(WriteEntries(sep, map[], es, given), flat);
    forall k | k in r ensures exists i | 0 <= i < |es| :: es[i].0 == k {
      var i :| 0 <= i < |keys| && keys[i] == k;
    }
  }

  /** The entries list a map once each, in some order. */
  predicate Enumerates(es: seq<(string, Value)>, m: map<string, Value>) {
    && (forall i | 0 <= i < |es| :: es[i].0 in m && m[es[i].0] == es[i].1)
    && (forall k | k in m :: exists i | 0 <= i < |es| :: es[i].0 == k)
    && (forall i, j | 0 <= i < j < |es| :: es[i].0 != es[j].0)
  }

  /** An entry of a store's own flattening is written at the leaf it came
      from, when no key contains the separator. */
  lemma RoundTripEntry(s: Store, es: seq<(string, Value)>, g: string, i: int)
    requires s.sep != "" && KeysClean(Obj(s.root), s.sep) && 0 <= i < |es|
    requires es[i].0 in Flatten(s.root, s.sep) && Flatten(s.root, s.sep)[es[i].0] == es[i].1
    requires g == s.sep || (g != "" && Clean(es[i].0, g))
    ensures EntrySegs(es, i, g, s.sep) in Leaves(Obj(s.root))
    ensures Join(s.sep, EntrySegs(es, i, g, s.sep)) == es[i].0
    ensures IsPrimitive(es[i].1)
  {
    var t := s.sep;
    var F := Flatten(s.root, t);
    FullPathKeyKeeps(es[i].0, g, t);
    var p :| p in Leaves(Obj(s.root)) && FullKey(p, t) == es[i].0 && Walk(Obj(s.root), p) == Found(F[es[i].0]);
    FullKeyIsJoin(p, t);
    SplitJoin(p, t);
    LeafReads(Obj(s.root), p);
  }

  /** The written segment lists of a store's own flattening part ways. */
  lemma RoundTripSeparate(s: Store, es: seq<(string, Value)>, g: string)
    requires s.sep != ""
    requires forall i | 0 <= i < |es| :: EntrySegs(es, i, g, s.sep) in Leaves(Obj(s.root))
    requires forall i | 0 <= i < |es| :: Join(s.sep, EntrySegs(es, i, g, s.sep)) == es[i].0
    requires forall i, j | 0 <= i < j < |es| :: es[i].0 != es[j].0
    ensures Separate(SegsOf(es, g, s.sep))
  {
    var qs := SegsOf(es, g, s.sep);
    forall i | 0 <= i < |qs| ensures |qs[i]| >= 1 {
      assert qs[i] in Leaves(Obj(s.root));
    }
    forall i, j | 0 <= i < j < |qs| ensures Diverge(qs[i], qs[j]) {
      assert Join(s.sep, qs[i]) != Join(s.sep, qs[j]);
      LeavesDiverge(Obj(s.root), qs[i], qs[j]);
    }
  }

  /** Two maps that both hold exactly the entries of one list are equal. */
  lemma SameEntriesSameMap(es: seq<(string, Value)>, r: map<string, Value>, m: map<string, Value>)
    requires Enumerates(es, m)
    requires forall i | 0 <= i < |es| :: es[i].0 in r && r[es[i].0] == es[i].1
    requires forall k | k in r :: exists i | 0 <= i < |es| :: es[i].0 == k
    ensures r == m
  {
    forall k | k in m ensures k in r && r[k] == m[k] {
      var i :| 0 <= i < |es| && es[i].0 == k;
    }
  }

  lemma RebuildOwnEntries(s: Store, es: seq<(string, Value)>, g: string)
    requires s.sep != "" && KeysClean(Obj(s.root), s.sep)
    requires Enumerates(es, Flatten(s.root, s.sep))
    requires forall i | 0 <= i < |es| :: g == s.sep || (g != "" && Clean(es[i].0, g))
    ensures Flatten(WriteEntries(s.sep, map[], es, g), s.sep) == Flatten(s.root, s.sep)
  {
    var t := s.sep;
    forall i | 0 <= i < |es|
      ensures EntrySegs(es, i, g, t) in Leaves(Obj(s.root))
      ensures Join(t, EntrySegs(es, i, g, t)) == es[i].0
      ensures IsPrimitive(es[i].1)
    {
      RoundTripEntry(s, es, g, i);
    }
    RoundTripSeparate(s, es, g);
    RebuildFlattens(t, g, t, es);
    SameEntriesSameMap(es, Flatten(WriteEntries(t, map[], es, g), t), Flatten(s.root, t));
  }

  /** Emptying a store, writing back its own full paths and flattening again
      gives the same map, when no key contains the separator. The given
      separator may be left out, or be one no full path contains. */
  lemma RebuildRoundTrip(s: Store, es: seq<(string, Value)>, given: Option<string>)
    requires s.sep != "" && KeysClean(Obj(s.root), s.sep)
    requires Enumerates(es, ValuesWithFullPaths(s, None))
    requires forall i | 0 <= i < |es| ::
               EffectiveSep(given, s.sep) == s.sep || Clean(es[i].0, EffectiveSep(given, s.sep))
    ensures ValuesWithFullPaths(UpdatingValuesWithFullPaths(Emptying(s), es, given), None) ==
              ValuesWithFullPaths(s, None)
  {
    RebuildOwnEntries(s, es, EffectiveSep(given, s.sep));
  }
}
