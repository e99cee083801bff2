/** Cloning a store for a list of paths (src/object+clone.ts). */
module Cloning {
  import opened Values
  import opened Results
  import opened Paths
  import opened ObjectStore
  import opened Access
  import opened PathWrite
  import opened Modify

  /** One step of `cloningForPaths`: a path that resolves in `s` has its
      value written, split on `sep`, into the clone's object; a path that
      does not is skipped. */
  function CloneStep(sep: string, s: Store, work: map<string, Value>, path: string): map<string, Value> {
    match ValueAt(s, path)
    case Success(v) => UpdatingIn(sep, work, path, Put(v))
    case Failure(_) => work
  }

  /** The loop of `cloningForPaths` over `paths`, in order, starting from an
      empty object. */
  function CloneAll(sep: string, s: Store, paths: seq<string>): map<string, Value>
    decreases |paths|
  {
    if |paths| == 0 then map[]
    else CloneStep(sep, s, CloneAll(sep, s, paths[..|paths| - 1]), paths[|paths| - 1])
  }

  /** `cloningForPaths(...paths)` as written: the clone is a `new Impl()`,
      so the paths are written with its separator `.` and the clone keeps
      that separator, whatever the store's own is. The entries land in a
      separate empty object, not in the new store's root. */
  function CloningForPathsAsWritten(s: Store, paths: seq<string>): Store {
    var blank := NewImpl();
    Store(CloneAll(blank.sep, s, paths), blank.sep)
  }

  /** `cloningForPaths(...paths)` writing with the store's own separator and
      keeping it. */
  function CloningForPaths(s: Store, paths: seq<string>): Store {
    Store(CloneAll(s.sep, s, paths), s.sep)
  }

  /** The two agree for a store that uses the default separator. */
  lemma AsWrittenAgreesOnDefault(s: Store, paths: seq<string>)
    requires s.sep == DefaultSeparator
    ensures CloningForPathsAsWritten(s, paths) == CloningForPaths(s, paths)
  {
  }

  /** A walk that goes on past `x` and finds something starts from an
      object. */
  lemma FoundBelowIsObject(x: Value, b: seq<string>)
    requires |b| >= 1 && Walk(x, b).Found?
    ensures x.Obj?
  {
  }

  /** Writing the subtree the source holds at `q2` keeps the clone agreeing
      with the source at any path `q` where it agreed before and the source
      has a value: beside `q2` nothing changes, below `q2` the written
      subtree is the source's own, and above `q2` the write puts back what
      was already there. */
  lemma CopyKeepsAgreement(clone: map<string, Value>, root: map<string, Value>, q2: seq<string>, q: seq<string>)
    requires |q2| >= 1 && |q| >= 1
    requires Walk(Obj(root), q2).Found? && Walk(Obj(root), q).Found?
    requires Walk(Obj(clone), q) == Walk(Obj(root), q)
    ensures Walk(Obj(MapAt(clone, q2, Constant(Put(Walk(Obj(root), q2).value)))), q) == Walk(Obj(root), q)
  {
    var v := Walk(Obj(root), q2).value;
    var f := Constant(Put(v));
    if Diverge(q, q2) {
      WriteFrame(clone, q2, q, f);
    } else if q2 <= q {
      var t := q[|q2|..];
      assert q == q2 + t;
      WriteReadBelow(clone, q2, t, f);
      WalkAppend(Obj(root), q2, t);
    } else {
      var b := q2[|q|..];
      assert q2 == q + b;
      var x := Walk(Obj(root), q).value;
      WalkAppend(Obj(root), q, b);
      FoundBelowIsObject(x, b);
      WriteInside(clone, q, b, x.fields, f);
      WriteSameIsIdentity(x.fields, b, v);
    }
  }

  /** Every listed path that resolves in the source reads, in the clone
      made with the source's separator, exactly what it reads in the
      source. */
  lemma {:induction false} CloneAllAgrees(s: Store, paths: seq<string>)
    requires s.sep != ""
    ensures forall i | 0 <= i < |paths| && ValueAt(s, paths[i]).Success? ::
              Walk(Obj(CloneAll(s.sep, s, paths)), Split(paths[i], s.sep)) == Walk(Obj(s.root), Split(paths[i], s.sep))
    decreases |paths|
  {
    if |paths| > 0 {
      var n := |paths| - 1;
      var init := paths[..n];
      var prev := CloneAll(s.sep, s, init);
      var q2 := Split(paths[n], s.sep);
      CloneAllAgrees(s, init);
      forall i | 0 <= i < |paths| && ValueAt(s, paths[i]).Success?
        ensures Walk(Obj(CloneAll(s.sep, s, paths)), Split(paths[i], s.sep)) == Walk(Obj(s.root), Split(paths[i], s.sep))
      {
        var q := Split(paths[i], s.sep);
        if ValueAt(s, paths[n]).Success? {
          var v := ValueAt(s, paths[n]).value;
          if i == n {
            WriteReadBelow(prev, q2, [], Constant(Put(v)));
            assert q2 + [] == q2;
          } else {
            assert init[i] == paths[i];
            CopyKeepsAgreement(prev, s.root, q2, q);
          }
        } else {
          assert init[i] == paths[i];
        }
      }
    }
  }

  /** The clone reads every listed path that resolves in the source as
      the source does. */
  lemma CloneReadsListedPaths(s: Store, paths: seq<string>, i: nat)
    requires s.sep != "" && i < |paths| && ValueAt(s, paths[i]).Success?
    ensures CloningForPaths(s, paths).sep == s.sep
    ensures ValueAt(CloningForPaths(s, paths), paths[i]) == ValueAt(s, paths[i])
  {
    CloneAllAgrees(s, paths);
  }

  /** Every top-level key of the clone is the first segment of a listed
      path that resolves in the source. */
  lemma {:induction false} CloneTopKeys(s: Store, paths: seq<string>)
    requires s.sep != ""
    ensures forall k | k in CloneAll(s.sep, s, paths) ::
              exists i | 0 <= i < |paths| :: ValueAt(s, paths[i]).Success? && Split(paths[i], s.sep)[0] == k
    decreases |paths|
  {
    if |paths| > 0 {
      var n := |paths| - 1;
      var init := paths[..n];
      CloneTopKeys(s, init);
      forall k | k in CloneAll(s.sep, s, paths)
        ensures exists i | 0 <= i < |paths| :: ValueAt(s, paths[i]).Success? && Split(paths[i], s.sep)[0] == k
      {
        if ValueAt(s, paths[n]).Success? && Split(paths[n], s.sep)[0] == k {
        } else {
          assert k in CloneAll(s.sep, s, init);
          var i :| 0 <= i < |init| && ValueAt(s, init[i]).Success? && Split(init[i], s.sep)[0] == k;
          assert paths[i] == init[i];
        }
      }
    }
  }

  /** Paths none of which resolves give an empty clone. */
  lemma CloneOfNothing(s: Store, paths: seq<string>)
    requires s.sep != ""
    requires forall i | 0 <= i < |paths| :: ValueAt(s, paths[i]).Failure?
    ensures CloningForPaths(s, paths).root == map[]
  {
    CloneTopKeys(s, paths);
  }

  lemma CounterexampleSplits()
    ensures Split("a.b", "/") == ["a.b"]
    ensures Split("a.b", ".") == ["a", "b"]
    ensures Split("a", "/") == ["a"]
    ensures Split("a", ".") == ["a"]
  {
    SplitWithout("a.b", '/');
    SplitWithout("a", '/');
    SplitWithout("a", '.');
    SwapExampleSplits();
  }

  /** With separator `/`, cloning `a.b` and then `a` from
      `{"a.b": 1, a: {b: 2}}` gives a clone in which `a.b` reads 2, where
      the store reads 1: the clone wrote `a.b` as two segments, and the
      later copy of `a` overwrote it. */
  lemma CounterexampleReads(s: Store)
    requires s == Store(map["a.b" := Num(1), "a" := Obj(map["b" := Num(2)])], "/")
    ensures ValueAt(s, "a.b") == Success(Num(1))
    ensures ValueAt(s, "a") == Success(Obj(map["b" := Num(2)]))
  {
    CounterexampleSplits();
  }

  lemma CloneSeparatorCounterexample()
    ensures var s := Store(map["a.b" := Num(1), "a" := Obj(map["b" := Num(2)])], "/");
            && ValueAt(s, "a.b") == Success(Num(1))
            && ValueAt(CloningForPathsAsWritten(s, ["a.b", "a"]), "a.b") == Success(Num(2))
  {
    var s := Store(map["a.b" := Num(1), "a" := Obj(map["b" := Num(2)])], "/");
    CounterexampleReads(s);
    CounterexampleSplits();
    hide ValueAt, Walk, Split;
    var sub := Obj(map["b" := Num(2)]);
    var paths := ["a.b", "a"];
    assert paths[..1] == ["a.b"];
    var first := CloneAll(".", s, ["a.b"]);
    assert CloneAll(".", s, paths) == MapAt(first, ["a"], Constant(Put(sub)));
    WriteReadBelow(first, ["a"], ["b"], Constant(Put(sub)));
    assert ["a"] + ["b"] == ["a", "b"];
    assert Walk(sub, ["b"]) == Found(Num(2));
  }


  /** On the same input the corrected clone reads `a.b` as the store does. */
  lemma CloneSeparatorCorrected()
    ensures var s := Store(map["a.b" := Num(1), "a" := Obj(map["b" := Num(2)])], "/");
            ValueAt(CloningForPaths(s, ["a.b", "a"]), "a.b") == Success(Num(1))
  {
    var s := Store(map["a.b" := Num(1), "a" := Obj(map["b" := Num(2)])], "/");
    CounterexampleSplits();
    assert ValueAt(s, "a.b") == Success(Num(1));
    CloneReadsListedPaths(s, ["a.b", "a"], 0);
  }
}
