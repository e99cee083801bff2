/** Array emulation (src/object+array.ts): the value at a path is treated
    as an array when all its keys are index keys `0..L`. */
module ArrayEmulation {
  import opened Values
  import opened Results
  import opened Paths
  import opened ObjectStore
  import opened Access
  import opened PathWrite
  import opened Modify

  /** The object `_updatingArray` inspects: the value at `path` when it is
      an object, otherwise (missing, primitive) an empty one. */
  function ArrayObject(sep: string, work: map<string, Value>, path: string): map<string, Value> {
    match ResolveIn(Obj(work), path, sep)
    case Success(v) => if v.Obj? then v.fields else map[]
    case Failure(_) => map[]
  }

  lemma {:induction false} MaxWitness(s: set<nat>) returns (x: nat)
    requires s != {}
    ensures x in s && forall y | y in s :: y <= x
    decreases |s|
  {
    var a :| a in s;
    var rest := s - {a};
    if rest == {} {
      x := a;
      assert forall y | y in s :: y in rest || y == a;
    } else {
      var m := MaxWitness(rest);
      x := if a > m then a else m;
      forall y | y in s ensures y <= x {
        if y != a { assert y in rest; }
      }
    }
  }

  lemma MaxExists(s: set<nat>)
    requires s != {}
    ensures exists x | x in s :: forall y | y in s :: y <= x
  {
    var x := MaxWitness(s);
  }

  /** The largest element of a non-empty set of indices. */
  function MaxOf(s: set<nat>): (r: nat)
    requires s != {}
    ensures r in s && forall y | y in s :: y <= r
  {
    MaxExists(s);
    var x :| x in s && forall y | y in s :: y <= x;
    x
  }

  /** `lastIndex` for `_updatingArray`: -1 for an object without keys, the
      largest index when every key is an index key, and nothing (the store
      is returned unchanged) otherwise. `Object.keys` lists index keys
      first, in ascending order, so the last key is the largest index
      exactly when there is no other key. */
  function LastIndexAt(sep: string, work: map<string, Value>, path: string): (r: Option<int>)
    ensures r == Some(-1) <==> ArrayObject(sep, work, path) == map[]
    ensures r.None? <==> exists k | k in ArrayObject(sep, work, path) :: !IsIndexKey(k)
    ensures r.Some? ==> r.value >= -1
    ensures r.Some? && r.value >= 0 ==> NatStr(r.value) in ArrayObject(sep, work, path)
    ensures r.Some? ==> forall k | k in ArrayObject(sep, work, path) ::
                          ParseIndex(k).Some? && ParseIndex(k).value <= r.value
  {
    var arr := ArrayObject(sep, work, path);
    if arr == map[] then Some(-1 as int)
    else if forall k | k in arr :: IsIndexKey(k) then
      var k0 :| k0 in arr;
      var indices := set k | k in arr :: ParseIndex(k).value;
      assert ParseIndex(k0).value in indices;
      var top := MaxOf(indices);
      var kt :| kt in arr && ParseIndex(kt).value == top;
      NatStrParse(kt);
      assert forall k | k in arr :: ParseIndex(k).value in indices;
      Some(top as int)
    else None
  }

  /** `_updatingArray(object, path, arrayFn)`: `arrayFn` receives the
      working root and the last index, unless the store is returned as it
      is. */
  function UpdatingArray(s: Store, work: map<string, Value>, path: string,
                         arrayFn: (map<string, Value>, int) -> Store): (r: Store)
    ensures ArrayObject(s.sep, work, path) == map[] ==> r == arrayFn(work, -1)
    ensures (exists k | k in ArrayObject(s.sep, work, path) :: !IsIndexKey(k)) ==> r == s
    ensures ArrayObject(s.sep, work, path) != map[] && (forall k | k in ArrayObject(s.sep, work, path) :: IsIndexKey(k))
            ==> exists n: nat | NatStr(n) in ArrayObject(s.sep, work, path) ::
                  && r == arrayFn(work, n)
                  && forall k | k in ArrayObject(s.sep, work, path) :: ParseIndex(k).Some? && ParseIndex(k).value <= n
  {
    var found := LastIndexAt(s.sep, work, path);
    match found
    case None => s
    case Some(last) =>
      if last >= 0 then
        var n: nat := last;
        assert NatStr(n) in ArrayObject(s.sep, work, path);
        arrayFn(work, n)
      else arrayFn(work, last)
  }

  // ---------------------------------------------------------------------
  // Removal

  /** One move of the removal loop: element `i + 1` is moved to `i`. */
  function MoveDown(sep: string, work: map<string, Value>, path: string, i: int): map<string, Value> {
    MovingIn(sep, work, JoinIndex(sep, path, i + 1), JoinIndex(sep, path, i))
  }

  /** The loop of `removingArrayIndex` from index `i` on: move each later
      element down one place, and delete the last one. */
  function RemoveShift(sep: string, work: map<string, Value>, path: string, i: int, last: int): map<string, Value>
    decreases last - i
  {
    if i > last then work
    else if i == last then RemovingIn(sep, work, JoinIndex(sep, path, i))
    else
      RemoveShift(sep, MoveDown(sep, work, path, i), path, i + 1, last)
  }

  /** What element `j` of the array at `path` walks to. */
  function Slot(sep: string, work: map<string, Value>, path: string, j: nat): Walked {
    Walk(Obj(work), Split(path, sep) + [NatStr(j)])
  }

  /** Two different elements of one array sit on diverging paths. */
  lemma SiblingsDiverge(p: seq<string>, a: nat, b: nat)
    requires a != b
    ensures Diverge(p + [NatStr(a)], p + [NatStr(b)])
  {
    NatStrInjective(a, b);
    assert (p + [NatStr(a)])[|p|] == NatStr(a);
    assert (p + [NatStr(b)])[|p|] == NatStr(b);
  }

  /** A path diverging from an array's path diverges from its elements. */
  lemma OutsideDiverges(p: seq<string>, q: seq<string>, x: string)
    requires Diverge(p, q)
    ensures Diverge(p, q + [x])
  {
    assert q <= q + [x];
  }

  /** One move of the removal loop puts element `i + 1` at `i`. */
  lemma MoveStepDest(sep: string, work: map<string, Value>, path: string, i: nat)
    requires ArraySep(sep, path)
    ensures Slot(sep, MoveDown(sep, work, path, i), path, i) == Slot(sep, work, path, i + 1)
  {
    var segs := Split(path, sep);
    JoinIndexSplits(sep, path, i);
    JoinIndexSplits(sep, path, i + 1);
    var src := JoinIndex(sep, path, i + 1);
    var dest := JoinIndex(sep, path, i);
    var copied := CopyingIn(sep, work, src, dest);
    var e := segs + [NatStr(i)];
    SiblingsDiverge(segs, i + 1, i);
    WriteFrame(copied, segs + [NatStr(i + 1)], e, Constant(Delete));
    CopyingInCarriesSubtree(sep, work, src, dest, []);
    assert e + [] == e;
    assert (segs + [NatStr(i + 1)]) + [] == segs + [NatStr(i + 1)];
  }

  /** One move of the removal loop leaves `i + 1` empty. */
  lemma MoveStepSource(sep: string, work: map<string, Value>, path: string, i: nat)
    requires ArraySep(sep, path)
    ensures Slot(sep, MoveDown(sep, work, path, i), path, i + 1) == Missing
  {
    var segs := Split(path, sep);
    JoinIndexSplits(sep, path, i);
    JoinIndexSplits(sep, path, i + 1);
    var copied := CopyingIn(sep, work, JoinIndex(sep, path, i + 1), JoinIndex(sep, path, i));
    var e := segs + [NatStr(i + 1)];
    WriteReadBelow(copied, e, [], Constant(Delete));
    assert e + [] == e;
  }

  /** One move of the removal loop changes no element but `i` and `i + 1`. */
  lemma MoveStepOther(sep: string, work: map<string, Value>, path: string, i: nat, j: nat)
    requires ArraySep(sep, path) && j != i && j != i + 1
    ensures Slot(sep, MoveDown(sep, work, path, i), path, j) == Slot(sep, work, path, j)
  {
    var segs := Split(path, sep);
    JoinIndexSplits(sep, path, i);
    JoinIndexSplits(sep, path, i + 1);
    var src := JoinIndex(sep, path, i + 1);
    var copied := CopyingIn(sep, work, src, JoinIndex(sep, path, i));
    var e := segs + [NatStr(j)];
    SiblingsDiverge(segs, i + 1, j);
    SiblingsDiverge(segs, i, j);
    var v := ResolveIn(Obj(work), src, sep).ValueOr(Undef);
    WriteFrame(copied, segs + [NatStr(i + 1)], e, Constant(Delete));
    WriteFrame(work, segs + [NatStr(i)], e, Constant(Put(v)));
  }

  /** One move of the removal loop changes nothing outside the array. */
  lemma MoveStepOutside(sep: string, work: map<string, Value>, path: string, i: nat, p: seq<string>)
    requires ArraySep(sep, path) && Diverge(p, Split(path, sep))
    ensures Walk(Obj(MoveDown(sep, work, path, i)), p)
         == Walk(Obj(work), p)
  {
    var segs := Split(path, sep);
    JoinIndexSplits(sep, path, i);
    JoinIndexSplits(sep, path, i + 1);
    var src := JoinIndex(sep, path, i + 1);
    var v := ResolveIn(Obj(work), src, sep).ValueOr(Undef);
    OutsideDiverges(p, segs, NatStr(i));
    OutsideDiverges(p, segs, NatStr(i + 1));
    WriteFrame(CopyingIn(sep, work, src, JoinIndex(sep, path, i)), segs + [NatStr(i + 1)], p, Constant(Delete));
    WriteFrame(work, segs + [NatStr(i)], p, Constant(Put(v)));
  }

  /** The last step of the removal loop deletes the last element only. */
  lemma RemoveLastSlot(sep: string, work: map<string, Value>, path: string, last: nat, j: nat)
    requires ArraySep(sep, path)
    ensures Slot(sep, RemovingIn(sep, work, JoinIndex(sep, path, last)), path, j)
         == if j == last then Missing else Slot(sep, work, path, j)
  {
    var segs := Split(path, sep);
    JoinIndexSplits(sep, path, last);
    var e := segs + [NatStr(j)];
    if j == last {
      WriteReadBelow(work, e, [], Constant(Delete));
      assert e + [] == e;
    } else {
      SiblingsDiverge(segs, last, j);
      WriteFrame(work, segs + [NatStr(last)], e, Constant(Delete));
    }
  }

  /** The last step of the removal loop changes nothing outside the array. */
  lemma RemoveLastOutside(sep: string, work: map<string, Value>, path: string, last: nat, p: seq<string>)
    requires ArraySep(sep, path) && Diverge(p, Split(path, sep))
    ensures Walk(Obj(RemovingIn(sep, work, JoinIndex(sep, path, last))), p) == Walk(Obj(work), p)
  {
    JoinIndexSplits(sep, path, last);
    OutsideDiverges(p, Split(path, sep), NatStr(last));
    WriteFrame(work, Split(path, sep) + [NatStr(last)], p, Constant(Delete));
  }

  /** The removal loop from `i` leaves the elements before `i` alone. */
  lemma {:induction false} ShiftSlotBefore(sep: string, work: map<string, Value>, path: string, i: nat, last: nat, j: nat)
    requires ArraySep(sep, path) && j < i <= last
    ensures Slot(sep, RemoveShift(sep, work, path, i, last), path, j) == Slot(sep, work, path, j)
    decreases last - i
  {
    hide MoveDown;
    if i == last {
      RemoveLastSlot(sep, work, path, last, j);
    } else {
      ShiftSlotBefore(sep, MoveDown(sep, work, path, i), path, i + 1, last, j);
      MoveStepOther(sep, work, path, i, j);
    }
  }

  /** The removal loop from `i` gives element `i` its successor's value. */
  lemma ShiftSlotFirst(sep: string, work: map<string, Value>, path: string, i: nat, last: nat)
    requires ArraySep(sep, path) && i < last
    ensures Slot(sep, RemoveShift(sep, work, path, i, last), path, i) == Slot(sep, work, path, i + 1)
  {
    hide MoveDown;
    ShiftSlotBefore(sep, MoveDown(sep, work, path, i), path, i + 1, last, i);
    MoveStepDest(sep, work, path, i);
  }

  /** The removal loop from `i` gives each element from `i` to `last - 1`
      its successor's value. */
  lemma {:induction false} ShiftSlotInside(sep: string, work: map<string, Value>, path: string, i: nat, last: nat, j: nat)
    requires ArraySep(sep, path) && i <= j < last
    ensures Slot(sep, RemoveShift(sep, work, path, i, last), path, j) == Slot(sep, work, path, j + 1)
    decreases last - i
  {
    hide MoveDown;
    if j == i {
      ShiftSlotFirst(sep, work, path, i, last);
    } else {
      ShiftSlotInside(sep, MoveDown(sep, work, path, i), path, i + 1, last, j);
      MoveStepOther(sep, work, path, i, j + 1);
    }
  }

  /** The removal loop from `i` leaves no element at `last`. */
  lemma {:induction false} ShiftSlotLast(sep: string, work: map<string, Value>, path: string, i: nat, last: nat)
    requires ArraySep(sep, path) && i <= last
    ensures Slot(sep, RemoveShift(sep, work, path, i, last), path, last) == Missing
    decreases last - i
  {
    hide MoveDown;
    if i == last {
      RemoveLastSlot(sep, work, path, last, last);
    } else {
      ShiftSlotLast(sep, MoveDown(sep, work, path, i), path, i + 1, last);
    }
  }

  /** The removal loop leaves the slots past `last` alone. */
  lemma {:induction false} ShiftSlotAfter(sep: string, work: map<string, Value>, path: string, i: nat, last: nat, j: nat)
    requires ArraySep(sep, path) && i <= last < j
    ensures Slot(sep, RemoveShift(sep, work, path, i, last), path, j) == Slot(sep, work, path, j)
    decreases last - i
  {
    hide MoveDown;
    if i == last {
      RemoveLastSlot(sep, work, path, last, j);
    } else {
      ShiftSlotAfter(sep, MoveDown(sep, work, path, i), path, i + 1, last, j);
      MoveStepOther(sep, work, path, i, j);
    }
  }

  /** The removal loop from `i` to `last`: elements before `i` stay, each
      element from `i` on takes the value of its successor, the last one is
      gone, and elements past the end stay. */
  lemma ShiftSlot(sep: string, work: map<string, Value>, path: string, i: nat, last: nat, j: nat)
    requires ArraySep(sep, path) && i <= last
    ensures Slot(sep, RemoveShift(sep, work, path, i, last), path, j)
         == if j < i then Slot(sep, work, path, j)
            else if j < last then Slot(sep, work, path, j + 1)
            else if j == last then Missing
            else Slot(sep, work, path, j)
  {
    if j < i {
      ShiftSlotBefore(sep, work, path, i, last, j);
    } else if j < last {
      ShiftSlotInside(sep, work, path, i, last, j);
    } else if j == last {
      ShiftSlotLast(sep, work, path, i, last);
    } else {
      ShiftSlotAfter(sep, work, path, i, last, j);
    }
  }

  /** The removal loop changes nothing outside the array. */
  lemma {:induction false} ShiftOutside(sep: string, work: map<string, Value>, path: string, i: nat, last: int,
                                        p: seq<string>)
    requires ArraySep(sep, path) && Diverge(p, Split(path, sep))
    ensures Walk(Obj(RemoveShift(sep, work, path, i, last)), p) == Walk(Obj(work), p)
    decreases last - i
  {
    hide MoveDown;
    if i == last {
      RemoveLastOutside(sep, work, path, last, p);
    } else if i < last {
      var moved := MoveDown(sep, work, path, i);
      ShiftOutside(sep, moved, path, i + 1, last, p);
      MoveStepOutside(sep, work, path, i, p);
    }
  }

  /** `removingArrayIndex(path, index)`. */
  function RemovingArrayIndex(s: Store, path: string, index: int): Store {
    UpdatingArray(s, s.root, path, (v, last) => Store(RemoveShift(s.sep, v, path, index, last), s.sep))
  }

  // ---------------------------------------------------------------------
  // Upsert

  /** Where the scan of `upsertingInArray` stopped. */
  datatype Scan = HitAt(n: nat) | NoMatch | RaisedAt(n: nat)

  /** `_valueAtNode(v, buildPath(i)).value`. */
  function ElementAt(sep: string, work: map<string, Value>, path: string, i: int): Value {
    ResolveIn(Obj(work), JoinIndex(sep, path, i), sep).ValueOr(Undef)
  }

  /** The elements of the array at `path`, by index. */
  function Elements(sep: string, work: map<string, Value>, path: string): int -> Value {
    j => ElementAt(sep, work, path, j)
  }

  /** Element `j` of `elem` does not stop the scan: it is
      `undefined`/`null`, or the comparator answers false. */
  predicate Skipped(elem: int -> Value, x: Value, cmp: (Value, Value) -> Verdict, j: int) {
    IsNullish(elem(j)) || cmp(elem(j), x) == Returned(false)
  }

  /** Element `j` of `elem` stops the scan with verdict `v`. */
  predicate StopsWith(elem: int -> Value, x: Value, cmp: (Value, Value) -> Verdict, j: int, v: Verdict) {
    !IsNullish(elem(j)) && cmp(elem(j), x) == v
  }

  /** The scan of `upsertingInArray` over indices `i..last`; `elem` reads
      the element at an index. */
  function FirstMatch(elem: int -> Value, x: Value, cmp: (Value, Value) -> Verdict, i: nat, last: int): (r: Scan)
    ensures (r.HitAt? || r.RaisedAt?) ==> i <= r.n <= last
    decreases last - i
  {
    if i > last then NoMatch
    else
      var y := elem(i);
      if IsNullish(y) then FirstMatch(elem, x, cmp, i + 1, last)
      else match cmp(y, x)
        case Returned(true) => HitAt(i)
        case Returned(false) => FirstMatch(elem, x, cmp, i + 1, last)
        case Raised => RaisedAt(i)
  }

  /** The scan stops at the first element that is present and not answered
      false, and reports which answer it got there. */
  lemma {:induction false} FirstMatchIsFirst(elem: int -> Value, x: Value, cmp: (Value, Value) -> Verdict,
                                             i: nat, last: int)
    ensures var r := FirstMatch(elem, x, cmp, i, last);
            && (r.HitAt? ==> StopsWith(elem, x, cmp, r.n, Returned(true)))
            && (r.RaisedAt? ==> StopsWith(elem, x, cmp, r.n, Raised))
            && (r.NoMatch? <==> forall j | i <= j <= last :: Skipped(elem, x, cmp, j))
            && ((r.HitAt? || r.RaisedAt?) ==> forall j | i <= j < r.n :: Skipped(elem, x, cmp, j))
    decreases last - i
  {
    if i <= last {
      if Skipped(elem, x, cmp, i) {
        FirstMatchIsFirst(elem, x, cmp, i + 1, last);
        assert (forall j | i <= j <= last :: Skipped(elem, x, cmp, j))
           <==> (forall j | i + 1 <= j <= last :: Skipped(elem, x, cmp, j));
      }
    }
  }

  /** The array function of `upsertingInArray`: overwrite the first match,
      or write at `last + 1`; a raising comparator leaves the store as it
      was. */
  function Upserted(s: Store, work: map<string, Value>, path: string, x: Value,
                    cmp: (Value, Value) -> Verdict, last: int): Store {
    match FirstMatch(Elements(s.sep, work, path), x, cmp, 0, last)
    case HitAt(n) => Store(UpdatingIn(s.sep, work, JoinIndex(s.sep, path, n), Put(x)), s.sep)
    case NoMatch => Store(UpdatingIn(s.sep, work, JoinIndex(s.sep, path, last + 1), Put(x)), s.sep)
    case RaisedAt(_) => s
  }

  /** `upsertingInArray(path, value, compareFn?)`. */
  function UpsertingInArray(s: Store, path: string, x: Value,
                            fn: Option<(Value, Value) -> Verdict>): Store {
    UpdatingArray(s, s.root, path, (v, last) => Upserted(s, v, path, x, Chosen(fn), last))
  }

  /** The comparator given, or `===` when there is none. */
  function Chosen(fn: Option<(Value, Value) -> Verdict>): (Value, Value) -> Verdict {
    if fn.Some? then fn.value else DefaultComparator()
  }

  // ---------------------------------------------------------------------
  // What the array operations do, read through the store

  /** What `valueAtNode(join(sep, path, j))` yields, as an option. */
  function SlotValue(s: Store, path: string, j: nat): Option<Value> {
    ValueAt(s, JoinIndex(s.sep, path, j)).ToOption()
  }

  /** The first `n` elements of the array at `path`. */
  function Slots(s: Store, path: string, n: nat): (r: seq<Option<Value>>)
    ensures |r| == n
  {
    seq(n, j requires 0 <= j < n => SlotValue(s, path, j))
  }

  /** How a value reads back once stored: `undefined` and `null` read as
      nothing. */
  function Settled(x: Value): Option<Value> {
    if IsNullish(x) then None else Some(x)
  }

  lemma SlotValueIsSlot(s: Store, path: string, j: nat)
    requires ArraySep(s.sep, path)
    ensures SlotValue(s, path, j) == match Slot(s.sep, s.root, path, j)
                                     case Found(v) => Some(v)
                                     case _ => None
  {
    JoinIndexSplits(s.sep, path, j);
  }

  /** `removingArrayIndex(path, i)` for an index inside the array: elements
      before `i` keep their values, each element from `i` on takes its
      successor's value, the last element is gone, and elements past the
      end are untouched. The separator is kept. */
  lemma RemovingArrayIndexUnfolds(s: Store, path: string, i: nat, last: int)
    requires LastIndexAt(s.sep, s.root, path) == Some(last) && i <= last
    ensures RemovingArrayIndex(s, path, i) == Store(RemoveShift(s.sep, s.root, path, i, last), s.sep)
  {
  }

  lemma RemovingArrayIndexShifts(s: Store, path: string, i: nat, last: int, j: nat)
    requires ArraySep(s.sep, path) && LastIndexAt(s.sep, s.root, path) == Some(last) && i <= last
    ensures RemovingArrayIndex(s, path, i).sep == s.sep
    ensures SlotValue(RemovingArrayIndex(s, path, i), path, j)
         == if j < i then SlotValue(s, path, j)
            else if j < last then SlotValue(s, path, j + 1)
            else if j == last then None
            else SlotValue(s, path, j)
  {
    hide *;
    RemovingArrayIndexUnfolds(s, path, i, last);
    var r := Store(RemoveShift(s.sep, s.root, path, i, last), s.sep);
    ShiftSlot(s.sep, s.root, path, i, last, j);
    SlotValueIsSlot(r, path, j);
    SlotValueIsSlot(s, path, j);
    SlotValueIsSlot(s, path, j + 1);
  }

  lemma SpliceAt<T>(xs: seq<T>, i: nat, j: nat)
    requires i < |xs| && j < |xs| - 1
    ensures (xs[..i] + xs[i + 1..])[j] == if j < i then xs[j] else xs[j + 1]
  {
  }

  lemma SpliceSlot(s: Store, path: string, i: nat, last: int, j: nat)
    requires ArraySep(s.sep, path) && LastIndexAt(s.sep, s.root, path) == Some(last) && i <= last && j < last
    ensures Slots(RemovingArrayIndex(s, path, i), path, last)[j]
         == (Slots(s, path, last + 1)[..i] + Slots(s, path, last + 1)[i + 1..])[j]
  {
    RemovingArrayIndexShifts(s, path, i, last, j);
    SpliceAt(Slots(s, path, last + 1), i, j);
  }

  /** The same, as a splice: the `last + 1` elements lose element `i`. */
  lemma RemovingArrayIndexSplices(s: Store, path: string, i: nat, last: int)
    requires ArraySep(s.sep, path) && LastIndexAt(s.sep, s.root, path) == Some(last) && i <= last
    ensures Slots(RemovingArrayIndex(s, path, i), path, last)
         == Slots(s, path, last + 1)[..i] + Slots(s, path, last + 1)[i + 1..]
  {
    var before := Slots(s, path, last + 1);
    var after := Slots(RemovingArrayIndex(s, path, i), path, last);
    forall j | 0 <= j < last
      ensures after[j] == (before[..i] + before[i + 1..])[j]
    {
      SpliceSlot(s, path, i, last, j);
    }
  }

  /** `removingArrayIndex` changes nothing outside the array. */
  lemma RemovingArrayIndexOutside(s: Store, path: string, i: nat, other: string)
    requires ArraySep(s.sep, path) && Diverge(Split(other, s.sep), Split(path, s.sep))
    ensures ValueAt(RemovingArrayIndex(s, path, i), other) == ValueAt(s, other)
  {
    var found := LastIndexAt(s.sep, s.root, path);
    if found.Some? {
      ShiftOutside(s.sep, s.root, path, i, found.value, Split(other, s.sep));
    }
  }

  /** An index past the end, or a value that is not array-like, leaves the
      store as it was. */
  lemma RemovingArrayIndexPastEnd(s: Store, path: string, i: int)
    requires LastIndexAt(s.sep, s.root, path).None?
          || (LastIndexAt(s.sep, s.root, path).Some? && i > LastIndexAt(s.sep, s.root, path).value)
    ensures RemovingArrayIndex(s, path, i) == s
  {
  }

  /** Writing element `n` of an array changes that element alone. */
  lemma WriteElement(s: Store, path: string, x: Value, n: nat, j: nat)
    requires ArraySep(s.sep, path)
    ensures SlotValue(Store(UpdatingIn(s.sep, s.root, JoinIndex(s.sep, path, n), Put(x)), s.sep), path, j)
         == if j == n then Settled(x) else SlotValue(s, path, j)
  {
    var r := Store(UpdatingIn(s.sep, s.root, JoinIndex(s.sep, path, n), Put(x)), s.sep);
    var segs := Split(path, s.sep);
    var e := segs + [NatStr(j)];
    JoinIndexSplits(s.sep, path, n);
    SlotValueIsSlot(r, path, j);
    SlotValueIsSlot(s, path, j);
    if j == n {
      WriteReadBelow(s.root, e, [], Constant(Put(x)));
      assert e + [] == e;
    } else {
      SiblingsDiverge(segs, n, j);
      WriteFrame(s.root, segs + [NatStr(n)], e, Constant(Put(x)));
    }
  }

  /** Writing an element of an array changes nothing outside it. */
  lemma WriteElementOutside(s: Store, path: string, x: Value, n: nat, other: string)
    requires ArraySep(s.sep, path) && Diverge(Split(other, s.sep), Split(path, s.sep))
    ensures ValueAt(Store(UpdatingIn(s.sep, s.root, JoinIndex(s.sep, path, n), Put(x)), s.sep), other)
         == ValueAt(s, other)
  {
    var segs := Split(path, s.sep);
    var p := Split(other, s.sep);
    JoinIndexSplits(s.sep, path, n);
    OutsideDiverges(p, segs, NatStr(n));
    WriteFrame(s.root, segs + [NatStr(n)], p, Constant(Put(x)));
  }

  lemma UpsertUnfolds(s: Store, path: string, x: Value, fn: Option<(Value, Value) -> Verdict>, last: int)
    requires LastIndexAt(s.sep, s.root, path) == Some(last)
    ensures UpsertingInArray(s, path, x, fn)
         == Upserted(s, s.root, path, x, Chosen(fn), last)
  {
  }

  /** `upsertingInArray(path, x, fn)` when the scan finds a match at `n`:
      that element alone is overwritten. */
  lemma UpsertOverwritesMatch(s: Store, path: string, x: Value, fn: Option<(Value, Value) -> Verdict>,
                              last: int, n: nat, j: nat)
    requires ArraySep(s.sep, path) && LastIndexAt(s.sep, s.root, path) == Some(last)
    requires FirstMatch(Elements(s.sep, s.root, path), x, Chosen(fn), 0, last) == HitAt(n)
    ensures SlotValue(UpsertingInArray(s, path, x, fn), path, j)
         == if j == n then Settled(x) else SlotValue(s, path, j)
  {
    UpsertUnfolds(s, path, x, fn, last);
    WriteElement(s, path, x, n, j);
  }

  /** `upsertingInArray(path, x, fn)` when no element matches: `x` goes to
      index `last + 1` and no other element changes. */
  lemma UpsertAppends(s: Store, path: string, x: Value, fn: Option<(Value, Value) -> Verdict>, last: int, j: nat)
    requires ArraySep(s.sep, path) && LastIndexAt(s.sep, s.root, path) == Some(last)
    requires FirstMatch(Elements(s.sep, s.root, path), x, Chosen(fn), 0, last) == NoMatch
    ensures SlotValue(UpsertingInArray(s, path, x, fn), path, j)
         == if j == last + 1 then Settled(x) else SlotValue(s, path, j)
  {
    assert last >= -1;
    var top: nat := last + 1;
    UpsertUnfolds(s, path, x, fn, last);
    assert UpsertingInArray(s, path, x, fn)
        == Store(UpdatingIn(s.sep, s.root, JoinIndex(s.sep, path, top), Put(x)), s.sep);
    WriteElement(s, path, x, top, j);
  }

  /** A comparator that raises during the scan leaves the store as it was. */
  lemma UpsertRaisedKeeps(s: Store, path: string, x: Value, cmp: (Value, Value) -> Verdict, last: int)
    requires LastIndexAt(s.sep, s.root, path) == Some(last)
    requires FirstMatch(Elements(s.sep, s.root, path), x, cmp, 0, last).RaisedAt?
    ensures UpsertingInArray(s, path, x, Some(cmp)) == s
  {
    UpsertUnfolds(s, path, x, Some(cmp), last);
  }

  /** Upserting into a missing, non-object or empty array writes index 0. */
  lemma UpsertIntoEmpty(s: Store, path: string, x: Value, fn: Option<(Value, Value) -> Verdict>, j: nat)
    requires ArraySep(s.sep, path) && ArrayObject(s.sep, s.root, path) == map[]
    ensures SlotValue(UpsertingInArray(s, path, x, fn), path, j)
         == if j == 0 then Settled(x) else SlotValue(s, path, j)
  {
    UpsertAppends(s, path, x, fn, -1, j);
  }

  /** `upsertingInArray` changes nothing outside the array. */
  lemma UpsertOutside(s: Store, path: string, x: Value, fn: Option<(Value, Value) -> Verdict>, other: string)
    requires ArraySep(s.sep, path) && Diverge(Split(other, s.sep), Split(path, s.sep))
    ensures ValueAt(UpsertingInArray(s, path, x, fn), other) == ValueAt(s, other)
  {
    var cmp := Chosen(fn);
    var found := LastIndexAt(s.sep, s.root, path);
    if found.Some? {
      var last := found.value;
      UpsertUnfolds(s, path, x, fn, last);
      match FirstMatch(Elements(s.sep, s.root, path), x, cmp, 0, last)
      case HitAt(n) =>
        WriteElementOutside(s, path, x, n, other);
      case NoMatch =>
        WriteElementOutside(s, path, x, last + 1, other);
      case RaisedAt(_) =>
    }
  }

  /** Writing back the value an element already holds changes nothing. */
  lemma RewriteElement(s: Store, path: string, m: nat)
    requires !IsNullish(Elements(s.sep, s.root, path)(m))
    ensures Store(UpdatingIn(s.sep, s.root, JoinIndex(s.sep, path, m), Put(Elements(s.sep, s.root, path)(m))), s.sep) == s
  {
    var x := Elements(s.sep, s.root, path)(m);
    var q := JoinIndex(s.sep, path, m);
    JoinIndexIs(s.sep, path, m);
    SplitNotEmpty(s.sep, q);
    assert ResolveIn(Obj(s.root), q, s.sep) == Success(x);
    WriteSameIsIdentity(s.root, Split(q, s.sep), x);
  }

  /** With the default comparator, upserting a value that some element
      already holds leaves the store as it was: the first match holds that
      same value, and writing it back changes nothing. */
  lemma UpsertPresentIsNoOp(s: Store, path: string, x: Value, last: int, n: nat)
    requires LastIndexAt(s.sep, s.root, path) == Some(last) && n <= last
    requires SlotValue(s, path, n) == Some(x)
    ensures UpsertingInArray(s, path, x, None) == s
  {
    var elem := Elements(s.sep, s.root, path);
    var cmp := DefaultComparator();
    assert elem(n) == x;
    assert !Skipped(elem, x, cmp, n);
    FirstMatchIsFirst(elem, x, cmp, 0, last);
    var scan := FirstMatch(elem, x, cmp, 0, last);
    assert scan.HitAt?;
    assert elem(scan.n) == x;
    UpsertUnfolds(s, path, x, None, last);
    RewriteElement(s, path, scan.n);
  }

  lemma SmallNatStr()
    ensures NatStr(3) == "3" && NatStr(4) == "4" && NatStr(5) == "5"
  {
  }

  lemma HoleExampleLast(root: map<string, Value>)
    requires root == map["a" := Obj(map["5" := Num(0)])]
    ensures LastIndexAt(".", root, "a") == Some(5)
  {
    SplitWithout("a", '.');
    assert ["a"][1..] == [];
    assert Walk(Obj(root), ["a"]) == Found(Obj(map["5" := Num(0)]));
    assert ArrayObject(".", root, "a") == map["5" := Num(0)];
    SmallNatStr();
    ParseNatStr(5);
    assert IsIndexKey("5");
    var last := LastIndexAt(".", root, "a");
    assert last.Some? && last.value >= 0;
    NatStrInjective(last.value, 5);
  }

  lemma HoleExampleSlotFour(s: Store)
    requires s == Store(map["a" := Obj(map["5" := Num(0)])], ".")
    ensures SlotValue(s, "a", 4) == None
  {
    SmallNatStr();
    SplitWithout("a", '.');
    OneCharArraySep(".", "a");
    SlotValueIsSlot(s, "a", 4);
    assert ["a"] + [NatStr(4)] == ["a", "4"];
  }

  lemma HoleExampleSlotFive(s: Store)
    requires s == Store(map["a" := Obj(map["5" := Num(0)])], ".")
    ensures SlotValue(s, "a", 5) == Some(Num(0))
  {
    SmallNatStr();
    SplitWithout("a", '.');
    OneCharArraySep(".", "a");
    SlotValueIsSlot(s, "a", 5);
    assert ["a"] + [NatStr(5)] == ["a", "5"];
  }

  /** The example of test/object.array.test.ts: removing index 3 from
      `{a: {5: 0}}` shifts the holes at 3 and 4 like elements, so `a.3`
      and `a.5` no longer resolve and `a.4` holds 0. */
  lemma RemoveHoleExample(s: Store)
    requires s == Store(map["a" := Obj(map["5" := Num(0)])], ".")
    ensures SlotValue(RemovingArrayIndex(s, "a", 3), "a", 3) == None
    ensures SlotValue(RemovingArrayIndex(s, "a", 3), "a", 4) == Some(Num(0))
    ensures SlotValue(RemovingArrayIndex(s, "a", 3), "a", 5) == None
  {
    HoleExampleLast(s.root);
    HoleExampleSlotFour(s);
    HoleExampleSlotFive(s);
    OneCharArraySep(".", "a");
    RemovingArrayIndexShifts(s, "a", 3, 5, 3);
    RemovingArrayIndexShifts(s, "a", 3, 5, 4);
    RemovingArrayIndexShifts(s, "a", 3, 5, 5);
  }
}
