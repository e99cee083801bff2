/** Comparing the values at two paths of one store
    (src/object+compare.ts). */
module Comparison {
  import opened Values
  import opened Results
  import opened Paths
  import opened ObjectStore
  import opened Access
  import opened Modify

  /** `compareValues(lhs, rhs, compareFn?)`: both paths are resolved and the
      two values handed to the comparator, `===` when none is given. A
      failure on the left is reported before one on the right. */
  function CompareValues(s: Store, lhs: string, rhs: string, fn: Option<(Value, Value) -> bool>): (r: Result<bool>)
    ensures r.Success? <==> ValueAt(s, lhs).Success? && ValueAt(s, rhs).Success?
    ensures r.Success? ==>
              r.value == (if fn.Some? then fn.value else StrictEquals)(ValueAt(s, lhs).value, ValueAt(s, rhs).value)
    ensures ValueAt(s, lhs).Failure? ==> r == Failure(ValueAt(s, lhs).error)
    ensures ValueAt(s, lhs).Success? && ValueAt(s, rhs).Failure? ==> r == Failure(ValueAt(s, rhs).error)
  {
    var cmp := if fn.Some? then fn.value else StrictEquals;
    match ValueAt(s, lhs)
    case Failure(e) => Failure(e)
    case Success(v1) =>
      match ValueAt(s, rhs)
      case Failure(e) => Failure(e)
      case Success(v2) => Success(cmp(v1, v2))
  }

  /** With the default comparator a path that resolves compares equal to
      itself, and one that does not gives its resolution error. */
  lemma CompareWithItself(s: Store, path: string)
    ensures CompareValues(s, path, path, None)
         == if ValueAt(s, path).Success? then Success(true) else Failure(ValueAt(s, path).error)
  {
  }

  /** With the default comparator, swapping the two paths changes neither
      whether the comparison succeeds nor its answer. */
  lemma CompareSymmetric(s: Store, lhs: string, rhs: string)
    ensures CompareValues(s, lhs, rhs, None).ToOption() == CompareValues(s, rhs, lhs, None).ToOption()
  {
  }

  /** With the default comparator the answer is true exactly when both
      paths hold the same value. */
  lemma CompareIsSameValue(s: Store, lhs: string, rhs: string)
    ensures CompareValues(s, lhs, rhs, None) == Success(true)
        <==> ValueAt(s, lhs).Success? && ValueAt(s, lhs) == ValueAt(s, rhs)
  {
  }

  /** After `copyingValue(src, dest)` between diverging paths, the two paths
      compare equal exactly when the source path resolved. */
  lemma CompareAfterCopy(s: Store, src: string, dest: string)
    requires s.sep != ""
    requires Diverge(Split(src, s.sep), Split(dest, s.sep))
    ensures CompareValues(CopyingValue(s, src, dest), src, dest, None) == Success(true)
        <==> ValueAt(s, src).Success?
  {
    CopyThenRead(s, src, dest);
    var t := CopyingValue(s, src, dest);
    if ValueAt(s, src).Success? {
      assert ValueAt(t, dest).ToOption() == Some(ValueAt(s, src).value);
    }
  }
}
