/** The plain hierarchical data a store holds, and the shallow copies the
    mutator makes of it (src/util.ts). */
module Values {

  /** A stored value. JavaScript arrays are objects whose keys are index
      strings, so both are `Obj`. `Undef` is a key that is present but holds
      `undefined`; an absent key is not in the map at all. */
  datatype Value =
    | Undef
    | Null
    | Bool(b: bool)
    | Num(n: int)
    | Str(s: string)
    | Obj(fields: map<string, Value>)

  predicate IsNullish(v: Value) {
    v.Undef? || v.Null?
  }

  /** The runtime types `boolean`, `number` and `string`. */
  predicate IsPrimitive(v: Value) {
    v.Bool? || v.Num? || v.Str?
  }

  /** What the mutator's map function hands back: the delete marker, or a
      value to store (possibly `undefined` or `null`). */
  datatype Write = Delete | Put(value: Value)

  /** The default comparator `v1 === v2`. Values have no identity here, so
      strict equality is structural equality. */
  predicate StrictEquals(v1: Value, v2: Value) {
    v1 == v2
  }

  /** What a caller-supplied comparator does: answer, or raise. */
  datatype Verdict = Returned(b: bool) | Raised

  /** The default comparator `(v1, v2) => v1 === v2`. */
  function DefaultComparator(): (Value, Value) -> Verdict {
    (a, b) => Returned(StrictEquals(a, b))
  }

  /** `shallowCloneObject`: a new object with the same top-level entries. */
  function ShallowCloneObject(m: map<string, Value>): (r: map<string, Value>)
    ensures r.Keys == m.Keys
    ensures forall k | k in r :: r[k] == m[k]
  {
    map k | k in m :: m[k]
  }

  /** `shallowClone`: the delete marker, `undefined`, `null` and primitives
      come back as they are; an object comes back as a copy of its entries.
      With value semantics every copy equals its original, so a later change
      to the original can never show through the copy. */
  function ShallowClone(w: Write): (r: Write)
    ensures r == w
  {
    match w
    case Delete => w
    case Put(v) =>
      match v
      case Obj(m) =>
        var copy := ShallowCloneObject(m);
        assert copy == m;
        Put(Obj(copy))
      case _ => w
  }
}
