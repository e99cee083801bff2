/** The store itself (src/object.ts) and its constructors
    (src/object+utility.ts): an immutable root object plus the separator
    that paths are split on, built through a builder. */
module ObjectStore {
  import opened Values
  import opened Results

  const DefaultSeparator: string := "."

  /** A store snapshot. The root is always an object. */
  datatype Store = Store(root: map<string, Value>, sep: string)

  /** `new Impl()`: an empty root and the default separator. */
  function NewImpl(): Store {
    Store(map[], DefaultSeparator)
  }

  /** The `object` getter: a shallow copy of the root, so whatever a caller
      adds to it stays outside the store. */
  function Snapshot(s: Store): (r: map<string, Value>)
    ensures r == s.root
  {
    ShallowCloneObject(s.root)
  }

  /** A builder holds the store it is drafting. */
  datatype Builder = Builder(draft: Store)

  /** `builder()` and `new Builder()`. */
  function NewBuilder(): Builder {
    Builder(NewImpl())
  }

  /** `withObject`: `None` stands for `undefined`/`null`, which are ignored. */
  function WithObject(b: Builder, obj: Option<map<string, Value>>): (r: Builder)
    ensures r.draft.sep == b.draft.sep
    ensures obj.None? ==> r == b
    ensures obj.Some? ==> r.draft.root == obj.value
  {
    if obj.Some? then Builder(Store(obj.value, b.draft.sep)) else b
  }

  /** `withPathSeparator`: `None` stands for `undefined`/`null`, which are
      ignored. Any string, the empty one included, is taken. */
  function WithPathSeparator(b: Builder, sep: Option<string>): (r: Builder)
    ensures r.draft.root == b.draft.root
    ensures sep.None? ==> r == b
    ensures sep.Some? ==> r.draft.sep == sep.value
  {
    if sep.Some? then Builder(Store(b.draft.root, sep.value)) else b
  }

  /** `withBuildable`: take over another store's root and separator. */
  function WithBuildable(b: Builder, other: Option<Store>): (r: Builder)
    ensures other.None? ==> r == b
    ensures other.Some? ==> r.draft == other.value
  {
    if other.Some? then
      WithPathSeparator(WithObject(b, Some(Snapshot(other.value))), Some(other.value.sep))
    else b
  }

  function Build(b: Builder): Store {
    b.draft
  }

  /** `cloneBuilder()`: a builder primed with this store. */
  function CloneBuilder(s: Store): (r: Builder)
    ensures Build(r) == s
  {
    WithBuildable(NewBuilder(), Some(s))
  }

  /** `empty()`. */
  function Empty(): Store {
    Build(NewBuilder())
  }

  /** What `just` accepts: a store, or a raw object (`None` for
      `undefined`/`null`). */
  datatype Source = Existing(store: Store) | Raw(raw: Option<map<string, Value>>)

  /** `just`: a store is returned as it is; a raw object becomes the root of
      a store with the default separator. */
  function Just(x: Source): (r: Store)
    ensures x.Existing? ==> r == x.store
    ensures x.Raw? ==> r.sep == DefaultSeparator
    ensures x.Raw? && x.raw.Some? ==> r.root == x.raw.value
    ensures x.Raw? && x.raw.None? ==> r == Empty()
  {
    match x
    case Existing(s) => s
    case Raw(raw) => Build(WithObject(NewBuilder(), raw))
  }
}
