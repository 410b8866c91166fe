/**
 * A queue entry: the five attributes that say which record to index or
 * remove, how often that has failed and when to try next. An entry is
 * stored in the heap as these attributes (its `marshal_dump`) and rebuilt
 * from them on the way out (`marshal_load`).
 */
module Entries {
  import opened Wrappers
  import opened Clock

  /** The attribute hash of an entry, one field per key of ATTRIBUTES. */
  datatype Attributes = Attributes(
    objectId: Option<int>,
    objectClassName: Option<string>,
    toRemove: bool,
    attemptsCount: int,
    runAt: Time)

  /** The keys of ATTRIBUTES. */
  datatype Key = ObjectIdKey | ObjectClassNameKey | ToRemoveKey | AttemptsCountKey | RunAtKey

  /** One `key => value` pair; `Other` stands for a pair under any key outside ATTRIBUTES. */
  datatype Attr =
    | ObjectId(id: Option<int>)
    | ObjectClassName(className: Option<string>)
    | ToRemove(flag: bool)
    | AttemptsCount(count: int)
    | RunAt(at: Time)
    | Other(key: string)

  /** A record as the queue sees it: its class name and its id. */
  datatype DomainObject = DomainObject(className: string, id: int)

  /** `object_class_name.constantize.find(object_id)`: None when the lookup raises. */
  type Resolver = (Option<string>, Option<int>) -> Option<DomainObject>

  function KeyOf(g: Attr): Option<Key>
  {
    match g
    case ObjectId(_) => Some(ObjectIdKey)
    case ObjectClassName(_) => Some(ObjectClassNameKey)
    case ToRemove(_) => Some(ToRemoveKey)
    case AttemptsCount(_) => Some(AttemptsCountKey)
    case RunAt(_) => Some(RunAtKey)
    case Other(_) => None
  }

  /** `attributes[k]`, as a pair. */
  function Lookup(a: Attributes, k: Key): (g: Attr)
    ensures KeyOf(g) == Some(k)
  {
    match k
    case ObjectIdKey => ObjectId(a.objectId)
    case ObjectClassNameKey => ObjectClassName(a.objectClassName)
    case ToRemoveKey => ToRemove(a.toRemove)
    case AttemptsCountKey => AttemptsCount(a.attemptsCount)
    case RunAtKey => RunAt(a.runAt)
  }

  /** `attributes[k] = v` for the pair `k => v`; a key outside ATTRIBUTES has no field to land in. */
  function Assign(a: Attributes, g: Attr): Attributes
  {
    match g
    case ObjectId(id) => a.(objectId := id)
    case ObjectClassName(n) => a.(objectClassName := n)
    case ToRemove(b) => a.(toRemove := b)
    case AttemptsCount(c) => a.(attemptsCount := c)
    case RunAt(t) => a.(runAt := t)
    case Other(_) => a
  }

  /** Reading a key after a write gives the written pair under that key and the old one under the others. */
  lemma LookupAssign(a: Attributes, g: Attr, k: Key)
    ensures Lookup(Assign(a, g), k) == if KeyOf(g) == Some(k) then g else Lookup(a, k)
  {
  }

  /** Two attribute hashes that agree on every key are equal. */
  lemma LookupDetermines(a: Attributes, b: Attributes)
    requires forall k :: Lookup(a, k) == Lookup(b, k)
    ensures a == b
  {
    assert Lookup(a, ObjectIdKey) == Lookup(b, ObjectIdKey);
    assert Lookup(a, ObjectClassNameKey) == Lookup(b, ObjectClassNameKey);
    assert Lookup(a, ToRemoveKey) == Lookup(b, ToRemoveKey);
    assert Lookup(a, AttemptsCountKey) == Lookup(b, AttemptsCountKey);
    assert Lookup(a, RunAtKey) == Lookup(b, RunAtKey);
  }

  /** The last pair given under key `k`, if any: the one a hash keeps. */
  function LastOf(given: seq<Attr>, k: Key): Option<Attr>
  {
    if given == [] then None
    else if KeyOf(given[|given| - 1]) == Some(k) then Some(given[|given| - 1])
    else LastOf(given[..|given| - 1], k)
  }

  /** The last pair under `k` among three given in order. */
  lemma LastOfThree(x: Attr, y: Attr, z: Attr, k: Key)
    ensures LastOf([x, y, z], k) ==
      if KeyOf(z) == Some(k) then Some(z)
      else if KeyOf(y) == Some(k) then Some(y)
      else if KeyOf(x) == Some(k) then Some(x)
      else None
  {
    assert [x][..0] == [];
    assert LastOf([x], k) == if KeyOf(x) == Some(k) then Some(x) else None;
    assert [x, y][..1] == [x];
    assert LastOf([x, y], k) == if KeyOf(y) == Some(k) then Some(y) else LastOf([x], k);
    assert [x, y, z][..2] == [x, y];
  }

  /** `hash.slice(*ATTRIBUTES)`: the pairs under the five keys, in order. */
  function Slice(given: seq<Attr>): (r: seq<Attr>)
    ensures forall g | g in r :: g in given && KeyOf(g).Some?
    ensures forall k :: LastOf(r, k) == LastOf(given, k)
  {
    if given == [] then []
    else
      var init := given[..|given| - 1];
      var g := given[|given| - 1];
      assert given == init + [g];
      if KeyOf(g).Some? then
        var r := Slice(init) + [g];
        assert r[..|r| - 1] == Slice(init);
        r
      else Slice(init)
  }

  /** `a.merge(given)`: the pairs of `given` written over `a` one after the other. */
  function Merged(a: Attributes, given: seq<Attr>): Attributes
  {
    if given == [] then a else Assign(Merged(a, given[..|given| - 1]), given[|given| - 1])
  }

  /** After a merge every key holds the last pair given under it, or its old value when none was. */
  lemma {:induction false} MergedReadsLastWrite(a: Attributes, given: seq<Attr>, k: Key)
    ensures Lookup(Merged(a, given), k) == LastOf(given, k).GetOr(Lookup(a, k))
  {
    if given != [] {
      MergedReadsLastWrite(a, given[..|given| - 1], k);
      LookupAssign(Merged(a, given[..|given| - 1]), given[|given| - 1], k);
    }
  }

  /** `default_attributes` at the instant `now`. */
  function DefaultAttributes(now: Time): Attributes
  {
    Attributes(None, None, false, 0, now)
  }

  /** The attributes `Entry.new(given)` starts with, at the instant `now`. */
  function Built(given: seq<Attr>, now: Time): Attributes
  {
    Merged(DefaultAttributes(now), Slice(given))
  }

  /**
   * A new entry holds, under each of the five keys, the last value given
   * under it, and otherwise the default: no object, not a removal, no
   * attempts, due at `now`. Pairs under other keys leave no trace.
   */
  lemma BuiltSpec(given: seq<Attr>, now: Time)
    ensures forall k :: Lookup(Built(given, now), k) == LastOf(given, k).GetOr(Lookup(DefaultAttributes(now), k))
    ensures forall o | KeyOf(o) == None :: Built(given + [o], now) == Built(given, now)
  {
    forall k ensures Lookup(Built(given, now), k) == LastOf(given, k).GetOr(Lookup(DefaultAttributes(now), k)) {
      MergedReadsLastWrite(DefaultAttributes(now), Slice(given), k);
    }
    forall o | KeyOf(o) == None ensures Built(given + [o], now) == Built(given, now) {
      assert (given + [o])[..|given|] == given;
    }
  }

  /** Entry.new with no attributes at all is the default entry. */
  lemma BuiltDefaults(now: Time)
    ensures Built([], now) == DefaultAttributes(now)
    ensures var a := Built([], now); !a.toRemove && a.attemptsCount == 0 && a.runAt == now
  {
  }

  class Entry {
    /** `@attributes`, also the entry's serialized form. */
    var attributes: Attributes

    /** `Entry.new(given)`, at the instant `now`. */
    constructor (given: seq<Attr>, now: Time)
      ensures attributes == Built(given, now)
    {
      attributes := Built(given, now);
    }

    /** `marshal_load`: the entry rebuilt from its serialized attributes. */
    constructor Load(a: Attributes)
      ensures attributes == a
    {
      attributes := a;
    }

    /** The generated reader for key `k`. */
    function Get(k: Key): (g: Attr)
      reads this
      ensures KeyOf(g) == Some(k)
    {
      Lookup(attributes, k)
    }

    /** The generated writer for the key of `g`. */
    method Set(g: Attr)
      requires KeyOf(g).Some?
      modifies this
      ensures attributes == Assign(old(attributes), g)
      ensures Get(KeyOf(g).value) == g
      ensures forall k | k != KeyOf(g).value :: Get(k) == old(Get(k))
    {
      attributes := Assign(attributes, g);
      LookupAssign(old(attributes), g, KeyOf(g).value);
      forall k | k != KeyOf(g).value ensures Get(k) == old(Get(k)) {
        LookupAssign(old(attributes), g, k);
      }
    }

    /** `object`: the record the entry names, when the lookup finds one. */
    function Object(resolve: Resolver): Option<DomainObject>
      reads this
    {
      resolve(attributes.objectClassName, attributes.objectId)
    }
  }
}
