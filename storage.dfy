/** The storage behind an argument's `Value`: the stored object of a scalar
    argument and the list of a collection, shared by both versions of the
    argument classes in DotArgs. */
module Storage {
  import opened Common

  /** The storage behind the `Value` property: the auto-property of the base
      class and the `Values` list of a collection. */
  datatype Slot = Slot(value: Value, values: seq<Option<string>>)

  /** What the `Value` getter returns from a non-alias argument: a collection
      hands out a copy of its list as an array, every other kind its stored
      object. */
  function Read(collection: bool, s: Slot): Value {
    if collection then VStrs(s.values) else s.value
  }

  /** What the `Value` setter does to a non-alias argument: a collection adds
      `value as string` to the end of its list, every other kind overwrites. */
  function Write(collection: bool, s: Slot, v: Value): Slot {
    if collection then s.(values := s.values + [AsString(v)]) else s.(value := v)
  }

  /** What `Reset` does to a non-alias argument: a collection clears its list
      and ignores its default, every other kind stores its default. */
  function Cleared(collection: bool, s: Slot, default: Value): Slot {
    if collection then s.(values := []) else s.(value := default)
  }

  // ---------------------------------------------------------------------------
  // Properties of the value storage
  // ---------------------------------------------------------------------------

  /** Writing then reading: a scalar argument reads back what was written; a
      collection reads back its earlier elements unchanged with `value as
      string` added at the end. */
  lemma ReadAfterWrite(collection: bool, s: Slot, v: Value)
    ensures !collection ==> Read(collection, Write(collection, s, v)) == v
    ensures collection ==>
              var items := Read(collection, Write(collection, s, v)).items;
              |items| == |s.values| + 1 && items[..|s.values|] == s.values
              && items[|s.values|] == AsString(v)
  {
    if collection {
      assert (s.values + [AsString(v)])[..|s.values|] == s.values;
    }
  }

  /** The storage after the writes `vs`, in order. */
  function WriteAll(collection: bool, s: Slot, vs: seq<Value>): Slot
    decreases |vs|
  {
    if vs == [] then s else WriteAll(collection, Write(collection, s, vs[0]), vs[1..])
  }

  /** `value as string` for each value. */
  function AsStrings(vs: seq<Value>): (r: seq<Option<string>>)
    ensures |r| == |vs|
    ensures forall k :: 0 <= k < |vs| ==> r[k] == AsString(vs[k])
  {
    if vs == [] then [] else [AsString(vs[0])] + AsStrings(vs[1..])
  }

  /** A collection appends a sequence of writes in write order after its
      earlier elements. */
  lemma {:induction false} CollectionAppendsInOrder(s: Slot, vs: seq<Value>)
    ensures Read(true, WriteAll(true, s, vs)) == VStrs(s.values + AsStrings(vs))
    decreases |vs|
  {
    if vs != [] {
      var s' := Write(true, s, vs[0]);
      var rest := AsStrings(vs[1..]);
      calc {
        Read(true, WriteAll(true, s, vs));
        Read(true, WriteAll(true, s', vs[1..]));
        { CollectionAppendsInOrder(s', vs[1..]); }
        VStrs(s.values + [AsString(vs[0])] + rest);
        { assert s.values + [AsString(vs[0])] + rest == s.values + ([AsString(vs[0])] + rest); }
        VStrs(s.values + AsStrings(vs));
      }
    } else {
      assert s.values + [] == s.values;
    }
  }

  /** A scalar argument keeps the last value written. */
  lemma {:induction false} ScalarKeepsLastWrite(collection: bool, s: Slot, vs: seq<Value>)
    requires !collection && vs != []
    ensures Read(collection, WriteAll(collection, s, vs)) == vs[|vs| - 1]
    decreases |vs|
  {
    if |vs| > 1 {
      ScalarKeepsLastWrite(collection, Write(collection, s, vs[0]), vs[1..]);
    }
  }

  /** After `Reset` a scalar argument reads its default and a collection
      reads an empty array, whatever its default. */
  lemma ReadAfterReset(collection: bool, s: Slot, default: Value)
    ensures Read(collection, Cleared(collection, s, default)) == if collection then VStrs([]) else default
  {
  }

  /** `Reset` erases a write: the storage after a write and a reset is the
      storage after the reset alone. */
  lemma ResetForgetsWrite(collection: bool, s: Slot, v: Value, default: Value)
    ensures Cleared(collection, Write(collection, s, v), default) == Cleared(collection, s, default)
  {
  }

  /** `Reset` of an argument's own storage is idempotent. */
  lemma ResetIdempotent(collection: bool, s: Slot, default: Value)
    ensures Cleared(collection, Cleared(collection, s, default), default) == Cleared(collection, s, default)
  {
  }
}
