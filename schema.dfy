/**
 * `Schema`: an ordered list of fields with string metadata, and the two
 * operations that return modified copies of it.
 */
module Schemas {
  import opened DataTypes

  type Metadata = map<string, string>

  datatype Schema = Schema(fields: seq<Field>, metadata: Metadata)

  /** `with_metadata`: the same fields under new metadata. */
  function WithMetadata(schema: Schema, metadata: Metadata): (r: Schema)
    ensures r.fields == schema.fields
    ensures r.metadata == metadata
  {
    Schema(schema.fields, metadata)
  }

  /** `Schema::from(fields)`: the fields as given, with default (empty)
      metadata. */
  function FromFields(fields: seq<Field>): (r: Schema)
    ensures r.fields == fields
    ensures r.metadata == map[]
  {
    Schema(fields, map[])
  }

  /** `filter`: the fields for which `keep(index, field)` holds, where
      `index` is the field's position in the original list. */
  function Filter(schema: Schema, keep: (nat, Field) -> bool): (r: Schema)
    ensures r.metadata == schema.metadata
    ensures |r.fields| <= |schema.fields|
  {
    Schema(FilterFrom(schema.fields, 0, keep), schema.metadata)
  }

  /** The `enumerate().filter_map()` pipeline over `fields`, whose first
      element has index `start`. */
  function FilterFrom<T>(fields: seq<T>, start: nat, keep: (nat, T) -> bool): (r: seq<T>)
    ensures |r| <= |fields|
  {
    if fields == [] then []
    else (if keep(start, fields[0]) then [fields[0]] else [])
         + FilterFrom(fields[1..], start + 1, keep)
  }

  /** The original index of each field `FilterFrom` keeps. */
  function KeptIndices<T>(fields: seq<T>, start: nat, keep: (nat, T) -> bool): (r: seq<nat>)
  {
    if fields == [] then []
    else (if keep(start, fields[0]) then [start] else [])
         + KeptIndices(fields[1..], start + 1, keep)
  }

  lemma {:induction false} KeptIndicesLength<T>(fields: seq<T>, start: nat, keep: (nat, T) -> bool)
    ensures |KeptIndices(fields, start, keep)| == |FilterFrom(fields, start, keep)|
  {
    if fields != [] {
      KeptIndicesLength(fields[1..], start + 1, keep);
    }
  }

  /** The `k`-th kept field is the field at the `k`-th kept index, and the
      predicate holds for it. */
  lemma {:induction false} KeptIndexAt<T>(fields: seq<T>, start: nat, keep: (nat, T) -> bool, k: nat)
    requires k < |KeptIndices(fields, start, keep)|
    ensures start <= KeptIndices(fields, start, keep)[k] < start + |fields|
    ensures k < |FilterFrom(fields, start, keep)|
    ensures FilterFrom(fields, start, keep)[k] == fields[KeptIndices(fields, start, keep)[k] - start]
    ensures keep(KeptIndices(fields, start, keep)[k], fields[KeptIndices(fields, start, keep)[k] - start])
  {
    KeptIndicesLength(fields, start, keep);
    var idx, rest := KeptIndices(fields, start, keep), KeptIndices(fields[1..], start + 1, keep);
    var r, tail := FilterFrom(fields, start, keep), FilterFrom(fields[1..], start + 1, keep);
    if keep(start, fields[0]) {
      assert idx == [start] + rest && r == [fields[0]] + tail;
      if k > 0 {
        KeptIndexAt(fields[1..], start + 1, keep, k - 1);
        var j := rest[k - 1] - (start + 1);
        assert r[k] == tail[k - 1] == fields[1..][j];
        assert idx[k] - start == j + 1;
      }
    } else {
      assert idx == rest && r == tail;
      KeptIndexAt(fields[1..], start + 1, keep, k);
      var j := rest[k] - (start + 1);
      assert r[k] == tail[k] == fields[1..][j];
      assert idx[k] - start == j + 1;
    }
  }

  lemma {:induction false} KeptIndicesBounds<T>(fields: seq<T>, start: nat, keep: (nat, T) -> bool)
    ensures forall k :: 0 <= k < |KeptIndices(fields, start, keep)| ==> start <= KeptIndices(fields, start, keep)[k]
  {
    if fields != [] {
      KeptIndicesBounds(fields[1..], start + 1, keep);
    }
  }

  /** The kept indices are in increasing order. */
  lemma {:induction false} KeptIndicesIncreasing<T>(fields: seq<T>, start: nat, keep: (nat, T) -> bool)
    ensures forall k, l :: 0 <= k < l < |KeptIndices(fields, start, keep)| ==>
      KeptIndices(fields, start, keep)[k] < KeptIndices(fields, start, keep)[l]
  {
    if fields != [] {
      KeptIndicesIncreasing(fields[1..], start + 1, keep);
      KeptIndicesBounds(fields[1..], start + 1, keep);
    }
  }

  /** Every index whose field satisfies the predicate is kept. */
  lemma {:induction false} KeptIndicesComplete<T>(fields: seq<T>, start: nat, keep: (nat, T) -> bool)
    ensures forall i :: 0 <= i < |fields| && keep(start + i, fields[i]) ==> start + i in KeptIndices(fields, start, keep)
  {
    if fields != [] {
      KeptIndicesComplete(fields[1..], start + 1, keep);
      forall i | 1 <= i < |fields| && keep(start + i, fields[i])
        ensures start + i in KeptIndices(fields[1..], start + 1, keep)
      {
        assert fields[1..][i - 1] == fields[i];
        assert (start + 1) + (i - 1) == start + i;
      }
    }
  }

  /** `filter` keeps exactly the fields at the original indices `i` with
      `keep(i, fields[i])`, in their original order. */
  lemma FilterKeepsExactly(schema: Schema, keep: (nat, Field) -> bool) returns (idx: seq<nat>)
    ensures |idx| == |Filter(schema, keep).fields|
    ensures forall k :: 0 <= k < |idx| ==>
      && idx[k] < |schema.fields|
      && Filter(schema, keep).fields[k] == schema.fields[idx[k]]
      && keep(idx[k], schema.fields[idx[k]])
    ensures forall k, l :: 0 <= k < l < |idx| ==> idx[k] < idx[l]
    ensures forall i :: 0 <= i < |schema.fields| && keep(i, schema.fields[i]) ==> i in idx
  {
    idx := KeptIndices(schema.fields, 0, keep);
    KeptIndicesLength(schema.fields, 0, keep);
    forall k | 0 <= k < |idx|
      ensures idx[k] < |schema.fields|
      ensures Filter(schema, keep).fields[k] == schema.fields[idx[k]]
      ensures keep(idx[k], schema.fields[idx[k]])
    {
      KeptIndexAt(schema.fields, 0, keep, k);
    }
    KeptIndicesIncreasing(schema.fields, 0, keep);
    KeptIndicesComplete(schema.fields, 0, keep);
    forall i | 0 <= i < |schema.fields| && keep(i, schema.fields[i])
      ensures i in idx
    {
      assert 0 + i == i;
    }
  }

  lemma {:induction false} FilterFromAll<T>(fields: seq<T>, start: nat, keep: (nat, T) -> bool)
    requires forall i, f :: keep(i, f)
    ensures FilterFrom(fields, start, keep) == fields
  {
    if fields != [] {
      FilterFromAll(fields[1..], start + 1, keep);
    }
  }

  /** A predicate that holds everywhere gives the schema back unchanged. */
  lemma FilterAlwaysTrue(schema: Schema, keep: (nat, Field) -> bool)
    requires forall i, f :: keep(i, f)
    ensures Filter(schema, keep) == schema
  {
    FilterFromAll(schema.fields, 0, keep);
  }

  /** Filtering and attaching metadata commute. */
  lemma FilterWithMetadata(schema: Schema, keep: (nat, Field) -> bool, metadata: Metadata)
    ensures Filter(WithMetadata(schema, metadata), keep) == WithMetadata(Filter(schema, keep), metadata)
  {
  }
}
