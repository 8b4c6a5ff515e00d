/**
 * The iterators of `BooleanArray` and `MutableBooleanArray`: the nullable
 * view (`iter`, and `IntoIterator` for a reference) and the raw value bits
 * (`values_iter`).
 */
module BooleanIterator {
  import opened Wrappers
  import opened Nullable

  /** A boolean column: value bits and an optional validity of the same
      length. */
  datatype BooleanArray = BooleanArray(values: seq<bool>, validity: Option<seq<bool>>)
  {
    predicate Valid()
    {
      validity.Some? ==> |validity.value| == |values|
    }
  }

  /** The builder form of a boolean column. Its iterators read its bits
      through the frozen array holding the same bits. */
  datatype MutableBooleanArray = MutableBooleanArray(values: seq<bool>, validity: Option<seq<bool>>)
  {
    /** The frozen array with the builder's value and validity bits. */
    function AsArray(): (a: BooleanArray)
      ensures a.values == values && a.validity == validity
    {
      BooleanArray(values, validity)
    }

    predicate Valid()
    {
      AsArray().Valid()
    }
  }

  /** `BooleanArray::iter`. */
  function Iter(a: BooleanArray): (r: seq<Option<bool>>)
    requires a.Valid()
    ensures |r| == |a.values|
    ensures forall i :: 0 <= i < |r| ==> (r[i].None? <==> a.validity.Some? && !a.validity.value[i])
    ensures forall i :: 0 <= i < |r| && r[i].Some? ==> r[i].value == a.values[i]
  {
    ZipValidity(a.values, a.validity)
  }

  /** `BooleanArray::values_iter`: the value bits, validity ignored. */
  function ValuesIter(a: BooleanArray): (r: seq<bool>)
    ensures |r| == |a.values|
    ensures forall i :: 0 <= i < |r| ==> r[i] == a.values[i]
  {
    a.values
  }

  /** `IntoIterator for &BooleanArray`. */
  function IntoIter(a: BooleanArray): (r: seq<Option<bool>>)
    requires a.Valid()
    ensures |r| == |a.values|
    ensures forall i :: 0 <= i < |r| ==>
      r[i] == if a.validity.None? || a.validity.value[i] then Some(ValuesIter(a)[i]) else None
  {
    Iter(a)
  }

  /** Without validity, `iter` is `values_iter` with every item in `Some`. */
  lemma IterWithoutValidity(a: BooleanArray)
    requires a.validity.None?
    ensures Iter(a) == seq(|a.values|, i requires 0 <= i < |a.values| => Some(ValuesIter(a)[i]))
  {
    var wrapped := seq(|a.values|, i requires 0 <= i < |a.values| => Some(ValuesIter(a)[i]));
    var r := Iter(a);
    forall i | 0 <= i < |a.values|
      ensures r[i] == wrapped[i]
    {
      assert r[i].Some?;
      assert r[i].value == a.values[i];
      assert wrapped[i] == Some(ValuesIter(a)[i]);
      assert ValuesIter(a)[i] == a.values[i];
    }
  }

  /** Every present item of `iter` is the matching item of `values_iter`,
      and `iter` holds one present item per set validity bit. */
  lemma IterMatchesValuesIter(a: BooleanArray)
    requires a.Valid()
    ensures forall i :: 0 <= i < |a.values| && Iter(a)[i].Some? ==> Iter(a)[i].value == ValuesIter(a)[i]
    ensures a.validity.Some? ==> |Present(Iter(a))| == |a.values| - UnsetBits(a.validity.value)
    ensures a.validity.None? ==> Present(Iter(a)) == ValuesIter(a)
  {
    match a.validity
    case Some(bits) => PresentLength(a.values, bits);
    case None => PresentAllValid(a.values);
  }

  /** `MutableBooleanArray::iter`. */
  function MutableIter(a: MutableBooleanArray): (r: seq<Option<bool>>)
    requires a.Valid()
    ensures |r| == |a.values|
    ensures forall i :: 0 <= i < |r| ==> (r[i].None? <==> a.validity.Some? && !a.validity.value[i])
    ensures forall i :: 0 <= i < |r| && r[i].Some? ==> r[i].value == a.values[i]
  {
    Iter(a.AsArray())
  }

  /** `MutableBooleanArray::values_iter`. */
  function MutableValuesIter(a: MutableBooleanArray): (r: seq<bool>)
    ensures |r| == |a.values|
    ensures forall i :: 0 <= i < |r| ==> r[i] == a.values[i]
  {
    ValuesIter(a.AsArray())
  }

  /** `IntoIterator for &MutableBooleanArray`. */
  function MutableIntoIter(a: MutableBooleanArray): (r: seq<Option<bool>>)
    requires a.Valid()
    ensures |r| == |a.values|
    ensures forall i :: 0 <= i < |r| ==>
      r[i] == if a.validity.None? || a.validity.value[i] then Some(MutableValuesIter(a)[i]) else None
  {
    MutableIter(a)
  }

  /** The builder and the frozen array with the same bits iterate alike. */
  lemma MutableIterAgrees(a: MutableBooleanArray)
    requires a.Valid()
    ensures MutableIter(a) == Iter(BooleanArray(a.values, a.validity))
    ensures MutableValuesIter(a) == ValuesIter(BooleanArray(a.values, a.validity))
    ensures MutableIntoIter(a) == IntoIter(BooleanArray(a.values, a.validity))
  {
  }
}
