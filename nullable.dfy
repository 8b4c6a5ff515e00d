/**
 * The nullable view of an array: each slot value paired with its validity
 * bit (`bitmap::utils::zip_validity`), the count of unset bits
 * (`Bitmap::unset_bits`), and the values of the non-null slots.
 */
module Nullable {
  import opened Wrappers

  /** `zip_validity`: `Some(values[i])` where there is no validity or bit
      `i` is set, `None` where bit `i` is unset. */
  function ZipValidity<T>(values: seq<T>, validity: Option<seq<bool>>): (r: seq<Option<T>>)
    requires validity.Some? ==> |validity.value| == |values|
    ensures |r| == |values|
    ensures forall i :: 0 <= i < |values| ==>
      r[i] == if validity.None? || validity.value[i] then Some(values[i]) else None
  {
    match validity
    case None => Zip(values, seq(|values|, _ => true))
    case Some(bits) => Zip(values, bits)
  }

  function Zip<T>(values: seq<T>, bits: seq<bool>): (r: seq<Option<T>>)
    requires |bits| == |values|
    ensures |r| == |values|
    ensures forall i :: 0 <= i < |values| ==> r[i] == if bits[i] then Some(values[i]) else None
  {
    if values == [] then []
    else [if bits[0] then Some(values[0]) else None] + Zip(values[1..], bits[1..])
  }

  /** `Bitmap::unset_bits`: the number of null slots. */
  function UnsetBits(bits: seq<bool>): (n: nat)
    ensures n <= |bits|
    ensures n == 0 <==> forall i :: 0 <= i < |bits| ==> bits[i]
  {
    if bits == [] then 0 else (if bits[0] then 0 else 1) + UnsetBits(bits[1..])
  }

  /** The values of the non-null slots, in slot order. */
  function Present<T>(items: seq<Option<T>>): (r: seq<T>)
  {
    if items == [] then [] else
      (if items[0].Some? then [items[0].value] else []) + Present(items[1..])
  }

  lemma {:induction false} PresentAppend<T>(items: seq<Option<T>>, x: Option<T>)
    ensures Present(items + [x]) == Present(items) + if x.Some? then [x.value] else []
  {
    if items != [] {
      assert (items + [x])[1..] == items[1..] + [x];
      PresentAppend(items[1..], x);
    } else {
      assert (items + [x])[1..] == [];
    }
  }

  /** With no validity every value is present. */
  lemma {:induction false} PresentAllValid<T>(values: seq<T>)
    ensures Present(ZipValidity(values, None)) == values
  {
    if values != [] {
      assert ZipValidity(values, None)[1..] == ZipValidity(values[1..], None);
      PresentAllValid(values[1..]);
    }
  }

  /** One value per set bit: nulls contribute nothing. */
  lemma {:induction false} PresentLength<T>(values: seq<T>, bits: seq<bool>)
    requires |bits| == |values|
    ensures |Present(Zip(values, bits))| == |values| - UnsetBits(bits)
  {
    if values != [] {
      assert Zip(values, bits)[1..] == Zip(values[1..], bits[1..]);
      PresentLength(values[1..], bits[1..]);
    }
  }

  /** The inverse view: spread the present values over the set bits of a
      validity mask, `None` at each unset bit. */
  function Expand<T>(present: seq<T>, bits: seq<bool>): (r: Option<seq<Option<T>>>)
  {
    if bits == [] then (if present == [] then Some([]) else None)
    else if bits[0] then
      if present == [] then None
      else match Expand(present[1..], bits[1..])
        case None => None
        case Some(rest) => Some([Some(present[0])] + rest)
    else match Expand(present, bits[1..])
      case None => None
      case Some(rest) => Some([None] + rest)
  }

  /** The validity mask and the present values determine the nullable view. */
  lemma {:induction false} ExpandPresent<T>(values: seq<T>, bits: seq<bool>)
    requires |bits| == |values|
    ensures Expand(Present(Zip(values, bits)), bits) == Some(Zip(values, bits))
  {
    if values != [] {
      var z := Zip(values, bits);
      var tail := Zip(values[1..], bits[1..]);
      assert z == [z[0]] + tail;
      ExpandPresent(values[1..], bits[1..]);
      if bits[0] {
        assert Present(z) == [values[0]] + Present(tail);
      } else {
        assert Present(z) == Present(tail);
      }
    }
  }
}
