/**
 * `ListArray<O>`: a list of lists over a type-erased child array, delimited
 * by an offsets buffer and with an optional validity mask. The offset width
 * `O` (i32 or i64) is the constant `isLarge`; a slot is a window of the
 * child between two consecutive offsets.
 */
module ListArrays {
  import opened Wrappers
  import opened DataTypes
  import opened Nullable

  /** The child array (`Box<dyn Array>`): its data type and its slots. */
  datatype Values<T> = Values(dataType: DataType, items: seq<T>)

  /** `O::MAX` for the offset width. */
  function MaxOffset(isLarge: bool): (m: nat)
  {
    if isLarge then 0x7fff_ffff_ffff_ffff else 0x7fff_ffff
  }

  /** What every `OffsetsBuffer<O>` guarantees: at least one offset, the
      first not negative, non-decreasing, every offset representable in O. */
  predicate OffsetsValid(offsets: seq<int>, isLarge: bool)
  {
    && |offsets| >= 1
    && 0 <= offsets[0]
    && (forall i, j :: 0 <= i <= j < |offsets| ==> offsets[i] <= offsets[j])
    && offsets[|offsets| - 1] <= MaxOffset(isLarge)
  }

  datatype OutOfSpecReason =
    | OffsetsExceedValues    // the last offset is past the end of the child
    | ValidityLengthMismatch // the validity does not have one bit per slot
    | NotListType            // not List for i32 offsets, nor LargeList for i64
    | ChildTypeMismatch      // the declared child type is not the child's type

  /** `Error::OutOfSpec`, with the reason in place of its message text. */
  datatype Error = OutOfSpec(reason: OutOfSpecReason)

  /** The invariant of a `ListArray<O>` held in `dataType`, `offsets`,
      `values` and `validity`. */
  ghost predicate ListInvariant<T>(dataType: DataType, offsets: seq<int>, values: Values<T>,
                                   validity: Option<seq<bool>>, isLarge: bool)
  {
    && OffsetsValid(offsets, isLarge)
    && offsets[|offsets| - 1] <= |values.items|
    && (validity.Some? ==> |validity.value| == |offsets| - 1)
    && (if isLarge then ToLogicalType(dataType).LargeList? else ToLogicalType(dataType).List?)
    && ToLogicalType(dataType).child.dataType == values.dataType
  }

  /** `try_check_offsets_bounds`: the last offset must not exceed the length
      of the child. */
  function TryCheckOffsetsBounds(offsets: seq<int>, valuesLen: nat): (r: Result<(), Error>)
    requires |offsets| >= 1
    ensures r.Success? <==> offsets[|offsets| - 1] <= valuesLen
    ensures r.Failure? ==> r.error == OutOfSpec(OffsetsExceedValues)
  {
    if offsets[|offsets| - 1] > valuesLen then Failure(OutOfSpec(OffsetsExceedValues)) else Success(())
  }

  /** `try_get_child`: the inner field of a `List` (i32 offsets) or a
      `LargeList` (i64 offsets) logical type. */
  function TryGetChild(dataType: DataType, isLarge: bool): (r: Result<Field, Error>)
    ensures r.Success? <==> if isLarge then ToLogicalType(dataType).LargeList? else ToLogicalType(dataType).List?
    ensures r.Success? ==> r.value == ToLogicalType(dataType).child
    ensures r.Failure? ==> r.error == OutOfSpec(NotListType)
  {
    match ToLogicalType(dataType)
    case LargeList(child) => if isLarge then Success(child) else Failure(OutOfSpec(NotListType))
    case List(child) => if isLarge then Failure(OutOfSpec(NotListType)) else Success(child)
    case _ => Failure(OutOfSpec(NotListType))
  }

  /** `get_child_field`, which panics where `try_get_child` fails. */
  function GetChildField(dataType: DataType, isLarge: bool): (f: Field)
    requires TryGetChild(dataType, isLarge).Success?
    ensures f == ToLogicalType(dataType).child
  {
    TryGetChild(dataType, isLarge).value
  }

  /** `get_child_type`. */
  function GetChildType(dataType: DataType, isLarge: bool): (t: DataType)
    requires TryGetChild(dataType, isLarge).Success?
    ensures t == ToLogicalType(dataType).child.dataType
  {
    GetChildField(dataType, isLarge).dataType
  }

  /** `default_datatype`: a nullable child field named "item", in `List` or
      in `LargeList` according to the offset width. */
  function DefaultDatatype(dataType: DataType, isLarge: bool): (r: DataType)
    ensures r.LargeList? == isLarge && r.List? == !isLarge
    ensures TryGetChild(r, isLarge) == Success(NewField("item", dataType, true))
    ensures TryGetChild(r, !isLarge).Failure?
  {
    var field := NewField("item", dataType, true);
    if isLarge then LargeList(field) else List(field)
  }

  /** The checks of `try_new`, in the order they are made; the first that
      fails gives the error. */
  function TryNewCheck<T>(dataType: DataType, offsets: seq<int>, values: Values<T>,
                          validity: Option<seq<bool>>, isLarge: bool): (r: Result<(), Error>)
    requires OffsetsValid(offsets, isLarge)
    ensures r.Success? <==> ListInvariant(dataType, offsets, values, validity, isLarge)
    ensures offsets[|offsets| - 1] > |values.items| ==> r == Failure(OutOfSpec(OffsetsExceedValues))
    ensures offsets[|offsets| - 1] <= |values.items| && validity.Some? && |validity.value| != |offsets| - 1
            ==> r == Failure(OutOfSpec(ValidityLengthMismatch))
    ensures r == Failure(OutOfSpec(NotListType))
            <==> offsets[|offsets| - 1] <= |values.items|
                 && (validity.Some? ==> |validity.value| == |offsets| - 1)
                 && TryGetChild(dataType, isLarge).Failure?
    ensures r == Failure(OutOfSpec(ChildTypeMismatch))
            <==> offsets[|offsets| - 1] <= |values.items|
                 && (validity.Some? ==> |validity.value| == |offsets| - 1)
                 && TryGetChild(dataType, isLarge).Success?
                 && TryGetChild(dataType, isLarge).value.dataType != values.dataType
  {
    match TryCheckOffsetsBounds(offsets, |values.items|)
    case Failure(e) => Failure(e)
    case Success(_) =>
      if validity.Some? && |validity.value| != |offsets| - 1 then
        Failure(OutOfSpec(ValidityLengthMismatch))
      else
        match TryGetChild(dataType, isLarge)
        case Failure(e) => Failure(e)
        case Success(child) =>
          if child.dataType != values.dataType then Failure(OutOfSpec(ChildTypeMismatch))
          else Success(())
  }

  class ListArray<T> {
    const isLarge: bool
    var dataType: DataType
    var offsets: seq<int>
    var values: Values<T>
    var validity: Option<seq<bool>>

    ghost predicate Valid()
      reads this
    {
      ListInvariant(dataType, offsets, values, validity, isLarge)
    }

    /** The record built from already checked parts; `new` is `try_new`
        followed by an unwrap, so its callers must make the checks pass. */
    constructor New(dataType: DataType, offsets: seq<int>, values: Values<T>,
                    validity: Option<seq<bool>>, isLarge: bool)
      requires OffsetsValid(offsets, isLarge)
      requires TryNewCheck(dataType, offsets, values, validity, isLarge).Success?
      ensures Valid()
      ensures this.dataType == dataType && this.offsets == offsets && this.values == values
      ensures this.validity == validity && this.isLarge == isLarge
      ensures Len() == |offsets| - 1
    {
      this.isLarge := isLarge;
      this.dataType := dataType;
      this.offsets := offsets;
      this.values := values;
      this.validity := validity;
    }

    /** `try_new`: an error value, never a panic, when a check fails;
        otherwise the four inputs stored unchanged. */
    static method TryNew(dataType: DataType, offsets: seq<int>, values: Values<T>,
                         validity: Option<seq<bool>>, isLarge: bool)
      returns (r: Result<ListArray<T>, Error>)
      requires OffsetsValid(offsets, isLarge)
      ensures r.Failure? <==> TryNewCheck(dataType, offsets, values, validity, isLarge).Failure?
      ensures r.Failure? ==> r.error == TryNewCheck(dataType, offsets, values, validity, isLarge).error
      ensures r.Success? ==> fresh(r.value) && r.value.Valid() && r.value.isLarge == isLarge
      ensures r.Success? ==> r.value.dataType == dataType && r.value.offsets == offsets
      ensures r.Success? ==> r.value.values == values && r.value.validity == validity
      ensures r.Success? ==> r.value.Len() == |offsets| - 1
    {
      var check := TryNewCheck(dataType, offsets, values, validity, isLarge);
      if check.Failure? {
        return Failure(check.error);
      }
      var a := new ListArray.New(dataType, offsets, values, validity, isLarge);
      return Success(a);
    }

    /** `new_empty`: no slots, no validity, an empty child of the declared
        child type. */
    constructor NewEmpty(dataType: DataType, isLarge: bool)
      requires TryGetChild(dataType, isLarge).Success?
      ensures Valid()
      ensures this.dataType == dataType && this.isLarge == isLarge
      ensures Len() == 0 && validity == None
      ensures values == Values(GetChildType(dataType, isLarge), [])
    {
      this.isLarge := isLarge;
      this.dataType := dataType;
      this.offsets := [0];
      this.values := Values(GetChildType(dataType, isLarge), []);
      this.validity := None;
    }

    /** `new_null`: `length` slots, all null and all empty, over an empty
        child. */
    constructor NewNull(dataType: DataType, length: nat, isLarge: bool)
      requires TryGetChild(dataType, isLarge).Success?
      ensures Valid()
      ensures this.dataType == dataType && this.isLarge == isLarge
      ensures Len() == length
      ensures validity == Some(seq(length, _ => false)) && UnsetBits(validity.value) == length
      ensures forall i :: 0 <= i < length ==> |Value(i).items| == 0
    {
      this.isLarge := isLarge;
      this.dataType := dataType;
      this.offsets := seq(length + 1, _ => 0);
      this.values := Values(GetChildType(dataType, isLarge), []);
      this.validity := Some(seq(length, _ => false));
      new;
      NoneSetMeansAllUnset(length);
    }

    /** `len`: the number of slots, one less than the number of offsets. */
    function Len(): (n: nat)
      reads this
      requires Valid()
      ensures n + 1 == |offsets|
      ensures validity.Some? ==> n == |validity.value|
    {
      |offsets| - 1
    }

    /** `value(i)` (and `value_unchecked(i)`, whose safety condition is the
        same bound): the child window from `offsets[i]` to `offsets[i + 1]`. */
    function Value(i: nat): (r: Values<T>)
      reads this
      requires Valid() && i < Len()
      ensures r.dataType == values.dataType
      ensures |r.items| == offsets[i + 1] - offsets[i]
      ensures forall k :: 0 <= k < |r.items| ==> r.items[k] == values.items[offsets[i] + k]
    {
      Values(values.dataType, values.items[offsets[i]..offsets[i + 1]])
    }

    /** `slice_unchecked`: narrows the offsets to the window
        `[offset, offset + length]` and the validity to the window
        `[offset, offset + length)`. */
    method SliceUnchecked(offset: nat, length: nat)
      requires Valid() && offset + length <= Len()
      modifies this
      ensures Valid()
      ensures Len() == length
      ensures dataType == old(dataType) && values == old(values)
      ensures offsets == old(offsets)[offset..offset + length + 1]
      ensures validity == match old(validity)
                          case None => None
                          case Some(bits) => Some(bits[offset..offset + length])
      ensures forall j :: 0 <= j < length ==> Value(j) == old(Value(j + offset))
    {
      if validity.Some? {
        var window := validity.value[offset..offset + length];
        validity := Some(window);
        // The mask is kept whether or not the window still holds a null:
        // the test of the unset bits decides nothing.
        var withNulls := if UnsetBits(window) > 0 then Some(window) else None;
      }
      offsets := offsets[offset..offset + length + 1];
    }

    /** `slice`: panics unless `offset + length <= len()`, then slices. */
    method Slice(offset: nat, length: nat)
      requires Valid() && offset + length <= Len()
      modifies this
      ensures Valid()
      ensures Len() == length
      ensures dataType == old(dataType) && values == old(values)
      ensures offsets == old(offsets)[offset..offset + length + 1]
      ensures validity == match old(validity)
                          case None => None
                          case Some(bits) => Some(bits[offset..offset + length])
      ensures forall j :: 0 <= j < length ==> Value(j) == old(Value(j + offset))
    {
      SliceUnchecked(offset, length);
    }
  }

  lemma NoneSetMeansAllUnset(length: nat)
    ensures UnsetBits(seq(length, _ => false)) == length
  {
    if length > 0 {
      assert seq(length, _ => false)[1..] == seq(length - 1, _ => false);
      NoneSetMeansAllUnset(length - 1);
    }
  }

  /** Five slots over eight `Int16` values, no validity, sliced to the
      middle three. */
  method SliceScenarioNonNull() returns (lengths: seq<int>, validity: Option<seq<bool>>)
    ensures lengths == [3, 0, 2]
    ensures validity == None
  {
    var dataType := List(NewField("item", Int16, false));
    var child := Values(Int16, [1, 2, 1001, 1002, 1003, 3001, 3002, 4001]);
    var a := new ListArray<int>.New(dataType, [0, 2, 5, 5, 7, 8], child, None, false);
    a.Slice(1, 3);
    lengths := [|a.Value(0).items|, |a.Value(1).items|, |a.Value(2).items|];
    validity := a.validity;
  }

  /** Six slots with the fifth null, sliced to the middle four: the null
      slot keeps its bit and has no values. */
  method SliceScenarioNullable() returns (lengths: seq<int>, validity: Option<seq<bool>>)
    ensures lengths == [3, 0, 2, 0]
    ensures validity == Some([true, true, true, false])
  {
    var dataType := List(NewField("item", Int16, true));
    var child := Values(Int16, [1, 2, 1001, 1002, 1003, 3001, 3002, 4001]);
    var a := new ListArray<int>.New(dataType, [0, 2, 5, 5, 7, 7, 8], child,
                                    Some([true, true, true, true, false, true]), false);
    a.Slice(1, 4);
    assert [true, true, true, true, false, true][1..5] == [true, true, true, false];
    lengths := [|a.Value(0).items|, |a.Value(1).items|, |a.Value(2).items|, |a.Value(3).items|];
    validity := a.validity;
  }

  /** Slicing away the only null leaves an all-valid mask in place rather
      than no mask. */
  method SliceKeepsAllValidMask() returns (validity: Option<seq<bool>>, unset: nat)
    ensures validity == Some([true, true, true, true])
    ensures unset == 0
  {
    var dataType := List(NewField("item", Int16, true));
    var child := Values(Int16, [1, 2, 1001, 1002, 1003, 3001, 3002, 4001]);
    var a := new ListArray<int>.New(dataType, [0, 2, 5, 5, 7, 7, 8], child,
                                    Some([true, true, true, true, false, true]), false);
    a.Slice(0, 4);
    assert [true, true, true, true, false, true][0..4] == [true, true, true, true];
    validity := a.validity;
    unset := UnsetBits(validity.value);
  }
}
