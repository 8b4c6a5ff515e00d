/**
 * The logical types that the list container and the schema refer to. Only
 * the variants the modelled code inspects are distinguished; an extension
 * type wraps another type and is looked through by `ToLogicalType`.
 */
module DataTypes {
  import opened Wrappers

  /** A named, typed, possibly nullable column, with string metadata. */
  datatype Field = Field(name: string, dataType: DataType, isNullable: bool, metadata: map<string, string>)

  datatype DataType =
    | Null
    | Boolean
    | Int16
    | Int32
    | Int64
    | Binary
    | LargeBinary
    | Utf8
    | List(child: Field)
    | LargeList(child: Field)
    | Extension(extensionName: string, inner: DataType, extensionMetadata: Option<string>)

  /** `Field::new`: a field with empty metadata. */
  function NewField(name: string, dataType: DataType, isNullable: bool): (f: Field)
    ensures f.name == name && f.dataType == dataType && f.isNullable == isNullable
    ensures f.metadata == map[]
  {
    Field(name, dataType, isNullable, map[])
  }

  /** `DataType::to_logical_type`: the type under any extension wrappers. */
  function ToLogicalType(dt: DataType): (r: DataType)
    ensures !r.Extension?
    ensures !dt.Extension? ==> r == dt
  {
    match dt
    case Extension(_, inner, _) => ToLogicalType(inner)
    case _ => dt
  }
}
