/** C layout of `repr(C)` records with checked 64-bit arithmetic, over a graph of records that may
    be cyclic. An on-path set of names guards the recursion. */
module CLayout {
  import opened Common
  import opened BindgenTypes

  datatype LayoutError =
    | EmptyRecord | RecursiveRecord | NoLayout | BadLength
    | SizeOverflow | StrideOverflow | ArrayOverflow

  datatype Layout = Layout(size: U64, align: U64, fields: seq<(string, U64)>)

  datatype LayoutResult = Done(layout: Layout) | Failed(error: LayoutError)

  /** Pointer width in bytes on the supported targets. */
  type PointerBytes = n: nat | n == 4 || n == 8 witness 8

  function CheckedAdd(a: U64, b: U64): Option<U64> {
    if a + b <= U64_MAX then Some(a + b) else None
  }

  function CheckedMul(a: U64, b: U64): Option<U64> {
    if a * b <= U64_MAX then Some(a * b) else None
  }

  function AlignUpChecked(value: U64, align: U64): Option<U64> {
    if align == 0 then None
    else if value % align == 0 then Some(value)
    else CheckedAdd(value, align - value % align)
  }

  /** Size and alignment of the named scalar types. */
  function ScalarLayout(name: string, argumentCount: nat, pointer: PointerBytes): Option<(U64, U64)> {
    var word: U64 := pointer;
    if name in ["Int8", "UInt8"] then Some((1, 1))
    else if name in ["Int16", "UInt16"] then Some((2, 2))
    else if name in ["Int32", "UInt32", "Float32", "F32", "Status"] then Some((4, 4))
    else if name in ["Int64", "UInt64", "Float64", "F64"] then Some((8, 8))
    else if name in ["IntSize", "UIntSize"] then Some((word, word))
    else if name == "Float2" then Some((8, 4))
    else if name == "Float3" then Some((12, 4))
    else if name == "Float4" then Some((16, 4))
    else if name == "Float8" then Some((32, 4))
    else if name == "Pointer" && argumentCount == 1 then Some((word, word))
    else if name == "Slice" && argumentCount == 1 then Some((2 * word, word))
    else if name == "String" then Some((3 * word, word))
    else None
  }

  /** One field placed after `size` bytes: its offset and the next free byte. */
  function PlaceField(size: U64, layout: Layout): Option<(U64, U64)> {
    match AlignUpChecked(size, layout.align)
    case None => None
    case Some(offset) =>
      match CheckedAdd(offset, layout.size)
      case None => None
      case Some(end) => Some((offset, end))
  }

  function ArrayLayout(count: U64, element: Layout): LayoutResult {
    match AlignUpChecked(element.size, element.align)
    case None => Failed(StrideOverflow)
    case Some(stride) =>
      if count == 0 then Done(Layout(0, element.align, []))
      else
        match CheckedMul(stride, count - 1)
        case None => Failed(ArrayOverflow)
        case Some(before) =>
          match CheckedAdd(before, element.size)
          case None => Failed(ArrayOverflow)
          case Some(size) => Done(Layout(size, element.align, []))
  }

  /** Progress through the fields of one record. */
  datatype Partial = Partial(size: U64, align: U64, fields: seq<(string, U64)>)

  function Finish(p: Partial): LayoutResult {
    match AlignUpChecked(p.size, p.align)
    case None => Failed(SizeOverflow)
    case Some(size) => Done(Layout(size, p.align, p.fields))
  }

  function TypeLayout(records: Records, pointer: PointerBytes, ty: TypeRef, visiting: set<string>): LayoutResult
    decreases records.Keys - visiting, 1, ty
  {
    match ty
    case Path(segments, arguments) =>
      (match ScalarLayout(PathText(segments), |arguments|, pointer)
       case Some((size, align)) => Done(Layout(size, align, []))
       case None =>
         match RecordNamed(records, segments)
         case Some(name) => RecordLayout(records, pointer, name, visiting)
         case None => Failed(NoLayout))
    case Array(element, length) =>
      if length.None? then Failed(BadLength)
      else
        var inner := TypeLayout(records, pointer, element, visiting);
        if inner.Failed? then inner else ArrayLayout(length.value, inner.layout)
    case Capability(inner) => TypeLayout(records, pointer, inner, visiting)
    case FunctionPointer(_, _) => Done(Layout(pointer, pointer, []))
  }

  function RecordLayout(records: Records, pointer: PointerBytes, name: string, visiting: set<string>): LayoutResult
    requires name in records
    decreases records.Keys - visiting, 0
  {
    if records[name].fields == [] then Failed(EmptyRecord)
    else if name in visiting then Failed(RecursiveRecord)
    else FieldsLayout(records, pointer, records[name].fields, visiting + {name}, Partial(0, 1, []))
  }

  function FieldsLayout(records: Records, pointer: PointerBytes, fields: seq<Field>, visiting: set<string>, p: Partial)
    : LayoutResult
    decreases records.Keys - visiting, 2, fields
  {
    if fields == [] then Finish(p)
    else
      var field := TypeLayout(records, pointer, fields[0].ty, visiting);
      if field.Failed? then field
      else
        match PlaceField(p.size, field.layout)
        case None => Failed(SizeOverflow)
        case Some((offset, end)) =>
          var align := if p.align < field.layout.align then field.layout.align else p.align;
          FieldsLayout(records, pointer, fields[1..], visiting,
                       Partial(end, align, p.fields + [(fields[0].name, offset)]))
  }

  /** The walk over the record graph, with the on-path names as mutable state. */
  class Walk {
    const records: Records
    const pointer: PointerBytes
    var visiting: set<string>

    constructor (records: Records, pointer: PointerBytes)
      ensures this.records == records && this.pointer == pointer && visiting == {}
    {
      this.records, this.pointer, visiting := records, pointer, {};
    }

    /** On success the on-path set is what it was. */
    method LayoutRecord(name: string) returns (r: LayoutResult)
      requires name in records && NamesMatch(records)
      modifies this`visiting
      ensures r == RecordLayout(records, pointer, name, old(visiting))
      ensures r.Done? ==> visiting == old(visiting)
      decreases records.Keys - visiting, 0
    {
      var record := records[name];
      if record.fields == [] { return Failed(EmptyRecord); }
      if record.name in visiting { return Failed(RecursiveRecord); }
      visiting := visiting + {record.name};
      var p := Partial(0, 1, []);
      for i := 0 to |record.fields|
        invariant visiting == old(visiting) + {name}
        invariant FieldsLayout(records, pointer, record.fields, visiting, Partial(0, 1, []))
               == FieldsLayout(records, pointer, record.fields[i..], visiting, p)
      {
        assert record.fields[i..][1..] == record.fields[i + 1..];
        var field := LayoutType(record.fields[i].ty);
        if field.Failed? { return field; }
        var placed := PlaceField(p.size, field.layout);
        if placed.None? { return Failed(SizeOverflow); }
        var (offset, end) := placed.value;
        p := Partial(end, if p.align < field.layout.align then field.layout.align else p.align,
                     p.fields + [(record.fields[i].name, offset)]);
      }
      visiting := visiting - {record.name};
      r := Finish(p);
    }

    method LayoutType(ty: TypeRef) returns (r: LayoutResult)
      requires NamesMatch(records)
      modifies this`visiting
      ensures r == TypeLayout(records, pointer, ty, old(visiting))
      ensures r.Done? ==> visiting == old(visiting)
      decreases records.Keys - visiting, 1, ty
    {
      match ty
      case Path(segments, arguments) =>
        var scalar := ScalarLayout(PathText(segments), |arguments|, pointer);
        if scalar.Some? { return Done(Layout(scalar.value.0, scalar.value.1, [])); }
        var name := RecordNamed(records, segments);
        if name.None? { return Failed(NoLayout); }
        r := LayoutRecord(name.value);
      case Array(element, length) =>
        if length.None? { return Failed(BadLength); }
        r := LayoutType(element);
        if r.Done? { r := ArrayLayout(length.value, r.layout); }
      case Capability(inner) => r := LayoutType(inner);
      case FunctionPointer(_, _) => r := Done(Layout(pointer, pointer, []));
    }
  }
}
