/** Source-level types and `repr(C)` records as the binding generator reads them. */
module BindgenTypes {
  import opened Common

  const U64_MAX: nat := 0xFFFF_FFFF_FFFF_FFFF

  type U64 = n: nat | n <= U64_MAX

  type Span = nat

  /** `length` is the array length text read as a constant, if it is one. */
  datatype TypeRef =
    | Path(segments: seq<string>, arguments: seq<TypeRef>)
    | Array(element: TypeRef, length: Option<U64>)
    | Capability(inner: TypeRef)
    | FunctionPointer(parameters: seq<TypeRef>, returnType: Option<TypeRef>)

  datatype Field = Field(name: string, ty: TypeRef, span: Span)

  datatype Record = Record(name: string, fields: seq<Field>)

  type Records = map<string, Record>

  /** Records are indexed by their own names. */
  ghost predicate NamesMatch(records: Records) {
    forall name :: name in records ==> records[name].name == name
  }

  function PathText(segments: seq<string>): string {
    if |segments| == 0 then ""
    else if |segments| == 1 then segments[0]
    else segments[0] + "." + PathText(segments[1..])
  }

  /** The record a path names: lookup is by the last segment. */
  function RecordNamed(records: Records, segments: seq<string>): Option<string> {
    if |segments| > 0 && segments[|segments| - 1] in records then Some(segments[|segments| - 1]) else None
  }

  lemma {:induction false} QualifiedTextHasDot(segments: seq<string>)
    requires |segments| >= 2
    ensures '.' in PathText(segments)
  {
    assert PathText(segments)[|segments[0]|] == '.';
  }

  /** Only a path of one segment has a text without a dot. */
  lemma TextIsUnqualified(segments: seq<string>, name: string)
    requires name != "" && '.' !in name
    ensures PathText(segments) == name <==> segments == [name]
  {
    if |segments| >= 2 { QualifiedTextHasDot(segments); }
  }
}
