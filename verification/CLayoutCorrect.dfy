/** The checked layout walk computes exactly the unbounded C layout of the expanded type, whenever
    that expansion is finite and fits in 64 bits. */
module CLayoutCorrect {
  import opened Common
  import opened BindgenTypes
  import opened CLayoutSpec
  import opened CLayout
  import opened CScalarSpec
  import opened CScalarCorrect

  /** `t` is `ty` with every record replaced by its members. A finite `t` exists only when the
      records embedded by value are non-empty and form no cycle. */
  ghost predicate Expands(records: Records, pointer: PointerBytes, ty: TypeRef, t: CType)
    decreases t, 1, ty
  {
    match ty
    case Path(segments, arguments) =>
      if t.Scalar? then ScalarPath(segments, |arguments|, pointer, t.size, t.alignment)
      else
        && !NamesScalar(segments, |arguments|, pointer)
        && segments != [] && segments[|segments| - 1] in records
        && ExpandsRecord(records, pointer, segments[|segments| - 1], t)
    case Array(element, length) =>
      length.Some? && t.CArray? && t.count == length.value && Expands(records, pointer, element, t.element)
    case Capability(inner) => Expands(records, pointer, inner, t)
    case FunctionPointer(_, _) => t == Scalar(pointer, pointer)
  }

  ghost predicate ExpandsRecord(records: Records, pointer: PointerBytes, name: string, t: CType)
    requires name in records
    decreases t, 0
  {
    var fields := records[name].fields;
    && t.CStruct? && |t.members| == |fields| > 0
    && forall i :: 0 <= i < |fields| ==> Expands(records, pointer, fields[i].ty, t.members[i])
  }

  /** Every size that the walk meets is at most the 64-bit maximum. */
  ghost predicate Fits(t: CType) {
    && Size(t) <= U64_MAX
    && match t
       case Scalar(_, _) => true
       case CArray(_, element) => Fits(element)
       case CStruct(members) => forall i :: 0 <= i < |members| ==> Fits(members[i])
  }

  function Nodes(t: CType): nat
    decreases t, 1
  {
    match t
    case Scalar(_, _) => 1
    case CArray(_, element) => 1 + Nodes(element)
    case CStruct(members) => 1 + NodesOf(t, |members|)
  }

  function NodesOf(t: CType, k: nat): nat
    requires t.CStruct? && k <= |t.members|
    decreases t, 0, k
  {
    if k == 0 then 0 else NodesOf(t, k - 1) + Nodes(t.members[k - 1])
  }

  lemma {:induction false} MemberIsSmaller(t: CType, k: nat, i: nat)
    requires t.CStruct? && i < k <= |t.members|
    ensures Nodes(t.members[i]) <= NodesOf(t, k)
    decreases k
  {
    if i < k - 1 { MemberIsSmaller(t, k - 1, i); }
  }

  /** A type has at most one expansion. */
  lemma {:induction false} ExpansionUnique(records: Records, pointer: PointerBytes, ty: TypeRef, t: CType, u: CType)
    requires Expands(records, pointer, ty, t) && Expands(records, pointer, ty, u)
    ensures t == u
    decreases t, 1, ty
  {
    match ty
    case Path(segments, arguments) =>
      ScalarPathIsExact(segments, |arguments|, pointer);
      if !t.Scalar? { RecordExpansionUnique(records, pointer, segments[|segments| - 1], t, u); }
    case Array(element, _) => ExpansionUnique(records, pointer, element, t.element, u.element);
    case Capability(inner) => ExpansionUnique(records, pointer, inner, t, u);
    case FunctionPointer(_, _) =>
  }

  lemma {:induction false} RecordExpansionUnique(
    records: Records, pointer: PointerBytes, name: string, t: CType, u: CType)
    requires name in records
    requires ExpandsRecord(records, pointer, name, t) && ExpandsRecord(records, pointer, name, u)
    ensures t == u
    decreases t, 0
  {
    var fields := records[name].fields;
    forall i | 0 <= i < |fields| ensures t.members[i] == u.members[i] {
      ExpansionUnique(records, pointer, fields[i].ty, t.members[i], u.members[i]);
    }
    assert t.members == u.members;
  }

  lemma {:induction false} ExpansionSound(records: Records, pointer: PointerBytes, ty: TypeRef, t: CType)
    requires Expands(records, pointer, ty, t)
    ensures Sound(t)
    decreases t, 1, ty
  {
    match ty
    case Path(segments, arguments) =>
      if t.Scalar? {
        ScalarsAreSound(segments, |arguments|, pointer, t.size, t.alignment);
      } else {
        var fields := records[segments[|segments| - 1]].fields;
        forall i | 0 <= i < |t.members| ensures Sound(t.members[i]) {
          ExpansionSound(records, pointer, fields[i].ty, t.members[i]);
        }
      }
    case Array(element, _) => ExpansionSound(records, pointer, element, t.element);
    case Capability(inner) => ExpansionSound(records, pointer, inner, t);
    case FunctionPointer(_, _) =>
      assert IsPowerOfTwo(2) && IsPowerOfTwo(4) && IsPowerOfTwo(8);
  }

  lemma ScalarsAreSound(segments: seq<string>, arguments: nat, pointer: PointerBytes, size: nat, align: nat)
    requires ScalarPath(segments, arguments, pointer, size, align)
    ensures IsPowerOfTwo(align) && size % align == 0
  {
    ScalarPathIsExact(segments, arguments, pointer);
    assert IsPowerOfTwo(2) && IsPowerOfTwo(4) && IsPowerOfTwo(8);
  }

  // ----- the arithmetic steps -----

  /** Checked rounding fails exactly when the true value exceeds 64 bits. */
  lemma AlignUpCheckedIsExact(value: U64, align: U64)
    requires align >= 1
    ensures AlignUpChecked(value, align)
         == if AlignUp(value, align) <= U64_MAX then Some(AlignUp(value, align)) else None
  {
    AlignUpIsLeast(value, align, value);
    var up := value + (align - value % align);
    var q := value / align;
    assert value == q * align + value % align;
    assert up == (q + 1) * align;
    MultipleIsAligned(q + 1, align);
    AlignUpIsLeast(value, align, up);
    if value % align != 0 {
      var low := AlignUp(value, align);
      var d := low / align;
      assert low == d * align;
      if d <= q { MulMonotone(d, q, align); }
      else { MulMonotone(q + 1, d, align); }
    }
  }

  /** A computed layout is that of the expansion. */
  ghost predicate Matches(l: Layout, t: CType) { l.size == Size(t) && l.align == Align(t) }

  lemma ArrayLayoutIsExact(count: U64, element: Layout, t: CType)
    requires Sound(t) && Matches(element, t)
    ensures var r := ArrayLayout(count, element);
            if Size(CArray(count, t)) <= U64_MAX then r.Done? && Matches(r.layout, CArray(count, t))
            else r == Failed(ArrayOverflow)
  {
    SizeIsMultiple(t);
    AlignUpCheckedIsExact(element.size, element.align);
    AlignUpIsLeast(element.size, element.align, element.size);
    if count > 0 {
      var before := element.size * (count - 1);
      assert before + element.size == count * element.size;
    }
  }

  /** `p` describes the first `k` members of `t`. */
  ghost predicate Describes(p: Partial, names: seq<Field>, t: CType, k: nat)
    requires t.CStruct? && k <= |t.members| == |names|
  {
    && p.size == End(t, k) && p.align == MaxAlign(t, k) && |p.fields| == k
    && forall i :: 0 <= i < k ==> p.fields[i].0 == names[i].name && p.fields[i].1 == Offset(t, i)
  }

  /** Byte positions inside a struct only grow. */
  lemma {:induction false} EndMonotone(t: CType, i: nat, k: nat)
    requires t.CStruct? && i <= k <= |t.members|
    ensures End(t, i) <= End(t, k)
    decreases k
  {
    if i < k {
      OffsetIsLeastAligned(t, k - 1, 0);
      EndMonotone(t, i, k - 1);
    }
  }

  lemma EndWithinSize(t: CType, k: nat)
    requires t.CStruct? && k <= |t.members|
    ensures End(t, k) <= Size(t)
  {
    EndMonotone(t, k, |t.members|);
    AlignUpIsLeast(End(t, |t.members|), Align(t), 0);
  }

  lemma PlaceIsExact(p: Partial, names: seq<Field>, t: CType, k: nat, l: Layout)
    requires t.CStruct? && k < |t.members| == |names| && Describes(p, names, t, k) && Matches(l, t.members[k])
    ensures PlaceField(p.size, l)
         == if End(t, k + 1) <= U64_MAX then Some((Offset(t, k), End(t, k + 1))) else None
  {
    AlignUpCheckedIsExact(p.size, l.align);
  }

  // ----- soundness -----

  ghost predicate FieldsMatch(l: Layout, names: seq<Field>, t: CType)
  {
    && t.CStruct? && |l.fields| == |names| == |t.members|
    && forall i :: 0 <= i < |names| ==> l.fields[i].0 == names[i].name && l.fields[i].1 == Offset(t, i)
  }

  /** Whatever the walk returns successfully is the C layout of the type's expansion. */
  lemma {:induction false} TypeLayoutSound(records: Records, pointer: PointerBytes, ty: TypeRef, visiting: set<string>)
    returns (t: CType)
    requires TypeLayout(records, pointer, ty, visiting).Done?
    ensures Expands(records, pointer, ty, t) && Fits(t)
    ensures Matches(TypeLayout(records, pointer, ty, visiting).layout, t)
    decreases records.Keys - visiting, 1, ty
  {
    match ty
    case Path(segments, arguments) =>
      ScalarPathIsExact(segments, |arguments|, pointer);
      var scalar := ScalarLayout(PathText(segments), |arguments|, pointer);
      if scalar.Some? {
        t := Scalar(scalar.value.0, scalar.value.1);
      } else {
        t := RecordLayoutSound(records, pointer, segments[|segments| - 1], visiting);
      }
    case Array(element, length) =>
      var inner := TypeLayoutSound(records, pointer, element, visiting);
      ExpansionSound(records, pointer, element, inner);
      ArrayLayoutIsExact(length.value, TypeLayout(records, pointer, element, visiting).layout, inner);
      t := CArray(length.value, inner);
    case Capability(inner) => t := TypeLayoutSound(records, pointer, inner, visiting);
    case FunctionPointer(_, _) => t := Scalar(pointer, pointer);
  }

  lemma {:induction false} RecordLayoutSound(
    records: Records, pointer: PointerBytes, name: string, visiting: set<string>) returns (t: CType)
    requires name in records && RecordLayout(records, pointer, name, visiting).Done?
    ensures ExpandsRecord(records, pointer, name, t) && Fits(t)
    ensures Matches(RecordLayout(records, pointer, name, visiting).layout, t)
    ensures FieldsMatch(RecordLayout(records, pointer, name, visiting).layout, records[name].fields, t)
    decreases records.Keys - visiting, 0
  {
    var fields := records[name].fields;
    var members := MembersSound(records, pointer, fields, visiting + {name}, Partial(0, 1, []));
    t := CStruct(members);
    FoldSound(records, pointer, fields, visiting + {name}, t, 0, Partial(0, 1, []));
  }

  /** Expansions of the remaining fields. */
  lemma {:induction false} MembersSound(
    records: Records, pointer: PointerBytes, fields: seq<Field>, visiting: set<string>, p: Partial)
    returns (members: seq<CType>)
    requires FieldsLayout(records, pointer, fields, visiting, p).Done?
    ensures |members| == |fields|
    ensures forall i :: 0 <= i < |fields| ==>
              && Expands(records, pointer, fields[i].ty, members[i]) && Fits(members[i])
              && TypeLayout(records, pointer, fields[i].ty, visiting).Done?
              && Matches(TypeLayout(records, pointer, fields[i].ty, visiting).layout, members[i])
    decreases records.Keys - visiting, 2, fields
  {
    members := [];
    if fields != [] {
      var first := TypeLayoutSound(records, pointer, fields[0].ty, visiting);
      var l := TypeLayout(records, pointer, fields[0].ty, visiting).layout;
      var (offset, end) := PlaceField(p.size, l).value;
      var rest := MembersSound(records, pointer, fields[1..], visiting,
        Partial(end, if p.align < l.align then l.align else p.align, p.fields + [(fields[0].name, offset)]));
      members := [first] + rest;
      forall i | 0 < i < |fields| ensures fields[i] == fields[1..][i - 1] && members[i] == rest[i - 1] { }
    }
  }

  /** The fold over fields, from field `k` on, given layouts that match the members. */
  lemma {:induction false} FoldSound(
    records: Records, pointer: PointerBytes, fields: seq<Field>, visiting: set<string>, t: CType, k: nat, p: Partial)
    requires t.CStruct? && k <= |fields| == |t.members| && Describes(p, fields, t, k)
    requires forall i :: 0 <= i < |fields| ==>
               && Fits(t.members[i])
               && TypeLayout(records, pointer, fields[i].ty, visiting).Done?
               && Matches(TypeLayout(records, pointer, fields[i].ty, visiting).layout, t.members[i])
    ensures var r := FieldsLayout(records, pointer, fields[k..], visiting, p);
            if Size(t) <= U64_MAX then r.Done? && Matches(r.layout, t) && FieldsMatch(r.layout, fields, t)
            else r == Failed(SizeOverflow)
    decreases |fields| - k
  {
    if k == |fields| {
      AlignUpCheckedIsExact(p.size, p.align);
    } else {
      assert fields[k..][0] == fields[k] && fields[k..][1..] == fields[k + 1..];
      var l := TypeLayout(records, pointer, fields[k].ty, visiting).layout;
      PlaceIsExact(p, fields, t, k, l);
      EndWithinSize(t, k + 1);
      if End(t, k + 1) <= U64_MAX {
        var next := Partial(End(t, k + 1), if p.align < l.align then l.align else p.align,
                            p.fields + [(fields[k].name, Offset(t, k))]);
        FoldSound(records, pointer, fields, visiting, t, k + 1, next);
      }
    }
  }

  // ----- completeness -----

  predicate IsOverflow(r: LayoutResult) {
    r.Failed? && (r.error.SizeOverflow? || r.error.ArrayOverflow?)
  }

  /** No name on the path expands to something as small as `t`. */
  ghost predicate PathIsLarger(records: Records, pointer: PointerBytes, visiting: set<string>, t: CType) {
    forall name, u :: name in visiting && name in records && ExpandsRecord(records, pointer, name, u)
                      ==> Nodes(t) < Nodes(u)
  }

  ghost predicate Exact(r: LayoutResult, t: CType) {
    if Fits(t) then r.Done? && Matches(r.layout, t) else IsOverflow(r)
  }

  /** A type with a finite expansion is laid out exactly, or overflows exactly when it must. */
  lemma {:induction false} TypeLayoutComplete(
    records: Records, pointer: PointerBytes, ty: TypeRef, t: CType, visiting: set<string>)
    requires Expands(records, pointer, ty, t) && PathIsLarger(records, pointer, visiting, t)
    ensures Exact(TypeLayout(records, pointer, ty, visiting), t)
    decreases records.Keys - visiting, 1, ty
  {
    match ty
    case Path(segments, arguments) =>
      ScalarPathIsExact(segments, |arguments|, pointer);
      if !t.Scalar? { RecordLayoutComplete(records, pointer, segments[|segments| - 1], t, visiting); }
    case Array(element, length) =>
      TypeLayoutComplete(records, pointer, element, t.element, visiting);
      var inner := TypeLayout(records, pointer, element, visiting);
      if inner.Done? {
        ExpansionSound(records, pointer, element, t.element);
        ArrayLayoutIsExact(length.value, inner.layout, t.element);
      }
    case Capability(inner) => TypeLayoutComplete(records, pointer, inner, t, visiting);
    case FunctionPointer(_, _) =>
  }

  lemma {:induction false} RecordLayoutComplete(
    records: Records, pointer: PointerBytes, name: string, t: CType, visiting: set<string>)
    requires name in records && ExpandsRecord(records, pointer, name, t)
    requires PathIsLarger(records, pointer, visiting, t)
    ensures Exact(RecordLayout(records, pointer, name, visiting), t)
    decreases records.Keys - visiting, 0
  {
    var fields, inside := records[name].fields, visiting + {name};
    assert name !in visiting;
    forall i | 0 <= i < |fields| ensures Exact(TypeLayout(records, pointer, fields[i].ty, inside), t.members[i]) {
      MemberIsSmaller(t, |t.members|, i);
      forall n, u | n in inside && n in records && ExpandsRecord(records, pointer, n, u)
        ensures Nodes(t.members[i]) < Nodes(u)
      {
        if n == name { RecordExpansionUnique(records, pointer, name, t, u); }
      }
      TypeLayoutComplete(records, pointer, fields[i].ty, t.members[i], inside);
    }
    if forall i :: 0 <= i < |fields| ==> Fits(t.members[i]) {
      assert fields[0..] == fields;
      FoldSound(records, pointer, fields, inside, t, 0, Partial(0, 1, []));
    } else {
      assert fields[0..] == fields;
      FoldOverflows(records, pointer, fields, inside, t, 0, Partial(0, 1, []));
    }
  }

  lemma {:induction false} FoldOverflows(
    records: Records, pointer: PointerBytes, fields: seq<Field>, visiting: set<string>, t: CType, k: nat, p: Partial)
    requires t.CStruct? && k <= |fields| == |t.members| && Describes(p, fields, t, k)
    requires forall i :: 0 <= i < |fields| ==>
               Exact(TypeLayout(records, pointer, fields[i].ty, visiting), t.members[i])
    requires exists i :: k <= i < |fields| && !Fits(t.members[i])
    ensures IsOverflow(FieldsLayout(records, pointer, fields[k..], visiting, p))
    decreases |fields| - k
  {
    assert fields[k..][0] == fields[k] && fields[k..][1..] == fields[k + 1..];
    var field := TypeLayout(records, pointer, fields[k].ty, visiting);
    if field.Done? {
      PlaceIsExact(p, fields, t, k, field.layout);
      if End(t, k + 1) <= U64_MAX {
        var next := Partial(End(t, k + 1), if p.align < field.layout.align then field.layout.align else p.align,
                            p.fields + [(fields[k].name, Offset(t, k))]);
        FoldOverflows(records, pointer, fields, visiting, t, k + 1, next);
      }
    }
  }

  // ----- summary -----

  /** From an empty path, a record is laid out exactly when it has a finite expansion that fits. */
  lemma RecordLayoutSucceedsExactly(records: Records, pointer: PointerBytes, name: string)
    requires name in records
    ensures RecordLayout(records, pointer, name, {}).Done?
       <==> exists t :: ExpandsRecord(records, pointer, name, t) && Fits(t)
  {
    if RecordLayout(records, pointer, name, {}).Done? {
      var t := RecordLayoutSound(records, pointer, name, {});
      assert ExpandsRecord(records, pointer, name, t) && Fits(t);
    }
    forall t | ExpandsRecord(records, pointer, name, t) && Fits(t)
      ensures RecordLayout(records, pointer, name, {}).Done?
    {
      RecordLayoutComplete(records, pointer, name, t, {});
    }
  }

  /** Given a finite expansion, an overflow is reported exactly when some true size exceeds 64 bits. */
  lemma OverflowIsExact(records: Records, pointer: PointerBytes, name: string, t: CType)
    requires name in records && ExpandsRecord(records, pointer, name, t)
    ensures IsOverflow(RecordLayout(records, pointer, name, {})) <==> !Fits(t)
  {
    RecordLayoutComplete(records, pointer, name, t, {});
  }

  /** A successful layout does not depend on the on-path names it was computed under. */
  lemma ResultIgnoresPath(records: Records, pointer: PointerBytes, name: string, visiting: set<string>)
    requires name in records && RecordLayout(records, pointer, name, visiting).Done?
    ensures RecordLayout(records, pointer, name, {}) == RecordLayout(records, pointer, name, visiting)
  {
    var t := RecordLayoutSound(records, pointer, name, visiting);
    RecordLayoutComplete(records, pointer, name, t, {});
    var u := RecordLayoutSound(records, pointer, name, {});
    RecordExpansionUnique(records, pointer, name, t, u);
    var l := RecordLayout(records, pointer, name, visiting).layout;
    var l' := RecordLayout(records, pointer, name, {}).layout;
    assert l.fields == l'.fields;
  }
}
