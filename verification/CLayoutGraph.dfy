/** When a record has a finite expansion: exactly when the records embedded by value form no cycle
    and each of them is non-empty with supported field types. */
module CLayoutGraph {
  import opened Common
  import opened BindgenTypes
  import opened CLayoutSpec
  import opened CLayout
  import opened CLayoutCorrect
  import opened CScalarSpec
  import opened CScalarCorrect

  /** The record a value of type `ty` contains, directly or as array elements. */
  ghost function Embedded(records: Records, pointer: PointerBytes, ty: TypeRef): Option<string> {
    match ty
    case Path(segments, arguments) =>
      if NamesScalar(segments, |arguments|, pointer) || segments == [] then None
      else if segments[|segments| - 1] in records then Some(segments[|segments| - 1])
      else None
    case Array(element, _) => Embedded(records, pointer, element)
    case Capability(inner) => Embedded(records, pointer, inner)
    case FunctionPointer(_, _) => None
  }

  /** The type is a scalar, a known record, or built from such with constant array lengths. */
  ghost predicate Supported(records: Records, pointer: PointerBytes, ty: TypeRef) {
    match ty
    case Path(segments, arguments) =>
      NamesScalar(segments, |arguments|, pointer) || (segments != [] && segments[|segments| - 1] in records)
    case Array(element, length) => length.Some? && Supported(records, pointer, element)
    case Capability(inner) => Supported(records, pointer, inner)
    case FunctionPointer(_, _) => true
  }

  ghost predicate RecordSupported(records: Records, pointer: PointerBytes, name: string) {
    && name in records && records[name].fields != []
    && forall i :: 0 <= i < |records[name].fields| ==> Supported(records, pointer, records[name].fields[i].ty)
  }

  ghost predicate Embeds(records: Records, pointer: PointerBytes, a: string, b: string) {
    && a in records
    && exists i :: 0 <= i < |records[a].fields| && Embedded(records, pointer, records[a].fields[i].ty) == Some(b)
  }

  ghost predicate Link(records: Records, pointer: PointerBytes, p: seq<string>, i: nat)
    requires i + 1 < |p|
  {
    Embeds(records, pointer, p[i], p[i + 1])
  }

  /** A by-value dependency chain starting at `root`. */
  ghost predicate Chain(records: Records, pointer: PointerBytes, root: string, p: seq<string>) {
    && |p| > 0 && p[0] == root
    && forall i :: 0 <= i < |p| - 1 ==> Link(records, pointer, p, i)
  }

  ghost predicate Distinct(p: seq<string>) {
    forall i, j :: 0 <= i < j < |p| ==> p[i] != p[j]
  }

  /** No chain from `root` meets a record twice, and every record met is supported. */
  ghost predicate FinitelySupported(records: Records, pointer: PointerBytes, root: string) {
    forall p :: Chain(records, pointer, root, p) ==>
      Distinct(p) && RecordSupported(records, pointer, p[|p| - 1])
  }

  // ----- an expansion rules out cycles -----

  lemma {:induction false} EmbeddedSubtree(records: Records, pointer: PointerBytes, ty: TypeRef, t: CType)
    returns (u: CType)
    requires Expands(records, pointer, ty, t) && Embedded(records, pointer, ty).Some?
    requires Embedded(records, pointer, ty).value in records
    ensures ExpandsRecord(records, pointer, Embedded(records, pointer, ty).value, u) && Nodes(u) <= Nodes(t)
    decreases ty
  {
    match ty
    case Path(_, _) => u := t;
    case Array(element, _) => u := EmbeddedSubtree(records, pointer, element, t.element);
    case Capability(inner) => u := EmbeddedSubtree(records, pointer, inner, t);
  }

  lemma {:induction false} EmbeddedIsRecord(records: Records, pointer: PointerBytes, ty: TypeRef)
    requires Embedded(records, pointer, ty).Some?
    ensures Embedded(records, pointer, ty).value in records
  {
    match ty
    case Path(_, _) =>
    case Array(element, _) => EmbeddedIsRecord(records, pointer, element);
    case Capability(inner) => EmbeddedIsRecord(records, pointer, inner);
  }

  lemma {:induction false} ExpandedIsSupported(records: Records, pointer: PointerBytes, ty: TypeRef, t: CType)
    requires Expands(records, pointer, ty, t)
    ensures Supported(records, pointer, ty)
    decreases ty
  {
    match ty
    case Path(_, _) =>
    case Array(element, _) => ExpandedIsSupported(records, pointer, element, t.element);
    case Capability(inner) => ExpandedIsSupported(records, pointer, inner, t);
    case FunctionPointer(_, _) =>
  }

  /** Along a chain expansions get strictly smaller. */
  lemma {:induction false} ChainShrinks(
    records: Records, pointer: PointerBytes, root: string, p: seq<string>, t: CType, i: nat) returns (u: CType)
    requires root in records && ExpandsRecord(records, pointer, root, t)
    requires Chain(records, pointer, root, p) && i < |p|
    ensures p[i] in records && ExpandsRecord(records, pointer, p[i], u)
    ensures if i == 0 then u == t else Nodes(u) < Nodes(t)
    decreases i
  {
    u := t;
    if i > 0 {
      var before := ChainShrinks(records, pointer, root, p, t, i - 1);
      assert Link(records, pointer, p, i - 1);
      var fields := records[p[i - 1]].fields;
      var k :| 0 <= k < |fields| && Embedded(records, pointer, fields[k].ty) == Some(p[i]);
      EmbeddedIsRecord(records, pointer, fields[k].ty);
      u := EmbeddedSubtree(records, pointer, fields[k].ty, before.members[k]);
      MemberIsSmaller(before, |before.members|, k);
    }
  }

  lemma SuffixIsChain(records: Records, pointer: PointerBytes, root: string, p: seq<string>, i: nat)
    requires Chain(records, pointer, root, p) && i < |p|
    ensures Chain(records, pointer, p[i], p[i..])
  {
    var q := p[i..];
    forall k | 0 <= k < |q| - 1 ensures Link(records, pointer, q, k) { assert Link(records, pointer, p, i + k); }
  }

  lemma ChainIsDistinct(records: Records, pointer: PointerBytes, root: string, p: seq<string>, t: CType, i: nat, j: nat)
    requires root in records && ExpandsRecord(records, pointer, root, t)
    requires Chain(records, pointer, root, p) && i < j < |p|
    ensures p[i] != p[j]
  {
    var u := ChainShrinks(records, pointer, root, p, t, i);
    SuffixIsChain(records, pointer, root, p, i);
    var w := ChainShrinks(records, pointer, p[i], p[i..], u, j - i);
    if p[i] == p[j] { RecordExpansionUnique(records, pointer, p[i], u, w); }
  }

  lemma ChainEndSupported(records: Records, pointer: PointerBytes, root: string, p: seq<string>, t: CType)
    requires root in records && ExpandsRecord(records, pointer, root, t) && Chain(records, pointer, root, p)
    ensures RecordSupported(records, pointer, p[|p| - 1])
  {
    var last := ChainShrinks(records, pointer, root, p, t, |p| - 1);
    var fields := records[p[|p| - 1]].fields;
    forall k | 0 <= k < |fields| ensures Supported(records, pointer, fields[k].ty) {
      ExpandedIsSupported(records, pointer, fields[k].ty, last.members[k]);
    }
  }

  lemma ExpansionImpliesFinite(records: Records, pointer: PointerBytes, root: string, t: CType)
    requires root in records && ExpandsRecord(records, pointer, root, t)
    ensures FinitelySupported(records, pointer, root)
  {
    forall p | Chain(records, pointer, root, p)
      ensures Distinct(p) && RecordSupported(records, pointer, p[|p| - 1])
    {
      ChainEndSupported(records, pointer, root, p, t);
      forall i, j | 0 <= i < j < |p| ensures p[i] != p[j] {
        ChainIsDistinct(records, pointer, root, p, t, i, j);
      }
    }
  }

  // ----- no cycles give an expansion -----

  function Names(p: seq<string>): set<string> { set n | n in p }

  lemma ExtendChain(records: Records, pointer: PointerBytes, root: string, p: seq<string>, name: string)
    requires Chain(records, pointer, root, p) && Embeds(records, pointer, p[|p| - 1], name)
    ensures Chain(records, pointer, root, p + [name])
  {
    var q := p + [name];
    forall k | 0 <= k < |q| - 1 ensures Link(records, pointer, q, k) {
      if k < |p| - 1 { assert Link(records, pointer, p, k); }
    }
  }

  lemma NewNameOnChain(records: Records, pointer: PointerBytes, root: string, p: seq<string>, name: string)
    requires FinitelySupported(records, pointer, root)
    requires Chain(records, pointer, root, p) && Embeds(records, pointer, p[|p| - 1], name)
    ensures Chain(records, pointer, root, p + [name]) && name !in p && Names(p + [name]) == Names(p) + {name}
  {
    ExtendChain(records, pointer, root, p, name);
    LastIsNew(p, name);
  }

  lemma LastIsNew(p: seq<string>, name: string)
    requires Distinct(p + [name])
    ensures name !in p && Names(p + [name]) == Names(p) + {name}
  {
    assert (p + [name])[|p|] == name;
    forall i | 0 <= i < |p| ensures p[i] != name { assert (p + [name])[i] == p[i]; }
  }

  lemma {:induction false} BuildRecord(records: Records, pointer: PointerBytes, root: string, p: seq<string>)
    returns (t: CType)
    requires FinitelySupported(records, pointer, root) && Chain(records, pointer, root, p)
    ensures p[|p| - 1] in records && ExpandsRecord(records, pointer, p[|p| - 1], t)
    decreases records.Keys - Names(p), 0
  {
    var name := p[|p| - 1];
    assert RecordSupported(records, pointer, name);
    var members := BuildMembers(records, pointer, root, p, |records[name].fields|);
    t := CStruct(members);
  }

  lemma {:induction false} BuildMembers(
    records: Records, pointer: PointerBytes, root: string, p: seq<string>, k: nat) returns (members: seq<CType>)
    requires FinitelySupported(records, pointer, root) && Chain(records, pointer, root, p)
    requires p[|p| - 1] in records && k <= |records[p[|p| - 1]].fields|
    ensures |members| == k
    ensures forall i :: 0 <= i < k ==> Expands(records, pointer, records[p[|p| - 1]].fields[i].ty, members[i])
    decreases records.Keys - Names(p), 0, k
  {
    members := [];
    if k > 0 {
      var front := BuildMembers(records, pointer, root, p, k - 1);
      assert RecordSupported(records, pointer, p[|p| - 1]);
      var ty := records[p[|p| - 1]].fields[k - 1].ty;
      FieldEmbeds(records, pointer, p[|p| - 1], k - 1);
      var last := BuildType(records, pointer, root, p, ty);
      members := front + [last];
      assert forall i :: 0 <= i < k - 1 ==> members[i] == front[i];
    }
  }

  lemma FieldEmbeds(records: Records, pointer: PointerBytes, name: string, k: nat)
    requires name in records && k < |records[name].fields|
    ensures var embedded := Embedded(records, pointer, records[name].fields[k].ty);
            embedded.Some? ==> Embeds(records, pointer, name, embedded.value)
  {
  }

  lemma {:induction false} BuildEmbedded(
    records: Records, pointer: PointerBytes, root: string, p: seq<string>, name: string) returns (t: CType)
    requires FinitelySupported(records, pointer, root) && Chain(records, pointer, root, p)
    requires Embeds(records, pointer, p[|p| - 1], name)
    ensures name in records && ExpandsRecord(records, pointer, name, t)
    decreases records.Keys - Names(p), 0, 0, 0
  {
    NewNameOnChain(records, pointer, root, p, name);
    assert RecordSupported(records, pointer, (p + [name])[|p|]);
    t := BuildRecord(records, pointer, root, p + [name]);
  }

  lemma ScalarExpansion(records: Records, pointer: PointerBytes, ty: TypeRef) returns (t: CType)
    requires ty.Path? && Supported(records, pointer, ty) && Embedded(records, pointer, ty).None?
    ensures Expands(records, pointer, ty, t)
  {
    ScalarPathIsExact(ty.segments, |ty.arguments|, pointer);
    var size: nat, align: nat :| ScalarPath(ty.segments, |ty.arguments|, pointer, size, align);
    t := Scalar(size, align);
  }

  lemma {:induction false} BuildType(
    records: Records, pointer: PointerBytes, root: string, p: seq<string>, ty: TypeRef) returns (t: CType)
    requires FinitelySupported(records, pointer, root) && Chain(records, pointer, root, p)
    requires Supported(records, pointer, ty)
    requires Embedded(records, pointer, ty).Some? ==>
               Embeds(records, pointer, p[|p| - 1], Embedded(records, pointer, ty).value)
    ensures Expands(records, pointer, ty, t)
    decreases records.Keys - Names(p), 0, 0, 1, ty
  {
    match ty
    case Path(_, _) =>
      if Embedded(records, pointer, ty).Some? {
        t := BuildEmbedded(records, pointer, root, p, Embedded(records, pointer, ty).value);
      } else {
        t := ScalarExpansion(records, pointer, ty);
      }
    case Array(element, length) =>
      var inner := BuildType(records, pointer, root, p, element);
      t := CArray(length.value, inner);
    case Capability(inner) => t := BuildType(records, pointer, root, p, inner);
    case FunctionPointer(_, _) => t := Scalar(pointer, pointer);
  }

  /** A finite expansion exists exactly when the dependency graph below the record is acyclic and
      every record in it is non-empty and supported. */
  lemma ExpansionExistsExactly(records: Records, pointer: PointerBytes, root: string)
    requires root in records
    ensures (exists t :: ExpandsRecord(records, pointer, root, t)) <==> FinitelySupported(records, pointer, root)
  {
    forall t | ExpandsRecord(records, pointer, root, t) ensures FinitelySupported(records, pointer, root) {
      ExpansionImpliesFinite(records, pointer, root, t);
    }
    if FinitelySupported(records, pointer, root) {
      assert Chain(records, pointer, root, [root]);
      var t := BuildRecord(records, pointer, root, [root]);
      assert ExpandsRecord(records, pointer, root, t);
    }
  }

  /** The layout of a record succeeds exactly when the graph of records it embeds by value is acyclic,
      every record reached is non-empty and supported, and no true size exceeds 64 bits. */
  lemma LayoutSucceedsExactly(records: Records, pointer: PointerBytes, root: string)
    requires root in records
    ensures RecordLayout(records, pointer, root, {}).Done?
       <==> && FinitelySupported(records, pointer, root)
            && forall t :: ExpandsRecord(records, pointer, root, t) ==> Fits(t)
  {
    RecordLayoutSucceedsExactly(records, pointer, root);
    ExpansionExistsExactly(records, pointer, root);
    if RecordLayout(records, pointer, root, {}).Done? {
      var t := RecordLayoutSound(records, pointer, root, {});
      forall u | ExpandsRecord(records, pointer, root, u) ensures Fits(u) {
        RecordExpansionUnique(records, pointer, root, t, u);
      }
    }
  }

  // ----- every failure has the cause it names -----

  /** Some path in the type, under arrays and capabilities, is neither a scalar nor a record. */
  ghost predicate HasUnknown(records: Records, pointer: PointerBytes, ty: TypeRef) {
    match ty
    case Path(segments, arguments) =>
      !NamesScalar(segments, |arguments|, pointer) && (segments == [] || segments[|segments| - 1] !in records)
    case Array(element, _) => HasUnknown(records, pointer, element)
    case Capability(inner) => HasUnknown(records, pointer, inner)
    case FunctionPointer(_, _) => false
  }

  /** Some array in the type has no constant length. */
  predicate HasBadLength(ty: TypeRef) {
    match ty
    case Array(element, length) => length.None? || HasBadLength(element)
    case Capability(inner) => HasBadLength(inner)
    case _ => false
  }

  /** Following records embedded by value from `root` meets the cause of the error. */
  ghost predicate Explained(records: Records, pointer: PointerBytes, root: string, e: LayoutError) {
    exists p :: Chain(records, pointer, root, p) && ExplainedAt(records, pointer, p, e)
  }

  ghost predicate ExplainedAt(records: Records, pointer: PointerBytes, p: seq<string>, e: LayoutError)
    requires |p| > 0
  {
    var name := p[|p| - 1];
    match e
    case RecursiveRecord => !Distinct(p)
    case EmptyRecord => name in records && records[name].fields == []
    case NoLayout => name in records && exists f :: f in records[name].fields && HasUnknown(records, pointer, f.ty)
    case BadLength => name in records && exists f :: f in records[name].fields && HasBadLength(f.ty)
    case _ => true
  }

  lemma {:induction false} TypeFailure(
    records: Records, pointer: PointerBytes, root: string, p: seq<string>, ty: TypeRef)
    requires Chain(records, pointer, root, p) && TypeLayout(records, pointer, ty, Names(p)).Failed?
    requires Embedded(records, pointer, ty).Some? ==>
               Embeds(records, pointer, p[|p| - 1], Embedded(records, pointer, ty).value)
    ensures var e := TypeLayout(records, pointer, ty, Names(p)).error;
            || Explained(records, pointer, root, e)
            || (e == NoLayout && HasUnknown(records, pointer, ty)) || (e == BadLength && HasBadLength(ty))
    decreases records.Keys - Names(p), 1, ty
  {
    match ty
    case Path(segments, arguments) =>
      ScalarPathIsExact(segments, |arguments|, pointer);
      if segments != [] && segments[|segments| - 1] in records {
        var name := segments[|segments| - 1];
        ExtendChain(records, pointer, root, p, name);
        assert (p + [name])[..|p|] == p;
        RecordFailure(records, pointer, root, p + [name]);
      }
    case Array(element, length) =>
      if length.Some? {
        if TypeLayout(records, pointer, element, Names(p)).Failed? {
          TypeFailure(records, pointer, root, p, element);
        } else {
          assert ExplainedAt(records, pointer, p, TypeLayout(records, pointer, ty, Names(p)).error);
        }
      }
    case Capability(inner) => TypeFailure(records, pointer, root, p, inner);
    case FunctionPointer(_, _) =>
  }

  lemma {:induction false} RecordFailure(records: Records, pointer: PointerBytes, root: string, p: seq<string>)
    requires Chain(records, pointer, root, p) && p[|p| - 1] in records
    requires RecordLayout(records, pointer, p[|p| - 1], Names(p[..|p| - 1])).Failed?
    ensures Explained(records, pointer, root, RecordLayout(records, pointer, p[|p| - 1], Names(p[..|p| - 1])).error)
    decreases records.Keys - Names(p[..|p| - 1]), 0
  {
    var front, name := p[..|p| - 1], p[|p| - 1];
    var e := RecordLayout(records, pointer, name, Names(front)).error;
    if records[name].fields == [] {
      assert ExplainedAt(records, pointer, p, e);
    } else if name in Names(front) {
      var i :| 0 <= i < |front| && front[i] == name;
      assert p[i] == p[|p| - 1];
      assert ExplainedAt(records, pointer, p, e);
    } else {
      assert Names(p) == Names(front) + {name} by { assert p == front + [name]; }
      assert records[name].fields[0..] == records[name].fields;
      FieldsFailure(records, pointer, root, p, 0, Partial(0, 1, []));
    }
  }

  lemma {:induction false} FieldsFailure(
    records: Records, pointer: PointerBytes, root: string, p: seq<string>, k: nat, partial: Partial)
    requires Chain(records, pointer, root, p) && p[|p| - 1] in records && k <= |records[p[|p| - 1]].fields|
    requires FieldsLayout(records, pointer, records[p[|p| - 1]].fields[k..], Names(p), partial).Failed?
    ensures Explained(records, pointer, root,
                      FieldsLayout(records, pointer, records[p[|p| - 1]].fields[k..], Names(p), partial).error)
    decreases records.Keys - Names(p), 2, |records[p[|p| - 1]].fields| - k
  {
    var fields := records[p[|p| - 1]].fields;
    var e := FieldsLayout(records, pointer, fields[k..], Names(p), partial).error;
    if k < |fields| {
      assert fields[k..][0] == fields[k] && fields[k..][1..] == fields[k + 1..] && fields[k] in fields;
      var field := TypeLayout(records, pointer, fields[k].ty, Names(p));
      if field.Failed? {
        TypeFailure(records, pointer, root, p, fields[k].ty);
        if e == NoLayout && HasUnknown(records, pointer, fields[k].ty) {
          assert ExplainedAt(records, pointer, p, NoLayout);
        }
        if e == BadLength && HasBadLength(fields[k].ty) { assert ExplainedAt(records, pointer, p, BadLength); }
        return;
      }
      var placed := PlaceField(partial.size, field.layout);
      if placed.Some? {
        var (offset, end) := placed.value;
        var align := if partial.align < field.layout.align then field.layout.align else partial.align;
        FieldsFailure(records, pointer, root, p, k + 1,
                      Partial(end, align, partial.fields + [(fields[k].name, offset)]));
        return;
      }
    }
    assert ExplainedAt(records, pointer, p, e);
  }

  /** A failed layout names a real cause: an empty record, a cycle, an unknown type or a length that is
      no constant, each reached by embedding alone. */
  lemma FailureIsExplained(records: Records, pointer: PointerBytes, root: string)
    requires root in records && RecordLayout(records, pointer, root, {}).Failed?
    ensures Explained(records, pointer, root, RecordLayout(records, pointer, root, {}).error)
  {
    var p := [root];
    assert Chain(records, pointer, root, p) && p[..|p| - 1] == [] && Names([]) == {};
    RecordFailure(records, pointer, root, p);
  }
}
