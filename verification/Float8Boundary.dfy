/** The C boundary check for `Float8`: a walk over types and records that may be cyclic. */
module Float8Boundary {
  import opened Common
  import opened BindgenTypes

  /** Span of the first by-value `Float8` found, if any. Records on the path are not re-entered. */
  function Reject(records: Records, ty: TypeRef, span: Span, visiting: set<string>): Option<Span>
    decreases records.Keys - visiting, ty, 1
  {
    match ty
    case Path(segments, arguments) =>
      var name := PathText(segments);
      if name == "Float8" then Some(span)
      else if name == "Slice" || name == "Pointer" then None
      else
        var inArguments := RejectAny(records, arguments, span, visiting);
        if inArguments.Some? then inArguments
        else if arguments == [] && RecordNamed(records, segments).Some? then
          var record := RecordNamed(records, segments).value;
          if record in visiting then None
          else RejectFields(records, records[record].fields, visiting + {record})
        else None
    case Array(element, _) => Reject(records, element, span, visiting)
    case Capability(inner) => Reject(records, inner, span, visiting)
    case FunctionPointer(parameters, returnType) =>
      var inParameters := RejectAny(records, parameters, span, visiting);
      if inParameters.Some? then inParameters
      else if returnType.Some? then Reject(records, returnType.value, span, visiting)
      else None
  }

  function RejectAny(records: Records, types: seq<TypeRef>, span: Span, visiting: set<string>): Option<Span>
    decreases records.Keys - visiting, types, 0
  {
    if types == [] then None
    else
      var first := Reject(records, types[0], span, visiting);
      if first.Some? then first else RejectAny(records, types[1..], span, visiting)
  }

  function RejectFields(records: Records, fields: seq<Field>, visiting: set<string>): Option<Span>
    decreases records.Keys - visiting, fields, 2
  {
    if fields == [] then None
    else
      var first := Reject(records, fields[0].ty, fields[0].span, visiting);
      if first.Some? then first else RejectFields(records, fields[1..], visiting)
  }

  /** The walk with the on-path names as mutable state. */
  class Check {
    const records: Records
    var visiting: set<string>

    constructor (records: Records)
      ensures this.records == records && visiting == {}
    {
      this.records, visiting := records, {};
    }

    /** The on-path set is restored whether or not a `Float8` was found. */
    method RejectType(ty: TypeRef, span: Span) returns (r: Option<Span>)
      requires NamesMatch(records)
      modifies this`visiting
      ensures r == Reject(records, ty, span, old(visiting))
      ensures visiting == old(visiting)
      decreases records.Keys - visiting, ty, 1
    {
      match ty
      case Path(segments, arguments) =>
        var name := PathText(segments);
        if name == "Float8" { return Some(span); }
        if name == "Slice" || name == "Pointer" { return None; }
        r := RejectEach(arguments, span);
        if r.Some? { return; }
        var found := RecordNamed(records, segments);
        if arguments == [] && found.Some? {
          var record := records[found.value];
          if record.name in visiting { return None; }
          visiting := visiting + {record.name};
          for i := 0 to |record.fields|
            invariant visiting == old(visiting) + {record.name}
            invariant RejectFields(records, record.fields, visiting)
                   == RejectFields(records, record.fields[i..], visiting)
          {
            assert record.fields[i..][1..] == record.fields[i + 1..];
            r := RejectType(record.fields[i].ty, record.fields[i].span);
            if r.Some? {
              visiting := visiting - {record.name};
              return;
            }
          }
          visiting := visiting - {record.name};
        }
        r := None;
      case Array(element, _) => r := RejectType(element, span);
      case Capability(inner) => r := RejectType(inner, span);
      case FunctionPointer(parameters, returnType) =>
        r := RejectEach(parameters, span);
        if r.None? && returnType.Some? { r := RejectType(returnType.value, span); }
    }

    method RejectEach(types: seq<TypeRef>, span: Span) returns (r: Option<Span>)
      requires NamesMatch(records)
      modifies this`visiting
      ensures r == RejectAny(records, types, span, old(visiting))
      ensures visiting == old(visiting)
      decreases records.Keys - visiting, types, 0
    {
      for i := 0 to |types|
        invariant visiting == old(visiting)
        invariant RejectAny(records, types, span, visiting) == RejectAny(records, types[i..], span, visiting)
      {
        assert types[i..][1..] == types[i + 1..];
        r := RejectType(types[i], span);
        if r.Some? { return; }
      }
      r := None;
    }
  }

  // ----- by-value reachability -----

  predicate IsFloat8(ty: TypeRef) { ty.Path? && ty.segments == ["Float8"] }

  /** A path type that is followed: not `Float8` itself, and not a type that only carries an address. */
  predicate IsOpen(ty: TypeRef) {
    ty.Path? && ty.segments != ["Float8"] && ty.segments != ["Slice"] && ty.segments != ["Pointer"]
  }

  /** The record whose fields a type stands for: an open path without arguments names it last. */
  function Entered(records: Records, ty: TypeRef): Option<string> {
    if !IsOpen(ty) || ty.arguments != [] || ty.segments == [] then None
    else
      var name := ty.segments[|ty.segments| - 1];
      if name in records then Some(name) else None
  }

  /** The special names are only ever written without a qualifier. */
  lemma SpecialNamesAreBare(segments: seq<string>)
    ensures PathText(segments) == "Float8" <==> segments == ["Float8"]
    ensures PathText(segments) == "Slice" <==> segments == ["Slice"]
    ensures PathText(segments) == "Pointer" <==> segments == ["Pointer"]
  {
    TextIsUnqualified(segments, "Float8");
    TextIsUnqualified(segments, "Slice");
    TextIsUnqualified(segments, "Pointer");
  }

  /** `b` is passed by value as part of `a`. */
  ghost predicate Holds(records: Records, a: TypeRef, b: TypeRef) {
    match a
    case Path(_, arguments) =>
      || (IsOpen(a) && b in arguments)
      || (Entered(records, a).Some? && HasFieldOf(records[Entered(records, a).value].fields, b))
    case Array(element, _) => b == element
    case Capability(inner) => b == inner
    case FunctionPointer(parameters, returnType) => b in parameters || returnType == Some(b)
  }

  ghost predicate HasFieldOf(fields: seq<Field>, b: TypeRef) {
    exists i :: 0 <= i < |fields| && fields[i].ty == b
  }

  ghost predicate Step(records: Records, p: seq<TypeRef>, i: nat)
    requires i + 1 < |p|
  {
    Holds(records, p[i], p[i + 1])
  }

  /** A chain of by-value containment from `ty` to `Float8`. */
  ghost predicate Witness(records: Records, ty: TypeRef, p: seq<TypeRef>) {
    && |p| > 0 && p[0] == ty && IsFloat8(p[|p| - 1])
    && forall i :: 0 <= i < |p| - 1 ==> Step(records, p, i)
  }

  /** Entering a record moves the span to the field followed; any other step keeps it. */
  ghost predicate SpanStep(records: Records, p: seq<TypeRef>, spans: seq<Span>, i: nat)
    requires i + 1 < |p| == |spans|
  {
    if Entered(records, p[i]).Some? then
      exists f :: f in records[Entered(records, p[i]).value].fields && f.ty == p[i + 1] && f.span == spans[i + 1]
    else spans[i + 1] == spans[i]
  }

  /** `spans` are the places from which the types of `p` were met, starting at `span`. */
  ghost predicate Traced(records: Records, p: seq<TypeRef>, spans: seq<Span>, span: Span) {
    && |spans| == |p| > 0 && spans[0] == span
    && forall i :: 0 <= i < |p| - 1 ==> SpanStep(records, p, spans, i)
  }

  ghost predicate ReachesFloat8(records: Records, ty: TypeRef) {
    exists p :: Witness(records, ty, p)
  }

  // ----- soundness: every report has a witness -----

  lemma Prepend(records: Records, a: TypeRef, b: TypeRef, p: seq<TypeRef>)
    requires Holds(records, a, b) && Witness(records, b, p)
    ensures Witness(records, a, [a] + p)
  {
    var q := [a] + p;
    forall i | 0 <= i < |q| - 1 ensures Step(records, q, i) {
      if i > 0 { assert Step(records, p, i - 1); }
    }
  }

  lemma PrependSpan(records: Records, a: TypeRef, p: seq<TypeRef>, spans: seq<Span>, span: Span)
    requires |p| == |spans| > 0 && Traced(records, p, spans, spans[0])
    requires if Entered(records, a).Some? then
               exists f :: f in records[Entered(records, a).value].fields && f.ty == p[0] && f.span == spans[0]
             else spans[0] == span
    ensures Traced(records, [a] + p, [span] + spans, span)
  {
    var q, more := [a] + p, [span] + spans;
    forall i | 0 <= i < |q| - 1 ensures SpanStep(records, q, more, i) {
      if i > 0 { assert SpanStep(records, p, spans, i - 1); }
    }
  }

  /** A report is at the place from which some chain of by-value containment meets `Float8`. */
  lemma {:induction false} RejectSound(records: Records, ty: TypeRef, span: Span, visiting: set<string>)
    returns (p: seq<TypeRef>, spans: seq<Span>)
    requires Reject(records, ty, span, visiting).Some?
    ensures Witness(records, ty, p) && Traced(records, p, spans, span)
    ensures Reject(records, ty, span, visiting) == Some(spans[|spans| - 1])
    decreases records.Keys - visiting, ty, 1
  {
    match ty
    case Path(segments, arguments) =>
      SpecialNamesAreBare(segments);
      if IsFloat8(ty) {
        p, spans := [ty], [span];
        return;
      } else if RejectAny(records, arguments, span, visiting).Some? {
        var i;
        i, p, spans := RejectAnySound(records, arguments, span, visiting);
        Prepend(records, ty, arguments[i], p);
      } else {
        var record := segments[|segments| - 1];
        var i;
        i, p, spans := RejectFieldsSound(records, records[record].fields, visiting + {record});
        Prepend(records, ty, records[record].fields[i].ty, p);
        assert records[record].fields[i] in records[record].fields;
      }
      PrependSpan(records, ty, p, spans, span);
      p, spans := [ty] + p, [span] + spans;
    case Array(element, _) =>
      p, spans := RejectSound(records, element, span, visiting);
      Prepend(records, ty, element, p);
      PrependSpan(records, ty, p, spans, span);
      p, spans := [ty] + p, [span] + spans;
    case Capability(inner) =>
      p, spans := RejectSound(records, inner, span, visiting);
      Prepend(records, ty, inner, p);
      PrependSpan(records, ty, p, spans, span);
      p, spans := [ty] + p, [span] + spans;
    case FunctionPointer(parameters, returnType) =>
      if RejectAny(records, parameters, span, visiting).Some? {
        var i;
        i, p, spans := RejectAnySound(records, parameters, span, visiting);
        Prepend(records, ty, parameters[i], p);
      } else {
        p, spans := RejectSound(records, returnType.value, span, visiting);
        Prepend(records, ty, returnType.value, p);
      }
      PrependSpan(records, ty, p, spans, span);
      p, spans := [ty] + p, [span] + spans;
  }

  lemma {:induction false} RejectAnySound(records: Records, types: seq<TypeRef>, span: Span, visiting: set<string>)
    returns (i: nat, p: seq<TypeRef>, spans: seq<Span>)
    requires RejectAny(records, types, span, visiting).Some?
    ensures i < |types| && Witness(records, types[i], p) && Traced(records, p, spans, span)
    ensures RejectAny(records, types, span, visiting) == Some(spans[|spans| - 1])
    decreases records.Keys - visiting, types, 0
  {
    if Reject(records, types[0], span, visiting).Some? {
      i := 0;
      p, spans := RejectSound(records, types[0], span, visiting);
    } else {
      i, p, spans := RejectAnySound(records, types[1..], span, visiting);
      i := i + 1;
    }
  }

  lemma {:induction false} RejectFieldsSound(records: Records, fields: seq<Field>, visiting: set<string>)
    returns (i: nat, p: seq<TypeRef>, spans: seq<Span>)
    requires RejectFields(records, fields, visiting).Some?
    ensures i < |fields| && Witness(records, fields[i].ty, p) && Traced(records, p, spans, fields[i].span)
    ensures RejectFields(records, fields, visiting) == Some(spans[|spans| - 1])
    decreases records.Keys - visiting, fields, 2
  {
    if Reject(records, fields[0].ty, fields[0].span, visiting).Some? {
      i := 0;
      p, spans := RejectSound(records, fields[0].ty, fields[0].span, visiting);
    } else {
      i, p, spans := RejectFieldsSound(records, fields[1..], visiting);
      i := i + 1;
    }
  }

  // ----- completeness: cutting at records on the path loses nothing -----

  ghost predicate Enters(records: Records, p: seq<TypeRef>, name: string, i: nat)
    requires i < |p|
  {
    Entered(records, p[i]) == Some(name)
  }

  ghost predicate Avoids(records: Records, p: seq<TypeRef>, names: set<string>) {
    forall i, name :: 0 <= i < |p| && name in names ==> !Enters(records, p, name, i)
  }

  lemma {:induction false} AnyFinds(records: Records, types: seq<TypeRef>, i: nat, span: Span, visiting: set<string>)
    requires i < |types| && Reject(records, types[i], span, visiting).Some?
    ensures RejectAny(records, types, span, visiting).Some?
    decreases i
  {
    if i > 0 { AnyFinds(records, types[1..], i - 1, span, visiting); }
  }

  lemma {:induction false} FieldsFind(records: Records, fields: seq<Field>, i: nat, visiting: set<string>)
    requires i < |fields| && Reject(records, fields[i].ty, fields[i].span, visiting).Some?
    ensures RejectFields(records, fields, visiting).Some?
    decreases i
  {
    if i > 0 { FieldsFind(records, fields[1..], i - 1, visiting); }
  }

  /** The last place a chain enters a record. */
  lemma LastEntry(records: Records, p: seq<TypeRef>, name: string) returns (last: nat)
    requires |p| > 0 && Enters(records, p, name, 0)
    ensures last < |p| && Enters(records, p, name, last)
    ensures forall i :: last < i < |p| ==> !Enters(records, p, name, i)
  {
    last := |p| - 1;
    while !Enters(records, p, name, last)
      invariant last < |p|
      invariant forall i :: last < i < |p| ==> !Enters(records, p, name, i)
      decreases last
    {
      last := last - 1;
    }
  }

  lemma SuffixAvoids(records: Records, p: seq<TypeRef>, k: nat, names: set<string>, extra: string)
    requires k <= |p| && Avoids(records, p, names)
    requires forall i :: k <= i < |p| ==> !Enters(records, p, extra, i)
    ensures Avoids(records, p[k..], names + {extra})
  {
    forall i, name | 0 <= i < |p[k..]| && name in names + {extra} ensures !Enters(records, p[k..], name, i) {
      assert Enters(records, p[k..], name, i) == Enters(records, p, name, k + i);
    }
  }

  lemma SuffixIsWitness(records: Records, ty: TypeRef, p: seq<TypeRef>, k: nat)
    requires Witness(records, ty, p) && k < |p|
    ensures Witness(records, p[k], p[k..])
  {
    var q := p[k..];
    forall i | 0 <= i < |q| - 1 ensures Step(records, q, i) { assert Step(records, p, k + i); }
  }

  /** If some chain reaches `Float8` without entering a record already on the path, it is found. */
  lemma {:induction false} RejectComplete(
    records: Records, ty: TypeRef, p: seq<TypeRef>, span: Span, visiting: set<string>)
    requires Witness(records, ty, p) && Avoids(records, p, visiting)
    ensures Reject(records, ty, span, visiting).Some?
    decreases records.Keys - visiting, ty, 1
  {
    if ty.Path? { SpecialNamesAreBare(ty.segments); }
    if |p| > 1 {
      assert Step(records, p, 0);
      SuffixIsWitness(records, ty, p, 1);
      var next := p[1];
      if Entered(records, ty).Some? {
        EnteredComplete(records, ty, p, span, visiting);
      } else {
        TailAvoids(records, p, visiting);
        match ty
        case Path(_, arguments) =>
          var i :| 0 <= i < |arguments| && arguments[i] == next;
          RejectComplete(records, next, p[1..], span, visiting);
          AnyFinds(records, arguments, i, span, visiting);
        case Array(_, _) => RejectComplete(records, next, p[1..], span, visiting);
        case Capability(_) => RejectComplete(records, next, p[1..], span, visiting);
        case FunctionPointer(parameters, returnType) =>
          RejectComplete(records, next, p[1..], span, visiting);
          if next in parameters {
            var i :| 0 <= i < |parameters| && parameters[i] == next;
            AnyFinds(records, parameters, i, span, visiting);
          }
      }
    }
  }

  lemma TailAvoids(records: Records, p: seq<TypeRef>, names: set<string>)
    requires |p| > 0 && Avoids(records, p, names)
    ensures Avoids(records, p[1..], names)
  {
    forall i, name | 0 <= i < |p[1..]| && name in names ensures !Enters(records, p[1..], name, i) {
      assert Enters(records, p[1..], name, i) == Enters(records, p, name, i + 1);
    }
  }

  lemma {:induction false} EnteredComplete(
    records: Records, ty: TypeRef, p: seq<TypeRef>, span: Span, visiting: set<string>)
    requires Witness(records, ty, p) && Avoids(records, p, visiting) && Entered(records, ty).Some?
    ensures Reject(records, ty, span, visiting).Some?
    decreases records.Keys - visiting, ty, 0
  {
    SpecialNamesAreBare(ty.segments);
    var name := Entered(records, ty).value;
    assert Enters(records, p, name, 0);
    var last := LastEntry(records, p, name);
    assert last < |p| - 1;
    assert Step(records, p, last);
    var fields := records[name].fields;
    var i :| 0 <= i < |fields| && fields[i].ty == p[last + 1];
    SuffixIsWitness(records, ty, p, last + 1);
    SuffixAvoids(records, p, last + 1, visiting, name);
    RejectComplete(records, p[last + 1], p[last + 1..], fields[i].span, visiting + {name});
    FieldsFind(records, fields, i, visiting + {name});
  }

  /** From an empty path the check reports an error exactly when `Float8` is reachable by value. */
  lemma RejectIsExact(records: Records, ty: TypeRef, span: Span)
    ensures Reject(records, ty, span, {}).Some? <==> ReachesFloat8(records, ty)
  {
    if Reject(records, ty, span, {}).Some? {
      var p, spans := RejectSound(records, ty, span, {});
    }
    forall p | Witness(records, ty, p) ensures Reject(records, ty, span, {}).Some? {
      RejectComplete(records, ty, p, span, {});
    }
  }

  /** Types that only carry an address never reject, whatever they point to. */
  lemma AddressesAreAccepted(
    records: Records, name: string, arguments: seq<TypeRef>, span: Span, visiting: set<string>)
    requires name == "Slice" || name == "Pointer"
    ensures Reject(records, Path([name], arguments), span, visiting).None?
    ensures !ReachesFloat8(records, Path([name], arguments))
  {
    RejectIsExact(records, Path([name], arguments), span);
  }

  /** A record is rejected under any qualifier exactly when one of its own fields is: the last segment
      names it. */
  lemma QualifiedRecordIsExact(records: Records, qualifier: seq<string>, name: string, span: Span)
    requires name in records
    requires qualifier != [] || (name != "Float8" && name != "Slice" && name != "Pointer")
    ensures Reject(records, Path(qualifier + [name], []), span, {}).Some?
       <==> exists i :: 0 <= i < |records[name].fields| && ReachesFloat8(records, records[name].fields[i].ty)
  {
    var ty, fields := Path(qualifier + [name], []), records[name].fields;
    RejectIsExact(records, ty, span);
    assert Entered(records, ty) == Some(name);
    forall p | Witness(records, ty, p) ensures exists i :: 0 <= i < |fields| && ReachesFloat8(records, fields[i].ty) {
      assert |p| > 1 && Step(records, p, 0);
      SuffixIsWitness(records, ty, p, 1);
    }
    forall i, p | 0 <= i < |fields| && Witness(records, fields[i].ty, p) ensures ReachesFloat8(records, ty) {
      Prepend(records, ty, fields[i].ty, p);
    }
  }
}
