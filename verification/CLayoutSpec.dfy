/** Layout of C types on unbounded integers (section 6.7.2.1 of ISO C11): members in declaration
    order, each at the least aligned offset, the whole padded to its own alignment. */
module CLayoutSpec {
  import Bits

  type Positive = n: nat | n >= 1 witness 1

  /** A C type with every record expanded in place. */
  datatype CType =
    | Scalar(size: nat, alignment: Positive)
    | CArray(count: nat, element: CType)
    | CStruct(members: seq<CType>)

  /** The least multiple of `a` that is at least `v`. */
  function AlignUp(v: nat, a: Positive): nat { (v + a - 1) / a * a }

  predicate IsPowerOfTwo(a: nat) {
    a == 1 || (a >= 2 && a % 2 == 0 && IsPowerOfTwo(a / 2))
  }

  /** Every scalar has a power-of-two alignment that divides its size, as in C. */
  ghost predicate Sound(t: CType) {
    match t
    case Scalar(size, alignment) => IsPowerOfTwo(alignment) && size % alignment == 0
    case CArray(_, element) => Sound(element)
    case CStruct(members) => forall i :: 0 <= i < |members| ==> Sound(members[i])
  }

  function Align(t: CType): Positive
    decreases t, 1
  {
    match t
    case Scalar(_, alignment) => alignment
    case CArray(_, element) => Align(element)
    case CStruct(members) => MaxAlign(t, |members|)
  }

  /** Greatest alignment among the first `k` members. */
  function MaxAlign(t: CType, k: nat): Positive
    requires t.CStruct? && k <= |t.members|
    decreases t, 0, k
  {
    if k == 0 then 1
    else
      var before, last := MaxAlign(t, k - 1), Align(t.members[k - 1]);
      if before < last then last else before
  }

  function Size(t: CType): nat
    decreases t, 1
  {
    match t
    case Scalar(size, _) => size
    case CArray(count, element) => count * Size(element)
    case CStruct(members) => AlignUp(End(t, |members|), Align(t))
  }

  /** First byte after the first `k` members. */
  function End(t: CType, k: nat): nat
    requires t.CStruct? && k <= |t.members|
    decreases t, 0, k, 0
  {
    if k == 0 then 0 else Offset(t, k - 1) + Size(t.members[k - 1])
  }

  function Offset(t: CType, k: nat): nat
    requires t.CStruct? && k < |t.members|
    decreases t, 0, k, 1
  {
    AlignUp(End(t, k), Align(t.members[k]))
  }

  // ----- what the layout guarantees -----

  /** `AlignUp` is the least aligned value that is large enough. */
  lemma AlignUpIsLeast(v: nat, a: Positive, x: nat)
    ensures AlignUp(v, a) % a == 0 && v <= AlignUp(v, a) < v + a
    ensures x >= v && x % a == 0 ==> AlignUp(v, a) <= x
  {
    var q := (v + a - 1) / a;
    MultipleIsAligned(q, a);
    assert v + a - 1 == q * a + (v + a - 1) % a;
    if x >= v && x % a == 0 {
      var p := x / a;
      assert x == p * a;
      if p < q { assert p * a <= (q - 1) * a by { MulMonotone(p, q - 1, a); } }
      else { MulMonotone(q, p, a); }
    }
  }

  lemma MulMonotone(p: int, q: int, a: nat)
    requires p <= q
    ensures p * a <= q * a
  {
    assert (q - p) * a >= 0;
  }

  lemma MultipleIsAligned(q: nat, a: Positive)
    ensures (q * a) % a == 0
  {
    Bits.RemainderUnique(q * a, a, q, 0);
  }

  /** Offsets: aligned, after everything before them, with no more padding than alignment needs. */
  lemma OffsetIsLeastAligned(t: CType, k: nat, x: nat)
    requires t.CStruct? && k < |t.members|
    ensures Offset(t, k) % Align(t.members[k]) == 0
    ensures Offset(t, k) >= End(t, k)
    ensures x >= End(t, k) && x % Align(t.members[k]) == 0 ==> Offset(t, k) <= x
  {
    AlignUpIsLeast(End(t, k), Align(t.members[k]), x);
  }

  /** Members keep their order and never overlap. */
  lemma {:induction false} MembersAreDisjoint(t: CType, i: nat, j: nat)
    requires t.CStruct? && i < j < |t.members|
    ensures Offset(t, i) + Size(t.members[i]) <= Offset(t, j)
    decreases j
  {
    OffsetIsLeastAligned(t, j, 0);
    if i < j - 1 {
      MembersAreDisjoint(t, i, j - 1);
    }
  }

  /** The size is the least multiple of the alignment that covers every member. */
  lemma SizeCovers(t: CType, k: nat, x: nat)
    requires t.CStruct? && k < |t.members|
    ensures Size(t) % Align(t) == 0 && Offset(t, k) + Size(t.members[k]) <= Size(t)
    ensures x >= End(t, |t.members|) && x % Align(t) == 0 ==> Size(t) <= x
  {
    AlignUpIsLeast(End(t, |t.members|), Align(t), x);
    if k < |t.members| - 1 { MembersAreDisjoint(t, k, |t.members| - 1); }
  }

  lemma {:induction false} PowersDivide(a: nat, b: nat)
    requires IsPowerOfTwo(a) && IsPowerOfTwo(b) && a <= b
    ensures b % a == 0
  {
    if a > 1 {
      PowersDivide(a / 2, b / 2);
      var c := (b / 2) / (a / 2);
      assert b / 2 == c * (a / 2);
      assert b == c * a;
      MultipleIsAligned(c, a);
    }
  }

  lemma {:induction false} AlignIsPowerOfTwo(t: CType)
    requires Sound(t)
    ensures IsPowerOfTwo(Align(t))
    decreases t, 1
  {
    match t
    case Scalar(_, _) =>
    case CArray(_, element) => AlignIsPowerOfTwo(element);
    case CStruct(members) => MaxAlignIsPowerOfTwo(t, |members|);
  }

  lemma {:induction false} MaxAlignIsPowerOfTwo(t: CType, k: nat)
    requires Sound(t) && t.CStruct? && k <= |t.members|
    ensures IsPowerOfTwo(MaxAlign(t, k))
    ensures forall i :: 0 <= i < k ==> Align(t.members[i]) <= MaxAlign(t, k)
    decreases t, 0, k
  {
    if k > 0 {
      MaxAlignIsPowerOfTwo(t, k - 1);
      AlignIsPowerOfTwo(t.members[k - 1]);
    }
  }

  /** The alignment of a struct is a power of two that every member alignment divides. */
  lemma MemberAlignmentDivides(t: CType, i: nat)
    requires Sound(t) && t.CStruct? && i < |t.members|
    ensures IsPowerOfTwo(Align(t)) && Align(t) % Align(t.members[i]) == 0
  {
    MaxAlignIsPowerOfTwo(t, |t.members|);
    AlignIsPowerOfTwo(t.members[i]);
    PowersDivide(Align(t.members[i]), Align(t));
  }

  /** Sizes are multiples of alignments, so array elements follow each other without padding. */
  lemma {:induction false} SizeIsMultiple(t: CType)
    requires Sound(t)
    ensures Size(t) % Align(t) == 0
  {
    match t
    case Scalar(_, _) =>
    case CArray(count, element) =>
      SizeIsMultiple(element);
      var a := Align(element);
      var q := Size(element) / a;
      assert Size(element) == q * a;
      assert count * Size(element) == (count * q) * a;
      MultipleIsAligned(count * q, a);
    case CStruct(members) => AlignUpIsLeast(End(t, |members|), Align(t), 0);
  }
}
