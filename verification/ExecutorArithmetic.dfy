/** The executor's operators are the mathematical ones, reduced to the operand width. */
module ExecutorArithmetic {
  import opened Common
  import opened Bits
  import opened Jir
  import opened IntegerSemantics
  import opened Execution

  /** The integer an encoded operand stands for. */
  function Meaning(word: nat, signed: bool, bits: Width): int {
    if signed then SignedInteger(word, bits) else word
  }

  predicate IsArithmetic(op: BinaryOp) {
    op.Add? || op.Subtract? || op.Multiply? || op.Divide? || op.Remainder?
  }

  /** The exact result on unbounded integers, rounding quotients toward zero. */
  function Exact(op: BinaryOp, a: int, b: int): int
    requires IsArithmetic(op) && (op.Divide? || op.Remainder? ==> b != 0)
  {
    match op
    case Add => a + b
    case Subtract => a - b
    case Multiply => a * b
    case Divide => TruncatedQuotient(a, b)
    case Remainder => TruncatedRemainder(a, b)
  }

  /** Truncated division: the quotient and remainder recombine, and the remainder is smaller than
      the divisor and takes the sign of the dividend. */
  lemma TruncatedDivisionLaw(a: int, b: int)
    requires b != 0
    ensures a == b * TruncatedQuotient(a, b) + TruncatedRemainder(a, b)
    ensures -Magnitude(b) < TruncatedRemainder(a, b) < Magnitude(b)
    ensures a >= 0 ==> TruncatedRemainder(a, b) >= 0
    ensures a <= 0 ==> TruncatedRemainder(a, b) <= 0
  {
    var n, d := Magnitude(a), Magnitude(b);
    var q := n / d;
    assert n == d * q + n % d;
    assert b * TruncatedQuotient(a, b) == if a >= 0 then d * q else -(d * q) by {
      assert d * q == (-d) * (-q);
      assert d * (-q) == (-d) * q == -(d * q);
    }
  }

  function Magnitude(x: int): int { if x < 0 then -x else x }

  lemma ShiftByMultiple(x: int, k: int, m: nat)
    requires m >= 1
    ensures (x + k * m) % m == x % m
  {
    var q, r := x / m, x % m;
    assert (q + k) * m == q * m + k * m;
    RemainderUnique(x + k * m, m, q + k, r);
  }

  lemma MeaningIsCongruent(word: nat, signed: bool, bits: Width) returns (k: int)
    requires word < Pow2(bits)
    ensures Meaning(word, signed, bits) == word + k * Pow2(bits)
  {
    SignedIsTwosComplement(word, bits);
    k := if signed && word >= Pow2(bits - 1) then -1 else 0;
  }

  lemma RingOperationCongruent(op: BinaryOp, a: int, b: int, i: int, j: int, m: nat)
    requires m >= 1 && (op.Add? || op.Subtract? || op.Multiply?)
    ensures Exact(op, a + i * m, b + j * m) % m == Exact(op, a, b) % m
  {
    match op
    case Add =>
      assert (a + i * m) + (b + j * m) == (a + b) + (i + j) * m;
      ShiftByMultiple(a + b, i + j, m);
    case Subtract =>
      assert (a + i * m) - (b + j * m) == (a - b) + (i - j) * m;
      ShiftByMultiple(a - b, i - j, m);
    case Multiply =>
      ProductExpands(a, b, i, j, m);
      ShiftByMultiple(a * b, a * j + i * b + i * j * m, m);
  }

  lemma ProductExpands(a: int, b: int, i: int, j: int, m: int)
    ensures (a + i * m) * (b + j * m) == a * b + (a * j + i * b + i * j * m) * m
  {
    var p, q := i * m, j * m;
    assert (a + p) * (b + q) == a * b + a * q + p * b + p * q;
    assert a * q == (a * j) * m && p * b == (i * b) * m;
    assert p * q == (i * j * m) * m by { assert p * q == i * (m * (j * m)); }
  }

  lemma MeaningIsZeroOnlyAtZero(word: nat, signed: bool, bits: Width)
    requires word < Pow2(bits)
    ensures Meaning(word, signed, bits) == 0 <==> word == 0
  {
    SignedIsTwosComplement(word, bits);
  }

  lemma QuotientAtMost(l: nat, r: nat)
    requires r > 0
    ensures l / r <= l && l % r <= l
  {
    if l / r > 0 { MulAtLeast(r, l / r); }
    assert l == r * (l / r) + l % r;
  }

  lemma RawRingWord(op: BinaryOp, signed: bool, bits: Width, l: nat, r: nat)
    requires op.Add? || op.Subtract? || op.Multiply?
    ensures RawBinary(op, signed, bits, l, r) == Ok(AsWord(Exact(op, l, r)))
  {
  }

  lemma MeaningsCongruent(op: BinaryOp, signed: bool, bits: Width, l: nat, r: nat)
    requires op.Add? || op.Subtract? || op.Multiply?
    requires l < Pow2(bits) && r < Pow2(bits)
    ensures Exact(op, Meaning(l, signed, bits), Meaning(r, signed, bits)) % Pow2(bits)
         == Exact(op, l, r) % Pow2(bits)
  {
    var i := MeaningIsCongruent(l, signed, bits);
    var j := MeaningIsCongruent(r, signed, bits);
    RingOperationCongruent(op, l, r, i, j, Pow2(bits));
  }

  lemma RawRingOperation(op: BinaryOp, signed: bool, bits: Width, l: nat, r: nat)
    requires op.Add? || op.Subtract? || op.Multiply?
    requires l < Pow2(bits) && r < Pow2(bits)
    ensures RawBinary(op, signed, bits, l, r).Ok?
    ensures NormalizeInteger(RawBinary(op, signed, bits, l, r).value, bits)
         == Exact(op, Meaning(l, signed, bits), Meaning(r, signed, bits)) % Pow2(bits)
  {
    RawRingWord(op, signed, bits, l, r);
    MeaningsCongruent(op, signed, bits, l, r);
    NormalizeIsRemainder(Exact(op, l, r), bits);
  }

  /** The 128-bit minimum over -1, as words: only the top bit, and all bits. */
  predicate DivisionPanics(op: BinaryOp, signed: bool, bits: Width, l: nat, r: nat) {
    && (op.Divide? || op.Remainder?) && signed && bits == 128
    && l == Pow2(bits - 1) && r == Pow2(bits) - 1
  }

  lemma OverflowIsMinimum(bits: Width, l: nat, r: nat)
    requires l < Pow2(bits) && 0 < r < Pow2(bits)
    ensures QuotientOverflows(SignedInteger(l, bits), SignedInteger(r, bits))
       <==> bits == 128 && l == Pow2(bits - 1) && r == Pow2(bits) - 1
  {
    SignedIsTwosComplement(l, bits);
    SignedIsTwosComplement(r, bits);
    MaskFits(bits);
    MaskFits(bits - 1);
    var width := WordWidth();
  }

  lemma RawSignedDivision(op: BinaryOp, bits: Width, l: nat, r: nat)
    requires op.Divide? || op.Remainder?
    requires l < Pow2(bits) && 0 < r < Pow2(bits)
    ensures SignedInteger(r, bits) != 0
    ensures RawBinary(op, true, bits, l, r)
         == if DivisionPanics(op, true, bits, l, r) then Err(ArithmeticPanic)
            else Ok(AsWord(Exact(op, SignedInteger(l, bits), SignedInteger(r, bits))))
  {
    MeaningIsZeroOnlyAtZero(r, true, bits);
    OverflowIsMinimum(bits, l, r);
  }

  lemma RawUnsignedDivision(op: BinaryOp, bits: Width, l: nat, r: nat)
    requires op.Divide? || op.Remainder?
    requires l < Pow2(bits) && 0 < r < Pow2(bits)
    ensures Exact(op, l, r) >= 0
    ensures RawBinary(op, false, bits, l, r) == Ok(Exact(op, l, r))
    ensures NormalizeInteger(Exact(op, l, r), bits) == Exact(op, l, r) % Pow2(bits)
  {
    ExactUnsigned(op, l, r);
    MaskFits(bits);
    NormalizeWord(Exact(op, l, r), bits);
  }

  lemma ExactUnsigned(op: BinaryOp, l: nat, r: nat)
    requires (op.Divide? || op.Remainder?) && r > 0
    ensures Exact(op, l, r) == if op.Divide? then l / r else l % r
    ensures 0 <= Exact(op, l, r) <= l
  {
    QuotientAtMost(l, r);
  }

  lemma RawDivision(op: BinaryOp, signed: bool, bits: Width, l: nat, r: nat)
    requires op.Divide? || op.Remainder?
    requires l < Pow2(bits) && 0 < r < Pow2(bits)
    ensures Meaning(r, signed, bits) != 0
    ensures DivisionPanics(op, signed, bits, l, r) ==> RawBinary(op, signed, bits, l, r) == Err(ArithmeticPanic)
    ensures !DivisionPanics(op, signed, bits, l, r) ==>
              && RawBinary(op, signed, bits, l, r).Ok?
              && NormalizeInteger(RawBinary(op, signed, bits, l, r).value, bits)
              == Exact(op, Meaning(l, signed, bits), Meaning(r, signed, bits)) % Pow2(bits)
  {
    if signed {
      RawSignedDivision(op, bits, l, r);
      NormalizeIsRemainder(Exact(op, SignedInteger(l, bits), SignedInteger(r, bits)), bits);
    } else {
      RawUnsignedDivision(op, bits, l, r);
    }
  }

  /** Every arithmetic operator, at every width, on every operand: the word produced is the exact
      mathematical result modulo 2^bits. It fails only on a zero divisor, and panics only on the
      128-bit minimum divided by minus one. */
  lemma BinaryIsExact(m: Module, op: BinaryOp, l: nat, r: nat, ty: TypeId, signed: bool, bits: Width)
    requires IsArithmetic(op) && IntegerShape(m, ty) == Some((signed, bits))
    requires l < Pow2(bits) && r < Pow2(bits)
    ensures var result := EvaluateBinary(m, op, IntegerValue(l), IntegerValue(r), ty);
            if op.Divide? && r == 0 then result == Err(DivisionByZero)
            else if op.Remainder? && r == 0 then result == Err(RemainderByZero)
            else
              && (op.Divide? || op.Remainder? ==> Meaning(r, signed, bits) != 0)
              && result == if DivisionPanics(op, signed, bits, l, r) then Err(ArithmeticPanic)
                           else Ok(IntegerValue(
                             Exact(op, Meaning(l, signed, bits), Meaning(r, signed, bits)) % Pow2(bits)))
  {
    if op.Divide? || op.Remainder? {
      if r > 0 { RawDivision(op, signed, bits, l, r); }
    } else {
      RawRingOperation(op, signed, bits, l, r);
    }
  }

  /** In a signed type the result, read back, is the exact result wrapped to the signed range. */
  lemma SignedResultWraps(m: Module, op: BinaryOp, l: nat, r: nat, ty: TypeId, bits: Width)
    requires IsArithmetic(op) && IntegerShape(m, ty) == Some((true, bits))
    requires l < Pow2(bits) && r < Pow2(bits)
    ensures var result := EvaluateBinary(m, op, IntegerValue(l), IntegerValue(r), ty);
            result.Ok? ==>
              && (op.Divide? || op.Remainder? ==> SignedInteger(r, bits) != 0)
              && result.value.IntegerValue? && result.value.word < Pow2(bits)
              && SignedInteger(result.value.word, bits)
              == WrapSigned(Exact(op, SignedInteger(l, bits), SignedInteger(r, bits)), bits)
  {
    BinaryIsExact(m, op, l, r, ty, true, bits);
    if EvaluateBinary(m, op, IntegerValue(l), IntegerValue(r), ty).Ok? {
      var x := Exact(op, SignedInteger(l, bits), SignedInteger(r, bits));
      SignedIsTwosComplement(x % Pow2(bits), bits);
    }
  }

  /** A word and its residue below 2^bits differ by a multiple of 2^bits. */
  lemma WordIsMultiple(x: int, bits: Width)
    ensures (x + WORD) % Pow2(bits) == x % Pow2(bits)
  {
    var w := WordWidth();
    Pow2Add(w - bits, bits);
    ShiftByMultiple(x, Pow2(w - bits), Pow2(bits));
  }

  /** Negation is subtraction from zero modulo 2^bits, and bit-not is the complement to 2^bits - 1. */
  lemma UnaryIsExact(m: Module, word: nat, ty: TypeId, signed: bool, bits: Width)
    requires IntegerShape(m, ty) == Some((signed, bits)) && word < Pow2(bits)
    ensures EvaluateUnary(m, Negate, IntegerValue(word), ty) == Ok(IntegerValue((0 - word) % Pow2(bits)))
    ensures EvaluateUnary(m, BitNot, IntegerValue(word), ty) == Ok(IntegerValue(Pow2(bits) - 1 - word))
  {
    InvertedIsComplement(word, bits);
    NormalizeIsRemainder(Inverted(word) + 1, bits);
    WordIsMultiple(0 - word, bits);
  }

  lemma InvertedIsComplement(word: nat, bits: Width)
    requires word < Pow2(bits)
    ensures Inverted(word) == WORD - 1 - word
    ensures NormalizeInteger(Inverted(word), bits) == Pow2(bits) - 1 - word
  {
    MaskFits(bits);
    RemainderUnique(-1 - word, WORD, -1, WORD - 1 - word);
    NormalizeIsRemainder(-1 - word, bits);
    RemainderUnique(-1 - word, Pow2(bits), -1, Pow2(bits) - 1 - word);
  }

  predicate Connective(op: BinaryOp, a: bool, b: bool)
    requires op.BitAnd? || op.BitOr? || op.BitXor?
  {
    if op.BitAnd? then a && b else if op.BitOr? then a || b else a != b
  }

  /** A bitwise operator stays within the width and applies its connective at every bit. */
  lemma BitwiseIsExact(m: Module, op: BinaryOp, l: nat, r: nat, ty: TypeId, signed: bool, bits: Width, i: nat)
    requires op.BitAnd? || op.BitOr? || op.BitXor?
    requires IntegerShape(m, ty) == Some((signed, bits)) && l < Pow2(bits) && r < Pow2(bits)
    ensures var result := EvaluateBinary(m, op, IntegerValue(l), IntegerValue(r), ty);
            && result.Ok? && result.value.IntegerValue? && result.value.word < Pow2(bits)
            && Bit(result.value.word, i) == Connective(op, Bit(l, i), Bit(r, i))
  {
    OperationsBounded(l, r, bits);
    AndBitwise(l, r, i);
    OrBitwise(l, r, i);
    XorBitwise(l, r, i);
    InRangeIsNormal(RawBinary(op, signed, bits, l, r).value, bits);
  }

  lemma InRangeIsNormal(word: nat, bits: Width)
    requires word < Pow2(bits)
    ensures NormalizeInteger(word, bits) == word
  {
    MaskFits(bits);
    NormalizeWord(word, bits);
    RemainderUnique(word, Pow2(bits), 0, word);
  }

  function Sign(x: int): int { if x < 0 then -1 else if x == 0 then 0 else 1 }

  /** The signs a difference may have where a comparison holds. */
  function Orders(comparison: ComparePredicate): set<int> {
    match comparison
    case Equal => {0}
    case NotEqual => {-1, 1}
    case Less => {-1}
    case LessEqual => {-1, 0}
    case Greater => {1}
    case GreaterEqual => {0, 1}
  }

  /** Comparisons decide the mathematical order of what the operands stand for. */
  lemma CompareIsExact(m: Module, comparison: ComparePredicate, l: nat, r: nat, ty: TypeId, signed: bool, bits: Width)
    requires IntegerShape(m, ty) == Some((signed, bits)) && l < Pow2(bits) && r < Pow2(bits)
    ensures EvaluateCompare(m, comparison, IntegerValue(l), IntegerValue(r), ty)
         == Ok(Sign(Meaning(l, signed, bits) - Meaning(r, signed, bits)) in Orders(comparison))
  {
    SignedIsInjective(l, r, bits);
  }

  /** A constant is stored as its value modulo 2^bits, and a switch takes a case exactly when the
      discriminant is the case value modulo 2^bits. */
  lemma ConstantIsExact(m: Module, value: int, ty: TypeId, signed: bool, bits: Width)
    requires IntegerShape(m, ty) == Some((signed, bits))
    ensures EvaluateConstant(m, IntegerConstant(value), ty) == Ok(IntegerValue(value % Pow2(bits)))
  {
    NormalizeIsRemainder(value, bits);
  }

  lemma {:induction false} SwitchTakesFirstMatch(cases: seq<SwitchCase>, word: nat, bits: Width)
    ensures match FindCase(cases, word, bits)
            case Some(chosen) =>
              exists i :: 0 <= i < |cases| && cases[i] == chosen && chosen.value % Pow2(bits) == word
                          && forall j :: 0 <= j < i ==> cases[j].value % Pow2(bits) != word
            case None => forall i :: 0 <= i < |cases| ==> cases[i].value % Pow2(bits) != word
  {
    if cases != [] {
      NormalizeIsRemainder(cases[0].value, bits);
      var tail := cases[1..];
      SwitchTakesFirstMatch(tail, word, bits);
      var found := FindCase(tail, word, bits);
      if cases[0].value % Pow2(bits) != word {
        if found.Some? {
          var i :| 0 <= i < |tail| && tail[i] == found.value && found.value.value % Pow2(bits) == word
                   && forall j :: 0 <= j < i ==> tail[j].value % Pow2(bits) != word;
          assert cases[i + 1] == found.value;
        } else {
          forall i | 0 <= i < |cases| ensures cases[i].value % Pow2(bits) != word {
            if i > 0 { assert tail[i - 1] == cases[i]; }
          }
        }
      }
    }
  }
}
