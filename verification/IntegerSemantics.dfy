/** Fixed-width integer arithmetic as the executor performs it: on masked 128-bit words.

    The operations follow the machine steps (wrap to 128 bits, mask, sign-extend); the lemmas show
    that they are exact arithmetic modulo 2^bits at every width from 1 to 128. */
module IntegerSemantics {
  import opened Common
  import opened Bits
  import opened Jir

  const WORD: nat := 0x1_0000_0000_0000_0000_0000_0000_0000_0000
  const HALF_WORD: nat := 0x8000_0000_0000_0000_0000_0000_0000_0000

  /** The literals are the powers of two at width 128 (returned, so that no proof unfolds them). */
  lemma WordWidth() returns (w: nat)
    ensures w == 128 && Pow2(w) == WORD && Pow2(w - 1) == HALF_WORD
  {
    var k := 8;
    assert Pow2(8) == 256;
    k := Doubled(k, 0x100);
    k := Doubled(k, 0x1_0000);
    k := Doubled(k, 0x1_0000_0000);
    w := Doubled(k, 0x1_0000_0000_0000_0000);
  }

  /** `as u128`: keep the low 128 bits. */
  function AsWord(x: int): nat { x % WORD }

  /** `as i128`: read a 128-bit word as two's complement. */
  function AsSigned(word: nat): int {
    if word < HALF_WORD then word else word - WORD
  }

  function Complement(word: nat): nat
    requires word < WORD
  {
    WORD - 1 - word
  }

  function IntegerMask(bits: nat): nat {
    if bits == 128 then WORD - 1 else Pow2(bits) - 1
  }

  lemma MaskFits(bits: nat)
    requires bits <= 128
    ensures Pow2(bits) <= WORD && IntegerMask(bits) == Pow2(bits) - 1
    ensures bits < 128 ==> Pow2(bits) <= HALF_WORD
  {
    var w := WordWidth();
    if bits < w { Pow2Monotone(bits, w - 1); }
  }

  function NormalizeInteger(word: nat, bits: nat): nat { And(word, IntegerMask(bits)) }

  function SignedInteger(word: nat, bits: Width): int
  {
    if bits == 128 then AsSigned(word)
    else
      var mask := IntegerMask(bits);
      var sign := Pow2(bits - 1);
      if And(word, sign) == 0 then AsSigned(word)
      else (MaskFits(bits); AsSigned(Or(word, Complement(mask))))
  }

  /** Division and remainder of signed machine integers round toward zero. */
  function TruncatedQuotient(a: int, b: int): int
    requires b != 0
  {
    if a >= 0 then (if b > 0 then a / b else -(a / -b))
    else (if b > 0 then -(-a / b) else -a / -b)
  }

  function TruncatedRemainder(a: int, b: int): int
    requires b != 0
  {
    a - b * TruncatedQuotient(a, b)
  }

  /** The representative of `x` modulo 2^bits in the two's-complement range. */
  function WrapSigned(x: int, bits: nat): int
    requires bits >= 1
  {
    var r := x % Pow2(bits);
    if r < Pow2(bits - 1) then r else r - Pow2(bits)
  }

  ghost predicate InSignedRange(x: int, bits: nat)
    requires bits >= 1
  {
    -(Pow2(bits - 1) as int) <= x < Pow2(bits - 1)
  }

  // ----- masking and sign extension -----

  /** Masking a wrapped word is reduction modulo 2^bits, for every integer and every width. */
  lemma NormalizeIsRemainder(x: int, bits: Width)
    ensures NormalizeInteger(AsWord(x), bits) == x % Pow2(bits)
  {
    MaskFits(bits);
    MaskIsRemainder(AsWord(x), bits);
    var w := WordWidth();
    RemainderTower(x, w, bits);
  }

  lemma NormalizeWord(word: nat, bits: Width)
    requires word < WORD
    ensures NormalizeInteger(word, bits) == word % Pow2(bits)
  {
    MaskFits(bits);
    MaskIsRemainder(word, bits);
  }

  lemma SignExtended(v: nat, bits: nat)
    requires 1 <= bits < 128 && Pow2(bits - 1) <= v < Pow2(bits)
    ensures SignedInteger(v, bits) == v - Pow2(bits)
  {
    MaskFits(bits);
    TopBit(v, bits - 1);
    var w := WordWidth();
    Pow2Add(w - bits, bits);
    var high := Pow2(w - bits) - 1;
    assert high * Pow2(bits) == WORD - Pow2(bits) by { assert (high + 1) * Pow2(bits) == WORD; }
    OrDisjoint(v, high, bits);
  }

  /** Sign extension computes the two's-complement reading. */
  lemma SignedIsTwosComplement(v: nat, bits: Width)
    requires v < Pow2(bits)
    ensures SignedInteger(v, bits) == if v < Pow2(bits - 1) then v else v - Pow2(bits)
  {
    MaskFits(bits);
    if bits == 128 {
      var w := WordWidth();
    } else if v < Pow2(bits - 1) {
      TopBit(v, bits - 1);
    } else {
      SignExtended(v, bits);
    }
  }

  lemma SignedStaysInRange(v: nat, bits: Width)
    requires v < Pow2(bits)
    ensures InSignedRange(SignedInteger(v, bits), bits)
    ensures SignedInteger(v, bits) % Pow2(bits) == v
  {
    SignedIsTwosComplement(v, bits);
    var s := SignedInteger(v, bits);
    RemainderUnique(s, Pow2(bits), if v < Pow2(bits - 1) then 0 else -1, v);
  }

  /** Reading back a normalized integer as signed yields its two's-complement representative;
      on the two's-complement range itself this inverts normalization. */
  lemma SignedInvertsNormalize(x: int, bits: Width)
    ensures SignedInteger(NormalizeInteger(AsWord(x), bits), bits) == WrapSigned(x, bits)
    ensures InSignedRange(x, bits) ==> SignedInteger(NormalizeInteger(AsWord(x), bits), bits) == x
  {
    NormalizeIsRemainder(x, bits);
    SignedIsTwosComplement(x % Pow2(bits), bits);
    if InSignedRange(x, bits) {
      var m := Pow2(bits);
      if x >= 0 { RemainderUnique(x, m, 0, x); } else { RemainderUnique(x, m, -1, x + m); }
    }
  }

  lemma NormalizeInvertsSigned(v: nat, bits: Width)
    requires v < Pow2(bits)
    ensures NormalizeInteger(AsWord(SignedInteger(v, bits)), bits) == v
  {
    SignedStaysInRange(v, bits);
    NormalizeIsRemainder(SignedInteger(v, bits), bits);
  }

  /** Signed order on the encodings is the order of the integers they encode, and is total. */
  lemma SignedIsInjective(v: nat, w: nat, bits: Width)
    requires v < Pow2(bits) && w < Pow2(bits)
    ensures SignedInteger(v, bits) == SignedInteger(w, bits) <==> v == w
  {
    SignedStaysInRange(v, bits);
    SignedStaysInRange(w, bits);
  }
}
