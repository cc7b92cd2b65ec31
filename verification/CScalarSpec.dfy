/** Sizes and alignments of the scalar types a C field can have, read off their names: a width in the
    name counts bits, a lane count counts `Float32` lanes, and addresses count machine words. */
module CScalarSpec {

  const DIGITS: string := "0123456789"

  function Decimal(n: nat): string {
    if n < 10 then [DIGITS[n]] else Decimal(n / 10) + [DIGITS[n % 10]]
  }

  const BYTE: nat := 8

  predicate IntegerNamed(name: string, bits: nat) {
    bits in {8, 16, 32, 64} && (name == "Int" + Decimal(bits) || name == "UInt" + Decimal(bits))
  }

  predicate FloatNamed(name: string, bits: nat) {
    bits in {32, 64} && (name == "Float" + Decimal(bits) || name == "F" + Decimal(bits))
  }

  predicate LanesNamed(name: string, lanes: nat) {
    lanes in {2, 3, 4, 8} && name == "Float" + Decimal(lanes)
  }

  /** Types made of addresses and sizes; a pointer and a slice name one element type. */
  predicate WordsNamed(name: string, arguments: nat, words: nat) {
    match words
    case 1 => name == "IntSize" || name == "UIntSize" || (name == "Pointer" && arguments == 1)
    case 2 => name == "Slice" && arguments == 1
    case 3 => name == "String"
    case _ => false
  }

  ghost predicate ScalarMeans(name: string, arguments: nat, word: nat, size: nat, align: nat) {
    || (exists bits: nat :: (IntegerNamed(name, bits) || FloatNamed(name, bits)) && size * BYTE == bits && align == size)
    || (exists lanes: nat :: LanesNamed(name, lanes) && size == lanes * 4 && align == 4)
    || (name == "Status" && size == 4 && align == 4)
    || (exists words: nat :: WordsNamed(name, arguments, words) && size == words * word && align == word)
  }

  /** The path is the bare name of a scalar of this size and alignment. */
  ghost predicate ScalarPath(segments: seq<string>, arguments: nat, word: nat, size: nat, align: nat) {
    |segments| == 1 && ScalarMeans(segments[0], arguments, word, size, align)
  }

  ghost predicate NamesScalar(segments: seq<string>, arguments: nat, word: nat) {
    exists size: nat, align: nat :: ScalarPath(segments, arguments, word, size, align)
  }

  lemma Decimals()
    ensures Decimal(2) == "2" && Decimal(3) == "3" && Decimal(4) == "4" && Decimal(8) == "8"
    ensures Decimal(16) == "16" && Decimal(32) == "32" && Decimal(64) == "64"
  {
  }

  /** The names in full. */
  lemma Spellings()
    ensures "Int" + Decimal(8) == "Int8" && "UInt" + Decimal(8) == "UInt8"
    ensures "Int" + Decimal(16) == "Int16" && "UInt" + Decimal(16) == "UInt16"
    ensures "Int" + Decimal(32) == "Int32" && "UInt" + Decimal(32) == "UInt32"
    ensures "Int" + Decimal(64) == "Int64" && "UInt" + Decimal(64) == "UInt64"
    ensures "Float" + Decimal(32) == "Float32" && "F" + Decimal(32) == "F32"
    ensures "Float" + Decimal(64) == "Float64" && "F" + Decimal(64) == "F64"
    ensures "Float" + Decimal(2) == "Float2" && "Float" + Decimal(3) == "Float3"
    ensures "Float" + Decimal(4) == "Float4" && "Float" + Decimal(8) == "Float8"
  {
    Decimals();
  }
}
