/** FNV-1a over byte streams, with length-delimited fields. */
module StableHasher {
  import opened Common
  import opened Bits

  const FNV_OFFSET: nat := 0xcbf2_9ce4_8422_2325
  const FNV_PRIME: nat := 0x0000_0100_0000_01b3

  type Bytes = seq<Byte>

  const LENGTH_BYTES: nat := 8
  const U64_RANGE: nat := 0x1_0000_0000_0000_0000

  /** A 64-bit hash state. */
  type State = n: nat | n < U64_RANGE

  /** One byte: exclusive or, then a wrapping multiplication. */
  function Mix(state: State, b: Byte): State { Xor(state, b) * FNV_PRIME % U64_RANGE }

  /** The state after hashing a byte string from a given state. */
  function Hash(state: State, bytes: Bytes): State
    decreases bytes
  {
    if bytes == [] then state else Hash(Mix(state, bytes[0]), bytes[1..])
  }

  // ----- the streams that fields produce -----

  /** `count` little-endian bytes of `n`. */
  function LittleEndian(n: nat, count: nat): Bytes {
    if count == 0 then [] else [n % 256] + LittleEndian(n / 256, count - 1)
  }

  function FieldStream(bytes: Bytes): Bytes
    requires |bytes| < U64_RANGE
  {
    LittleEndian(|bytes|, LENGTH_BYTES) + bytes
  }

  ghost predicate Encodable(fields: seq<Bytes>) {
    forall i :: 0 <= i < |fields| ==> |fields[i]| < U64_RANGE
  }

  ghost function Stream(fields: seq<Bytes>): Bytes
    requires Encodable(fields)
  {
    if fields == [] then [] else FieldStream(fields[0]) + Stream(fields[1..])
  }

  // ----- the hasher -----

  class Hasher {
    var state: State

    constructor ()
      ensures state == Hash(FNV_OFFSET, [])
    {
      state := FNV_OFFSET;
    }

    method Update(bytes: Bytes)
      modifies this
      ensures state == Hash(old(state), bytes)
    {
      for index := 0 to |bytes|
        invariant Hash(old(state), bytes) == Hash(state, bytes[index..])
      {
        assert bytes[index..][1..] == bytes[index + 1..];
        var mixed := Xor(state, bytes[index]);
        state := mixed * FNV_PRIME % U64_RANGE;
      }
    }

    method WriteU64(value: nat)
      requires value < U64_RANGE
      modifies this
      ensures state == Hash(old(state), LittleEndian(value, LENGTH_BYTES))
    {
      Update(LittleEndian(value, LENGTH_BYTES));
    }

    method WriteBytes(bytes: Bytes)
      requires |bytes| < U64_RANGE
      modifies this
      ensures state == Hash(old(state), FieldStream(bytes))
    {
      WriteU64(|bytes|);
      Update(bytes);
      HashConcat(old(state), LittleEndian(|bytes|, LENGTH_BYTES), bytes);
    }

    method WriteBool(value: bool)
      modifies this
      ensures state == Hash(old(state), [if value then 1 else 0])
    {
      Update([if value then 1 else 0]);
    }
  }

  /** A digest of one byte field in a named domain: the hash of the two-field stream. */
  method FingerprintBytes(domain: Bytes, bytes: Bytes) returns (digest: State)
    requires |domain| < U64_RANGE && |bytes| < U64_RANGE
    ensures digest == Hash(FNV_OFFSET, Stream([domain, bytes]))
  {
    var hasher := new Hasher();
    hasher.WriteBytes(domain);
    hasher.WriteBytes(bytes);
    digest := hasher.state;
    HashConcat(FNV_OFFSET, FieldStream(domain), FieldStream(bytes));
    assert Stream([bytes]) == FieldStream(bytes);
    assert [domain, bytes][1..] == [bytes];
  }

  // ----- chunking -----

  /** Feeding a string in two chunks is feeding it at once. */
  lemma {:induction false} HashConcat(state: State, a: Bytes, b: Bytes)
    ensures Hash(state, a + b) == Hash(Hash(state, a), b)
    decreases a
  {
    if a == [] {
      assert a + b == b;
    } else {
      assert (a + b)[1..] == a[1..] + b;
      HashConcat(Mix(state, a[0]), a[1..], b);
    }
  }

  function Join(chunks: seq<Bytes>): Bytes {
    if chunks == [] then [] else chunks[0] + Join(chunks[1..])
  }

  function HashChunks(state: State, chunks: seq<Bytes>): State
    decreases chunks
  {
    if chunks == [] then state else HashChunks(Hash(state, chunks[0]), chunks[1..])
  }

  /** The result depends only on the bytes, never on how they were split into updates. */
  lemma {:induction false} ChunkingIsInvisible(state: State, chunks: seq<Bytes>)
    ensures HashChunks(state, chunks) == Hash(state, Join(chunks))
    decreases chunks
  {
    if chunks != [] {
      HashConcat(state, chunks[0], Join(chunks[1..]));
      ChunkingIsInvisible(Hash(state, chunks[0]), chunks[1..]);
    }
  }

  // ----- the step is a bijection -----

  /** The odd prime has a multiplicative inverse modulo 2^64. */
  const INVERSE_PRIME: nat := 0xce96_5057_aff6_957b
  const INVERSE_MULTIPLE: nat := 0xce9650590f

  lemma ProductInverts(x: State)
    ensures x * FNV_PRIME % U64_RANGE * INVERSE_PRIME % U64_RANGE == x
  {
    var q, r := x * FNV_PRIME / U64_RANGE, x * FNV_PRIME % U64_RANGE;
    assert FNV_PRIME * INVERSE_PRIME == 1 + INVERSE_MULTIPLE * U64_RANGE;
    assert r * INVERSE_PRIME == (x * INVERSE_MULTIPLE - q * INVERSE_PRIME) * U64_RANGE + x;
    RemainderUnique(r * INVERSE_PRIME, U64_RANGE, x * INVERSE_MULTIPLE - q * INVERSE_PRIME, x);
  }

  lemma XorStaysInRange(state: State, b: Byte)
    ensures Xor(state, b) < U64_RANGE
  {
    assert Pow2(8) == 0x100;
    var w := Doubled(8, 0x100);
    w := Doubled(w, 0x1_0000);
    w := Doubled(w, 0x1_0000_0000);
    OperationsBounded(state, b, w);
  }

  function Unmix(state: State, b: Byte): State {
    XorStaysInRange(state * INVERSE_PRIME % U64_RANGE, b);
    Xor(state * INVERSE_PRIME % U64_RANGE, b)
  }

  /** Each step can be undone, so no two states lead to the same state under the same byte. */
  lemma UnmixInvertsMix(state: State, b: Byte)
    ensures Unmix(Mix(state, b), b) == state
  {
    XorStaysInRange(state, b);
    ProductInverts(Xor(state, b));
    XorTwice(state, b);
  }

  lemma XorCommutes(a: nat, b: nat)
    ensures Xor(a, b) == Xor(b, a)
  {
  }

  lemma MixSeparatesBytes(state: State, a: Byte, b: Byte)
    requires a != b
    ensures Mix(state, a) != Mix(state, b)
  {
    XorStaysInRange(state, a);
    XorStaysInRange(state, b);
    ProductInverts(Xor(state, a));
    ProductInverts(Xor(state, b));
    XorCommutes(state, a);
    XorCommutes(state, b);
    XorTwice(a, state);
    XorTwice(b, state);
  }

  lemma {:induction false} HashIsInjectiveInState(s: State, t: State, bytes: Bytes)
    requires s != t
    ensures Hash(s, bytes) != Hash(t, bytes)
    decreases bytes
  {
    if bytes != [] {
      UnmixInvertsMix(s, bytes[0]);
      UnmixInvertsMix(t, bytes[0]);
      HashIsInjectiveInState(Mix(s, bytes[0]), Mix(t, bytes[0]), bytes[1..]);
    }
  }

  /** Inputs of equal length that differ in exactly one byte never collide. */
  lemma OneByteNeverCollides(state: State, a: Bytes, b: Bytes, i: nat)
    requires |a| == |b| && i < |a| && a[i] != b[i]
    requires forall k :: 0 <= k < |a| && k != i ==> a[k] == b[k]
    ensures Hash(state, a) != Hash(state, b)
  {
    var prefix, suffix := a[..i], a[i + 1..];
    assert a == prefix + ([a[i]] + suffix) && b == prefix + ([b[i]] + suffix);
    HashConcat(state, prefix, [a[i]] + suffix);
    HashConcat(state, prefix, [b[i]] + suffix);
    var s := Hash(state, prefix);
    assert ([a[i]] + suffix)[1..] == suffix && ([b[i]] + suffix)[1..] == suffix;
    MixSeparatesBytes(s, a[i], b[i]);
    HashIsInjectiveInState(Mix(s, a[i]), Mix(s, b[i]), suffix);
  }

  // ----- streams decode uniquely -----

  function ReadLittleEndian(bytes: Bytes): nat {
    if bytes == [] then 0 else bytes[0] + 256 * ReadLittleEndian(bytes[1..])
  }

  function Power256(k: nat): nat { if k == 0 then 1 else 256 * Power256(k - 1) }

  lemma {:induction false} LittleEndianRoundTrip(n: nat, count: nat)
    requires n < Power256(count)
    ensures |LittleEndian(n, count)| == count
    ensures ReadLittleEndian(LittleEndian(n, count)) == n
  {
    if count > 0 {
      LittleEndianRoundTrip(n / 256, count - 1);
      var bytes := LittleEndian(n, count);
      assert bytes[1..] == LittleEndian(n / 256, count - 1);
    }
  }

  /** Split a stream back into fields. */
  function ReadFields(stream: Bytes): Option<seq<Bytes>>
    decreases |stream|
  {
    if stream == [] then Some([])
    else if |stream| < LENGTH_BYTES then None
    else
      var length := ReadLittleEndian(stream[..LENGTH_BYTES]);
      if LENGTH_BYTES + length > |stream| then None
      else
        var rest := ReadFields(stream[LENGTH_BYTES + length..]);
        if rest.None? then None else Some([stream[LENGTH_BYTES..LENGTH_BYTES + length]] + rest.value)
  }

  lemma LengthFits(n: nat)
    requires n < U64_RANGE
    ensures |LittleEndian(n, LENGTH_BYTES)| == LENGTH_BYTES && ReadLittleEndian(LittleEndian(n, LENGTH_BYTES)) == n
  {
    assert Power256(8) == U64_RANGE;
    LittleEndianRoundTrip(n, LENGTH_BYTES);
  }

  lemma FieldReadsBack(bytes: Bytes, rest: Bytes)
    requires |bytes| < U64_RANGE
    ensures var s := FieldStream(bytes) + rest;
            && |s| == LENGTH_BYTES + |bytes| + |rest|
            && ReadLittleEndian(s[..LENGTH_BYTES]) == |bytes|
            && s[LENGTH_BYTES..LENGTH_BYTES + |bytes|] == bytes
            && s[LENGTH_BYTES + |bytes|..] == rest
  {
    LengthFits(|bytes|);
    SlicesReadBack(LittleEndian(|bytes|, LENGTH_BYTES), bytes, rest);
  }

  lemma SlicesReadBack(prefix: Bytes, bytes: Bytes, rest: Bytes)
    ensures var s, n := prefix + bytes + rest, |prefix|;
            && |s| == n + |bytes| + |rest|
            && s[..n] == prefix && s[n..n + |bytes|] == bytes && s[n + |bytes|..] == rest
  {
  }

  /** The stream of any list of fields decodes back to exactly that list. */
  lemma {:induction false} StreamRoundTrip(fields: seq<Bytes>)
    requires Encodable(fields)
    ensures ReadFields(Stream(fields)) == Some(fields)
    decreases fields
  {
    if fields != [] {
      StreamRoundTrip(fields[1..]);
      FieldReadsBack(fields[0], Stream(fields[1..]));
      assert fields == [fields[0]] + fields[1..];
    }
  }

  /** Different field lists give different streams. */
  lemma StreamIsInjective(a: seq<Bytes>, b: seq<Bytes>)
    requires Encodable(a) && Encodable(b) && Stream(a) == Stream(b)
    ensures a == b
  {
    StreamRoundTrip(a);
    StreamRoundTrip(b);
  }
}
