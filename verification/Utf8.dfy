/** Well-formed UTF-8 (section 4 of RFC 3629) and the longest well-formed prefix that fits. */
module Utf8 {
  import opened Common

  // ----- the encoding -----

  predicate IsScalar(c: nat) { c <= 0x10_FFFF && !(0xD800 <= c <= 0xDFFF) }

  function Encode(c: nat): seq<Byte>
    requires IsScalar(c)
  {
    if c < 0x80 then [c]
    else if c < 0x800 then [0xC0 + c / 0x40, 0x80 + c % 0x40]
    else if c < 0x1_0000 then [0xE0 + c / 0x1000, 0x80 + c / 0x40 % 0x40, 0x80 + c % 0x40]
    else [0xF0 + c / 0x4_0000, 0x80 + c / 0x1000 % 0x40, 0x80 + c / 0x40 % 0x40, 0x80 + c % 0x40]
  }

  predicate AllScalar(cs: seq<nat>) { forall i :: 0 <= i < |cs| ==> IsScalar(cs[i]) }

  function EncodeAll(cs: seq<nat>): seq<Byte>
    requires AllScalar(cs)
  {
    if cs == [] then [] else Encode(cs[0]) + EncodeAll(cs[1..])
  }

  /** A byte string is well formed when it encodes some sequence of scalar values. */
  ghost predicate WellFormed(s: seq<Byte>) {
    exists cs :: AllScalar(cs) && s == EncodeAll(cs)
  }

  // ----- the byte-level test -----

  predicate IsContinuation(b: Byte) { 0x80 <= b <= 0xBF }

  /** Width the lead byte announces; 0 for a byte that cannot lead. */
  function LeadWidth(lead: Byte): nat {
    if lead < 0x80 then 1
    else if 0xC2 <= lead <= 0xDF then 2
    else if 0xE0 <= lead <= 0xEF then 3
    else if 0xF0 <= lead <= 0xF4 then 4
    else 0
  }

  /** Overlong forms, surrogates and values above U+10FFFF show in the second byte. */
  predicate SecondAllowed(lead: Byte, second: Byte) {
    && IsContinuation(second)
    && !(lead == 0xE0 && second < 0xA0) && !(lead == 0xED && second > 0x9F)
    && !(lead == 0xF0 && second < 0x90) && !(lead == 0xF4 && second > 0x8F)
  }

  /** Width of the encoded scalar at the start of `s`, or 0 when there is none. */
  function ScalarWidth(s: seq<Byte>): (w: nat)
    ensures w <= |s|
  {
    if s == [] then 0
    else
      var w := LeadWidth(s[0]);
      if w == 0 || w > |s| then 0
      else if w > 1 && !SecondAllowed(s[0], s[1]) then 0
      else if w > 2 && !IsContinuation(s[2]) then 0
      else if w > 3 && !IsContinuation(s[3]) then 0
      else w
  }

  function Combine(high: nat, low: nat): nat { high * 0x40 + low }

  /** Bits of a lead byte below its width marker. */
  function LeadBits(lead: Byte): nat
    requires LeadWidth(lead) > 0
  {
    match LeadWidth(lead)
    case 1 => lead
    case 2 => lead - 0xC0
    case 3 => lead - 0xE0
    case _ => lead - 0xF0
  }

  function TailBits(b: Byte): nat
    requires IsContinuation(b)
  {
    b - 0x80
  }

  function Decode(s: seq<Byte>): nat
    requires ScalarWidth(s) > 0
  {
    var lead := LeadBits(s[0]);
    match ScalarWidth(s)
    case 1 => lead
    case 2 => Combine(lead, TailBits(s[1]))
    case 3 => Combine(Combine(lead, TailBits(s[1])), TailBits(s[2]))
    case _ => Combine(Combine(Combine(lead, TailBits(s[1])), TailBits(s[2])), TailBits(s[3]))
  }

  lemma CombineSplits(high: nat, low: nat)
    requires low < 0x40
    ensures Combine(high, low) / 0x40 == high && Combine(high, low) % 0x40 == low
  {
  }

  lemma SplitTwice(c: nat)
    ensures c / 0x40 / 0x40 == c / 0x1000 && c / 0x1000 / 0x40 == c / 0x4_0000
  {
  }

  /** What the byte test accepts is the encoding of a scalar value. */
  lemma DecodeIsInverse(s: seq<Byte>)
    requires ScalarWidth(s) > 0
    ensures IsScalar(Decode(s)) && Encode(Decode(s)) == s[..ScalarWidth(s)]
  {
    var c := Decode(s);
    SplitTwice(c);
    match ScalarWidth(s)
    case 1 =>
    case 2 => CombineSplits(LeadBits(s[0]), TailBits(s[1]));
    case 3 =>
      CombineSplits(LeadBits(s[0]), TailBits(s[1]));
      CombineSplits(c / 0x40, TailBits(s[2]));
      assert c / 0x1000 == LeadBits(s[0]);
    case _ => DecodeFour(s);
  }

  lemma DecodeFour(s: seq<Byte>)
    requires ScalarWidth(s) == 4
    ensures IsScalar(Decode(s)) && Encode(Decode(s)) == s[..4]
  {
    var lead, t1, t2, t3 := LeadBits(s[0]), TailBits(s[1]), TailBits(s[2]), TailBits(s[3]);
    var p := Combine(lead, t1);
    assert 0x10 <= p <= 0x10F;
    FourParts(lead, t1, t2, t3);
    SupplementaryRange(p, t2, t3);
  }

  lemma FourParts(lead: nat, t1: nat, t2: nat, t3: nat)
    requires t1 < 0x40 && t2 < 0x40 && t3 < 0x40
    ensures var c := Combine(Combine(Combine(lead, t1), t2), t3);
            c / 0x4_0000 == lead && c / 0x1000 % 0x40 == t1 && c / 0x40 % 0x40 == t2 && c % 0x40 == t3
  {
    var p := Combine(lead, t1);
    var q := Combine(p, t2);
    CombineSplits(lead, t1);
    CombineSplits(p, t2);
    CombineSplits(q, t3);
    SplitTwice(Combine(q, t3));
  }

  lemma SupplementaryRange(p: nat, t2: nat, t3: nat)
    requires 0x10 <= p <= 0x10F && t2 < 0x40 && t3 < 0x40
    ensures 0x1_0000 <= Combine(Combine(p, t2), t3) <= 0x10_FFFF
  {
  }

  /** The bytes `Encode` writes are the ones the byte test looks for. */
  lemma ThreeBytesAllowed(c: nat)
    requires IsScalar(c) && 0x800 <= c < 0x1_0000
    ensures 0xE0 <= 0xE0 + c / 0x1000 <= 0xEF && SecondAllowed(0xE0 + c / 0x1000, 0x80 + c / 0x40 % 0x40)
  {
    SplitTwice(c);
    var high := c / 0x40;
    assert high == high / 0x40 * 0x40 + high % 0x40;
    assert 0x20 <= high < 0x400 && !(0x360 <= high < 0x380);
  }

  lemma FourBytesAllowed(c: nat)
    requires IsScalar(c) && 0x1_0000 <= c
    ensures 0xF0 <= 0xF0 + c / 0x4_0000 <= 0xF4
    ensures SecondAllowed(0xF0 + c / 0x4_0000, 0x80 + c / 0x1000 % 0x40)
  {
    SplitTwice(c);
    var high := c / 0x1000;
    assert high == high / 0x40 * 0x40 + high % 0x40;
    assert 0x10 <= high < 0x110;
  }

  /** Every encoding passes the byte test, whatever follows it. */
  lemma EncodingIsAccepted(c: nat, rest: seq<Byte>)
    requires IsScalar(c)
    ensures ScalarWidth(Encode(c) + rest) == |Encode(c)|
  {
    BytesAreAllowed(c);
    KeepsWidth(Encode(c), rest);
  }

  lemma BytesAreAllowed(c: nat)
    requires IsScalar(c)
    ensures ScalarWidth(Encode(c)) == |Encode(c)|
  {
    if 0x800 <= c < 0x1_0000 {
      ThreeBytesAllowed(c);
    } else if 0x1_0000 <= c {
      FourBytesAllowed(c);
    }
  }

  lemma KeepsWidth(e: seq<Byte>, rest: seq<Byte>)
    requires ScalarWidth(e) == |e| > 0
    ensures ScalarWidth(e + rest) == |e|
  {
    assert forall i :: 0 <= i < |e| ==> (e + rest)[i] == e[i];
  }

  /** Decoding an encoded scalar value gives it back. */
  lemma DecodeEncodes(c: nat, rest: seq<Byte>)
    requires IsScalar(c)
    ensures ScalarWidth(Encode(c) + rest) > 0 && Decode(Encode(c) + rest) == c
  {
    EncodingIsAccepted(c, rest);
    var s := Encode(c) + rest;
    assert forall i :: 0 <= i < |Encode(c)| ==> s[i] == Encode(c)[i];
    SplitTwice(c);
    Recombine(c);
    Recombine(c / 0x40);
    Recombine(c / 0x1000);
  }

  lemma Recombine(c: nat)
    ensures Combine(c / 0x40, c % 0x40) == c
  {
  }

  // ----- the longest prefix -----

  function FitLength(s: seq<Byte>): (n: nat)
    ensures n <= |s|
  {
    var w := ScalarWidth(s);
    if w == 0 then 0 else w + FitLength(s[w..])
  }

  lemma EncodeCons(c: nat, cs: seq<nat>)
    requires IsScalar(c) && AllScalar(cs)
    ensures AllScalar([c] + cs) && EncodeAll([c] + cs) == Encode(c) + EncodeAll(cs)
  {
    assert ([c] + cs)[1..] == cs;
  }

  lemma {:induction false} EncodeAppend(a: seq<nat>, b: seq<nat>)
    requires AllScalar(a) && AllScalar(b)
    ensures AllScalar(a + b) && EncodeAll(a + b) == EncodeAll(a) + EncodeAll(b)
  {
    if a == [] {
      assert a + b == b;
    } else {
      var c, tail := a[0], a[1..];
      EncodeAppend(tail, b);
      assert a == [c] + tail && a + b == [c] + (tail + b);
      EncodeCons(c, tail);
      EncodeCons(c, tail + b);
      Associate(Encode(c), EncodeAll(tail), EncodeAll(b));
    }
  }

  lemma Associate(x: seq<Byte>, y: seq<Byte>, z: seq<Byte>)
    ensures x + (y + z) == (x + y) + z
  {
  }

  lemma EncodeOne(c: nat)
    requires IsScalar(c)
    ensures AllScalar([c]) && EncodeAll([c]) == Encode(c)
  {
    EncodeCons(c, []);
    assert [c] + [] == [c] && Encode(c) + [] == Encode(c);
  }

  lemma EncodeSnoc(cs: seq<nat>, c: nat)
    requires AllScalar(cs) && IsScalar(c)
    ensures AllScalar(cs + [c]) && EncodeAll(cs + [c]) == EncodeAll(cs) + Encode(c)
  {
    EncodeOne(c);
    EncodeAppend(cs, [c]);
  }

  lemma SplitPrefix(s: seq<Byte>, w: nat, n: nat)
    requires w + n <= |s|
    ensures s[..w + n] == s[..w] + s[w..][..n]
  {
  }

  lemma {:induction false} FitDecodes(s: seq<Byte>) returns (cs: seq<nat>)
    ensures AllScalar(cs) && EncodeAll(cs) == s[..FitLength(s)]
    decreases |s|
  {
    var w := ScalarWidth(s);
    if w == 0 {
      cs := [];
    } else {
      DecodeIsInverse(s);
      var rest := FitDecodes(s[w..]);
      EncodeCons(Decode(s), rest);
      cs := [Decode(s)] + rest;
      SplitPrefix(s, w, FitLength(s[w..]));
    }
  }

  lemma {:induction false} FitCovers(s: seq<Byte>, cs: seq<nat>, n: nat)
    requires AllScalar(cs) && n <= |s| && s[..n] == EncodeAll(cs)
    ensures n <= FitLength(s)
    decreases cs
  {
    if cs != [] {
      HeadEncoded(s, cs, n);
      var w := |Encode(cs[0])|;
      FitCovers(s[w..], cs[1..], n - w);
    }
  }

  /** `FitLength` is the length of the longest well-formed prefix. */
  lemma FitIsLongest(s: seq<Byte>)
    ensures WellFormed(s[..FitLength(s)])
    ensures forall n :: 0 <= n <= |s| && WellFormed(s[..n]) ==> n <= FitLength(s)
  {
    var cs := FitDecodes(s);
    forall n | 0 <= n <= |s| && WellFormed(s[..n]) ensures n <= FitLength(s) {
      var ds :| AllScalar(ds) && s[..n] == EncodeAll(ds);
      FitCovers(s, ds, n);
    }
  }

  /** The tests the scan makes on the bytes at `offset`; 0 stops it. */
  method ScanScalar(data: seq<Byte>, offset: nat, length: nat, capacity: nat) returns (width: nat)
    requires offset < length <= |data| && offset < capacity
    ensures width == ScalarWidth(data[offset..Min(length, capacity)])
  {
    ghost var here := data[offset..Min(length, capacity)];
    var lead := data[offset];
    assert here[0] == lead;
    width := LeadWidth(lead);
    if width == 0 || width > length - offset || width > capacity - offset { return 0; }
    if width > 1 {
      var second := data[offset + 1];
      assert here[1] == second;
      if !SecondAllowed(lead, second) { return 0; }
    }
    if width > 2 {
      assert here[2] == data[offset + 2];
      if !IsContinuation(data[offset + 2]) { return 0; }
    }
    if width > 3 {
      assert here[3] == data[offset + 3];
      if !IsContinuation(data[offset + 3]) { return 0; }
    }
  }

  /** Where a well-formed prefix is followed by no further scalar, the longest prefix ends. */
  lemma {:induction false} GreedyStops(s: seq<Byte>, cs: seq<nat>, n: nat)
    requires AllScalar(cs) && n <= |s| && s[..n] == EncodeAll(cs) && ScalarWidth(s[n..]) == 0
    ensures FitLength(s) == n
    decreases cs
  {
    if cs == [] {
      assert s[0..] == s;
    } else {
      var w := |Encode(cs[0])|;
      HeadEncoded(s, cs, n);
      assert s[w..][n - w..] == s[n..];
      GreedyStops(s[w..], cs[1..], n - w);
    }
  }

  /** The first scalar of a well-formed prefix is the one the byte test sees. */
  lemma HeadEncoded(s: seq<Byte>, cs: seq<nat>, n: nat)
    requires AllScalar(cs) && cs != [] && n <= |s| && s[..n] == EncodeAll(cs)
    ensures var w := |Encode(cs[0])|;
            ScalarWidth(s) == w <= n && s[w..][..n - w] == EncodeAll(cs[1..])
  {
    PrefixSplits(s, n, Encode(cs[0]), EncodeAll(cs[1..]));
    EncodingIsAccepted(cs[0], s[|Encode(cs[0])|..]);
  }

  lemma PrefixSplits(s: seq<Byte>, n: nat, e: seq<Byte>, rest: seq<Byte>)
    requires n <= |s| && s[..n] == e + rest
    ensures s == e + s[|e|..] && s[|e|..][..n - |e|] == rest
  {
    assert s[..n][..|e|] == e && s[..n][|e|..] == rest;
  }

  lemma WindowSlices(data: seq<Byte>, offset: nat, limit: nat, w: nat)
    requires offset + w <= limit <= |data|
    ensures data[..offset + w] == data[..offset] + data[offset..limit][..w]
    ensures data[..limit][..offset] == data[..offset] && data[..limit][offset..] == data[offset..limit]
  {
  }

  lemma ScalarExtends(data: seq<Byte>, offset: nat, limit: nat)
    requires offset <= limit <= |data| && WellFormed(data[..offset])
    ensures ScalarWidth(data[offset..limit]) > 0 ==> WellFormed(data[..offset + ScalarWidth(data[offset..limit])])
    ensures ScalarWidth(data[offset..limit]) == 0 ==> FitLength(data[..limit]) == offset
  {
    var cs :| AllScalar(cs) && data[..offset] == EncodeAll(cs);
    var here := data[offset..limit];
    var w := ScalarWidth(here);
    WindowSlices(data, offset, limit, w);
    if w > 0 {
      DecodeIsInverse(here);
      EncodeSnoc(cs, Decode(here));
    } else {
      GreedyStops(data[..limit], cs, offset);
    }
  }

  /** The scan over both limits. */
  method Scan(data: seq<Byte>, length: nat, capacity: nat) returns (offset: nat)
    requires length <= |data|
    ensures offset == FitLength(data[..Min(length, capacity)])
  {
    ghost var limit := Min(length, capacity);
    assert WellFormed(data[..0]) by { assert data[..0] == EncodeAll([]); }
    offset := 0;
    while offset < length && offset < capacity
      invariant offset <= limit && WellFormed(data[..offset])
    {
      var width := ScanScalar(data, offset, length, capacity);
      ScalarExtends(data, offset, limit);
      if width == 0 { return; }
      offset := offset + width;
    }
    ScalarExtends(data, offset, limit);
  }

  /** The scan yields the longest prefix within both limits that is well formed. */
  method Fit(data: seq<Byte>, length: nat, capacity: nat) returns (offset: nat)
    requires length <= |data|
    ensures offset <= length && offset <= capacity && WellFormed(data[..offset])
    ensures forall n :: 0 <= n <= length && n <= capacity && WellFormed(data[..n]) ==> n <= offset
    ensures offset == FitLength(data[..Min(length, capacity)])
  {
    offset := Scan(data, length, capacity);
    WindowIsLongest(data, Min(length, capacity));
  }

  lemma WindowIsLongest(data: seq<Byte>, limit: nat)
    requires limit <= |data|
    ensures WellFormed(data[..FitLength(data[..limit])])
    ensures forall n :: 0 <= n <= limit && WellFormed(data[..n]) ==> n <= FitLength(data[..limit])
  {
    var window := data[..limit];
    FitIsLongest(window);
    assert window[..FitLength(window)] == data[..FitLength(window)];
    forall n | 0 <= n <= limit && WellFormed(data[..n]) ensures n <= FitLength(window) {
      assert window[..n] == data[..n];
    }
  }
}
