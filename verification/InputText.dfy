/** Key editing of a retained text input: a NUL-terminated buffer of 256 bytes. */
module InputText {
  import opened Common
  import opened Utf8

  /** Longest text a buffer holds before its terminator. */
  const MAX_BYTES: nat := TEXT_CAPACITY - 1

  // ----- the edits on text -----

  predicate NoNul(s: seq<Byte>) { forall i :: 0 <= i < |s| ==> s[i] != 0 }

  /** What a C string holds of a byte sequence: everything before the first NUL. */
  function BeforeNul(s: seq<Byte>): (t: seq<Byte>)
    ensures t <= s && NoNul(t) && (t == s || s[|t|] == 0)
  {
    if s == [] || s[0] == 0 then [] else [s[0]] + BeforeNul(s[1..])
  }

  /** Start of the last encoded scalar of a text ending at `length`. */
  function LastStart(s: seq<Byte>, length: nat): (n: nat)
    requires length <= |s|
    ensures n <= length && (length > 0 ==> n < length)
  {
    if length == 0 then 0
    else if length == 1 || !IsContinuation(s[length - 1]) then length - 1
    else LastStart(s, length - 1)
  }

  function Backspaced(s: seq<Byte>): seq<Byte> { s[..LastStart(s, |s|)] }

  /** How much of a key's bytes is taken: the longest well-formed prefix that fits. */
  function Accepted(s: seq<Byte>, key: seq<Byte>): nat
    requires |s| <= MAX_BYTES
  {
    FitLength(key[..Min(|key|, MAX_BYTES - |s|)])
  }

  function Appended(s: seq<Byte>, key: seq<Byte>, overflowed: bool): seq<Byte>
    requires |s| <= MAX_BYTES
  {
    if overflowed then s else s + BeforeNul(key[..Accepted(s, key)])
  }

  // ----- the buffer -----

  class Input {
    const text: array<Byte>

    ghost predicate Terminated()
      reads text
    {
      text.Length == TEXT_CAPACITY && exists i :: 0 <= i < TEXT_CAPACITY && text[i] == 0
    }

    ghost function Content(): (s: seq<Byte>)
      reads text
      requires Terminated()
      ensures |s| <= MAX_BYTES && NoNul(s) && text[|s|] == 0 && s == text[..|s|]
    {
      BeforeNul(text[..])
    }

    constructor ()
      ensures Terminated() && fresh(text) && Content() == []
    {
      text := new Byte[TEXT_CAPACITY](_ => 0);
      new;
      assert text[0] == 0;
    }

    /** Two texts that agree up to a NUL hold the same string. */
    lemma ContentIs(s: seq<Byte>)
      requires text.Length == TEXT_CAPACITY && |s| < TEXT_CAPACITY && NoNul(s) && text[..|s|] == s && text[|s|] == 0
      ensures Terminated() && Content() == s
    {
      var c := BeforeNul(text[..]);
      assert |c| == |s|;
    }

    method Length() returns (n: nat)
      requires Terminated()
      ensures n == |Content()|
    {
      n := 0;
      while text[n] != 0
        invariant n <= |Content()|
        decreases TEXT_CAPACITY - n
      {
        assert Content()[n..] != [];
        n := n + 1;
      }
    }

    method Backspace()
      requires Terminated()
      modifies text
      ensures Terminated() && Content() == Backspaced(old(Content()))
    {
      var length := Length();
      ghost var was := Content();
      if length == 0 { return; }
      length := length - 1;
      while length > 0 && IsContinuation(text[length])
        invariant 0 <= length < |was|
        invariant LastStart(was, |was|) == LastStart(was, length + 1)
        invariant text[..] == old(text[..])
      {
        length := length - 1;
      }
      text[length] := 0;
      ContentIs(was[..length]);
    }

    /** A key press with its looked-up bytes; `overflowed` reports a lookup that did not fit. */
    method Key(key: seq<Byte>, overflowed: bool)
      requires Terminated()
      modifies text
      ensures Terminated() && Content() == Appended(old(Content()), key, overflowed)
    {
      var current := Length();
      ghost var was := Content();
      var accepted := Fit(key, |key|, MAX_BYTES - current);
      assert accepted == Accepted(was, key);
      if !overflowed && accepted > 0 {
        CopyAt(current, key[..accepted]);
        CopiedContent(was, key[..accepted]);
      }
    }

    /** Write bytes at `current` and terminate them. */
    method CopyAt(current: nat, bytes: seq<Byte>)
      requires text.Length == TEXT_CAPACITY && current + |bytes| < TEXT_CAPACITY
      modifies text
      ensures text[..current + |bytes|] == old(text[..current]) + bytes && text[current + |bytes|] == 0
    {
      for i := 0 to |bytes|
        invariant text[..current + i] == old(text[..current]) + bytes[..i]
      {
        text[current + i] := bytes[i];
      }
      text[current + |bytes|] := 0;
    }

    lemma CopiedContent(was: seq<Byte>, bytes: seq<Byte>)
      requires text.Length == TEXT_CAPACITY && NoNul(was) && |was| + |bytes| < TEXT_CAPACITY
      requires text[..|was| + |bytes|] == was + bytes && text[|was| + |bytes|] == 0
      ensures Terminated() && Content() == was + BeforeNul(bytes)
    {
      var k := |was| + |bytes|;
      var tail := text[k..];
      assert text[..] == was + (bytes + tail) by { assert text[..] == text[..k] + tail; }
      BeforeNulSkips(was, bytes + tail);
      BeforeNulStops(bytes, tail);
    }
  }

  lemma {:induction false} BeforeNulStops(bytes: seq<Byte>, tail: seq<Byte>)
    requires tail != [] && tail[0] == 0
    ensures BeforeNul(bytes + tail) == BeforeNul(bytes)
  {
    if bytes == [] {
      assert bytes + tail == tail;
    } else {
      assert (bytes + tail)[1..] == bytes[1..] + tail;
      BeforeNulStops(bytes[1..], tail);
    }
  }

  // ----- well-formedness -----

  /** Encodings other than that of U+0000 contain no NUL byte. */
  lemma {:induction false} NulEndsScalars(cs: seq<nat>) returns (prefix: seq<nat>)
    requires AllScalar(cs)
    ensures AllScalar(prefix) && BeforeNul(EncodeAll(cs)) == EncodeAll(prefix)
    decreases cs
  {
    prefix := [];
    if cs != [] && cs[0] != 0 {
      var rest := NulEndsScalars(cs[1..]);
      var e := Encode(cs[0]);
      EncodingHasNoNul(cs[0]);
      BeforeNulSkips(e, EncodeAll(cs[1..]));
      EncodeCons(cs[0], rest);
      prefix := [cs[0]] + rest;
    }
  }

  lemma {:induction false} BeforeNulSkips(e: seq<Byte>, s: seq<Byte>)
    requires NoNul(e)
    ensures BeforeNul(e + s) == e + BeforeNul(s)
  {
    if e == [] {
      assert e + s == s;
    } else {
      assert (e + s)[1..] == e[1..] + s;
      BeforeNulSkips(e[1..], s);
    }
  }

  /** Bytes of one encoding: the first is no continuation byte, all others are. */
  lemma EncodingShape(c: nat)
    requires IsScalar(c)
    ensures 1 <= |Encode(c)| <= 4 && !IsContinuation(Encode(c)[0])
    ensures forall i :: 1 <= i < |Encode(c)| ==> IsContinuation(Encode(c)[i])
  {
  }

  lemma {:induction false} LastStartFinds(s: seq<Byte>, start: nat, length: nat)
    requires start < length <= |s| && !IsContinuation(s[start])
    requires forall i :: start < i < length ==> IsContinuation(s[i])
    ensures LastStart(s, length) == start
    decreases length
  {
    if length - 1 > start { LastStartFinds(s, start, length - 1); }
  }

  lemma BackspaceDropsUnit(head: seq<Byte>, e: seq<Byte>)
    requires |e| >= 1 && !IsContinuation(e[0]) && forall i :: 1 <= i < |e| ==> IsContinuation(e[i])
    ensures Backspaced(head + e) == head
  {
    var s := head + e;
    assert forall i :: |head| <= i < |s| ==> s[i] == e[i - |head|];
    LastStartFinds(s, |head|, |s|);
  }

  /** A backspace removes exactly the last scalar value. */
  lemma BackspaceDropsScalar(front: seq<nat>, last: nat)
    requires AllScalar(front) && IsScalar(last)
    ensures AllScalar(front + [last]) && Backspaced(EncodeAll(front + [last])) == EncodeAll(front)
  {
    EncodeSnoc(front, last);
    EncodingShape(last);
    BackspaceDropsUnit(EncodeAll(front), Encode(last));
  }

  // ----- every run -----

  datatype KeyEvent = BackspaceKey | TextKey(bytes: seq<Byte>, overflowed: bool)

  ghost predicate GoodText(s: seq<Byte>) { WellFormed(s) && |s| <= MAX_BYTES && NoNul(s) }

  function Press(s: seq<Byte>, e: KeyEvent): (t: seq<Byte>)
    requires |s| <= MAX_BYTES
    ensures |t| <= MAX_BYTES
  {
    match e
    case BackspaceKey => Backspaced(s)
    case TextKey(bytes, overflowed) => Appended(s, bytes, overflowed)
  }

  function PressAll(s: seq<Byte>, events: seq<KeyEvent>): seq<Byte>
    requires |s| <= MAX_BYTES
    decreases events
  {
    if events == [] then s else PressAll(Press(s, events[0]), events[1..])
  }

  lemma ConcatWellFormed(s: seq<Byte>, t: seq<Byte>)
    requires WellFormed(s) && WellFormed(t)
    ensures WellFormed(s + t)
  {
    var cs :| AllScalar(cs) && s == EncodeAll(cs);
    var ds :| AllScalar(ds) && t == EncodeAll(ds);
    EncodeAppend(cs, ds);
  }

  lemma BeforeNulWellFormed(s: seq<Byte>)
    requires WellFormed(s)
    ensures WellFormed(BeforeNul(s))
  {
    var cs :| AllScalar(cs) && s == EncodeAll(cs);
    var prefix := NulEndsScalars(cs);
  }

  lemma BackspaceWellFormed(s: seq<Byte>)
    requires WellFormed(s)
    ensures WellFormed(Backspaced(s))
  {
    var cs :| AllScalar(cs) && s == EncodeAll(cs);
    if cs != [] {
      var front, last := cs[..|cs| - 1], cs[|cs| - 1];
      assert cs == front + [last];
      BackspaceDropsScalar(front, last);
    }
  }

  lemma PressKeepsGood(s: seq<Byte>, e: KeyEvent)
    requires GoodText(s)
    ensures GoodText(Press(s, e))
  {
    match e
    case BackspaceKey => BackspaceWellFormed(s);
    case TextKey(bytes, _) =>
      WindowIsLongest(bytes, Min(|bytes|, MAX_BYTES - |s|));
      BeforeNulWellFormed(bytes[..Accepted(s, bytes)]);
      ConcatWellFormed(s, BeforeNul(bytes[..Accepted(s, bytes)]));
  }

  /** Over every sequence of key presses and backspaces the input stays well-formed UTF-8 of at
      most 255 bytes with no NUL inside. */
  lemma {:induction false} EditingKeepsGood(s: seq<Byte>, events: seq<KeyEvent>)
    requires GoodText(s)
    ensures GoodText(PressAll(s, events))
    decreases events
  {
    if events != [] {
      PressKeepsGood(s, events[0]);
      EditingKeepsGood(Press(s, events[0]), events[1..]);
    }
  }

  /** A backspace undoes the entry of one scalar value that fits. */
  lemma BackspaceUndoesKey(s: seq<Byte>, c: nat)
    requires GoodText(s) && IsScalar(c) && c != 0 && |s| + |Encode(c)| <= MAX_BYTES
    ensures Press(s, TextKey(Encode(c), false)) == s + Encode(c)
    ensures Press(Press(s, TextKey(Encode(c), false)), BackspaceKey) == s
  {
    var e := Encode(c);
    FitsWhole(c);
    assert e[..|e|] == e;
    EncodingHasNoNul(c);
    BeforeNulSkips(e, []);
    assert e + [] == e;
    EncodingShape(c);
    BackspaceDropsUnit(s, e);
  }

  lemma EncodingHasNoNul(c: nat)
    requires IsScalar(c) && c != 0
    ensures NoNul(Encode(c))
  {
  }

  lemma FitsWhole(c: nat)
    requires IsScalar(c)
    ensures FitLength(Encode(c)) == |Encode(c)|
  {
    var e := Encode(c);
    EncodingIsAccepted(c, []);
    assert e + [] == e && e[|e|..] == [];
  }

  /** A key whose lookup overflowed is dropped; any other key appends its longest well-formed prefix
      that fits, up to a NUL. */
  lemma KeyTakesLongest(s: seq<Byte>, key: seq<Byte>, overflowed: bool)
    requires |s| <= MAX_BYTES
    ensures overflowed ==> Press(s, TextKey(key, overflowed)) == s
    ensures !overflowed ==>
              exists n :: && 0 <= n <= |key| && |s| + n <= MAX_BYTES && WellFormed(key[..n])
                          && (forall m :: 0 <= m <= |key| && |s| + m <= MAX_BYTES && WellFormed(key[..m]) ==> m <= n)
                          && Press(s, TextKey(key, overflowed)) == s + BeforeNul(key[..n])
  {
    var room := Min(|key|, MAX_BYTES - |s|);
    WindowIsLongest(key, room);
    assert key[..FitLength(key[..room])] == key[..Accepted(s, key)];
  }
}
