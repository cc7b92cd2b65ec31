/** Lexical path normalization. */
module PathNormalization {

  // ----- text -----

  /** Both separators become `/`. */
  function Slashes(path: string): (s: string)
    ensures |s| == |path|
  {
    seq(|path|, i requires 0 <= i < |path| => if path[i] == '\\' then '/' else path[i])
  }

  function Split(s: string): (parts: seq<string>)
    ensures |parts| >= 1
  {
    if s == [] then [[]]
    else
      var rest := Split(s[1..]);
      if s[0] == '/' then [[]] + rest else [[s[0]] + rest[0]] + rest[1..]
  }

  function Join(parts: seq<string>): string {
    if |parts| == 0 then "" else if |parts| == 1 then parts[0] else parts[0] + "/" + Join(parts[1..])
  }

  predicate IsLetter(c: char) { 'a' <= c <= 'z' || 'A' <= c <= 'Z' }

  function Lower(c: char): char { if 'A' <= c <= 'Z' then (c as int + 32) as char else c }

  predicate StartsLikeDrive(s: string) { |s| >= 2 && IsLetter(s[0]) && s[1] == ':' }

  function TrimSlashes(s: string): string {
    if s != [] && s[0] == '/' then TrimSlashes(s[1..]) else s
  }

  datatype Prefixed = Prefixed(prefix: string, rest: string, rooted: bool)

  function SplitPrefix(path: string): Prefixed {
    if |path| >= 2 && path[0] == '/' && path[1] == '/' then Prefixed("//", path[2..], true)
    else if |path| >= 1 && path[0] == '/' then Prefixed("/", path[1..], true)
    else if StartsLikeDrive(path) then
      var rest := path[2..];
      var rooted := rest != [] && rest[0] == '/';
      Prefixed(if rooted then [Lower(path[0])] + ":/" else [Lower(path[0])] + ":", TrimSlashes(rest), rooted)
    else Prefixed("", path, false)
  }

  // ----- components -----

  /** One component against the components kept so far. */
  function Push(kept: seq<string>, c: string, rooted: bool): seq<string> {
    if c == "" || c == "." then kept
    else if c == ".." then
      if |kept| > 0 && kept[|kept| - 1] != ".." then kept[..|kept| - 1]
      else if !rooted then kept + [c]
      else kept
    else kept + [c]
  }

  function Collapse(kept: seq<string>, parts: seq<string>, rooted: bool): seq<string>
    decreases parts
  {
    if parts == [] then kept else Collapse(Push(kept, parts[0], rooted), parts[1..], rooted)
  }

  function Render(prefix: string, body: string): string {
    if prefix == "" && body == "" then "."
    else if body == "" then prefix
    else if prefix == "" then body
    else if prefix[|prefix| - 1] == '/' then prefix + body
    else prefix + "/" + body
  }

  function Components(path: string): seq<string> {
    var p := SplitPrefix(Slashes(path));
    Collapse([], Split(p.rest), p.rooted)
  }

  function Normalized(path: string): string {
    Render(SplitPrefix(Slashes(path)).prefix, Join(Components(path)))
  }

  method NormalizePath(path: string) returns (r: string)
    ensures r == Normalized(path)
  {
    var p := SplitPrefix(Slashes(path));
    var parts := Split(p.rest);
    var components: seq<string> := [];
    for i := 0 to |parts|
      invariant Collapse([], parts, p.rooted) == Collapse(components, parts[i..], p.rooted)
    {
      assert parts[i..][1..] == parts[i + 1..];
      var component := parts[i];
      if component == "" || component == "." {
      } else if component == ".." && |components| > 0 && components[|components| - 1] != ".." {
        components := components[..|components| - 1];
      } else if component == ".." && !p.rooted {
        components := components + [component];
      } else if component != ".." {
        components := components + [component];
      }
    }
    r := Render(p.prefix, Join(components));
  }

  // ----- normal form -----

  /** Free of both separators. */
  predicate Clean(s: string) { '/' !in s && '\\' !in s }

  predicate Plain(c: string) { c != "" && c != "." && Clean(c) }

  /** `..` occurs only as the first `ups` components. */
  ghost predicate NormalWith(kept: seq<string>, ups: nat) {
    && ups <= |kept|
    && (forall i :: 0 <= i < |kept| ==> Plain(kept[i]))
    && (forall i :: 0 <= i < ups ==> kept[i] == "..")
    && (forall i :: ups <= i < |kept| ==> kept[i] != "..")
  }

  /** No empty or `.` component, and `..` only as a leading run of unrooted paths. */
  ghost predicate Normal(kept: seq<string>, rooted: bool) {
    exists ups :: NormalWith(kept, ups) && (rooted ==> ups == 0)
  }

  lemma PushNormal(kept: seq<string>, c: string, rooted: bool)
    requires Normal(kept, rooted) && Clean(c)
    ensures Normal(Push(kept, c, rooted), rooted)
  {
    var ups: nat :| NormalWith(kept, ups) && (rooted ==> ups == 0);
    var next := Push(kept, c, rooted);
    if next == kept + [c] && c == ".." {
      assert ups == |kept|;
      assert NormalWith(next, ups + 1);
    } else {
      assert NormalWith(next, ups);
    }
  }

  lemma {:induction false} CollapseNormal(kept: seq<string>, parts: seq<string>, rooted: bool)
    requires Normal(kept, rooted) && forall i :: 0 <= i < |parts| ==> Clean(parts[i])
    ensures Normal(Collapse(kept, parts, rooted), rooted)
    decreases parts
  {
    if parts != [] {
      PushNormal(kept, parts[0], rooted);
      CollapseNormal(Push(kept, parts[0], rooted), parts[1..], rooted);
    }
  }

  lemma {:induction false} SplitIsClean(s: string)
    requires '\\' !in s
    ensures forall i :: 0 <= i < |Split(s)| ==> Clean(Split(s)[i])
  {
    if s != [] { SplitIsClean(s[1..]); }
  }

  lemma {:induction false} TrimmedIsSuffix(s: string)
    ensures |TrimSlashes(s)| <= |s| && TrimSlashes(s) == s[|s| - |TrimSlashes(s)|..]
  {
    if s != [] && s[0] == '/' { TrimmedIsSuffix(s[1..]); }
  }

  lemma RestHasNoBackslash(path: string)
    requires '\\' !in path
    ensures '\\' !in SplitPrefix(path).rest && '\\' !in SplitPrefix(path).prefix
  {
    if StartsLikeDrive(path) { TrimmedIsSuffix(path[2..]); }
  }

  /** The components of every normalized path are in normal form. */
  lemma ComponentsAreNormal(path: string)
    ensures Normal(Components(path), SplitPrefix(Slashes(path)).rooted)
  {
    var p := SplitPrefix(Slashes(path));
    RestHasNoBackslash(Slashes(path));
    SplitIsClean(p.rest);
    assert NormalWith([], 0);
    CollapseNormal([], Split(p.rest), p.rooted);
  }

  // ----- meaning: walking from a location -----

  /** Entering a component from a location given as the list of directories from the root. */
  function Enter(location: seq<string>, c: string): seq<string> {
    if c == "" || c == "." then location
    else if c == ".." then (if location == [] then [] else location[..|location| - 1])
    else location + [c]
  }

  function Walk(location: seq<string>, parts: seq<string>): seq<string>
    decreases parts
  {
    if parts == [] then location else Walk(Enter(location, parts[0]), parts[1..])
  }

  lemma {:induction false} WalkSnoc(location: seq<string>, parts: seq<string>, c: string)
    ensures Walk(location, parts + [c]) == Enter(Walk(location, parts), c)
    decreases parts
  {
    if parts == [] {
      assert parts + [c] == [c] && [c][1..] == [];
    } else {
      assert (parts + [c])[1..] == parts[1..] + [c];
      WalkSnoc(Enter(location, parts[0]), parts[1..], c);
    }
  }

  /** Where a path leads from `base`; a rooted path ignores the base. */
  function Start(base: seq<string>, rooted: bool): seq<string> { if rooted then [] else base }

  lemma PushKeepsMeaning(location: seq<string>, kept: seq<string>, c: string, rooted: bool)
    requires Normal(kept, rooted) && (rooted ==> location == [])
    ensures Walk(location, Push(kept, c, rooted)) == Enter(Walk(location, kept), c)
  {
    var next := Push(kept, c, rooted);
    if c == ".." && |kept| > 0 && kept[|kept| - 1] != ".." {
      var front, last := kept[..|kept| - 1], kept[|kept| - 1];
      assert kept == front + [last];
      WalkSnoc(location, front, last);
      assert Walk(location, kept) == Walk(location, front) + [last];
    } else if next == kept + [c] {
      WalkSnoc(location, kept, c);
    } else if c == ".." {
      RootedHasNoUps(kept);
    }
  }

  lemma RootedHasNoUps(kept: seq<string>)
    requires Normal(kept, true)
    ensures forall i :: 0 <= i < |kept| ==> kept[i] != ".."
  {
  }

  lemma {:induction false} CollapseKeepsMeaning(
    location: seq<string>, kept: seq<string>, parts: seq<string>, rooted: bool)
    requires Normal(kept, rooted) && (rooted ==> location == [])
    requires forall i :: 0 <= i < |parts| ==> Clean(parts[i])
    ensures Walk(location, Collapse(kept, parts, rooted)) == Walk(Walk(location, kept), parts)
    decreases parts
  {
    if parts != [] {
      PushKeepsMeaning(location, kept, parts[0], rooted);
      PushNormal(kept, parts[0], rooted);
      CollapseKeepsMeaning(location, Push(kept, parts[0], rooted), parts[1..], rooted);
    }
  }

  // ----- reading a normalized path again -----

  lemma {:induction false} SplitJoin(parts: seq<string>)
    requires parts != [] && forall i :: 0 <= i < |parts| ==> Clean(parts[i])
    ensures Split(Join(parts)) == parts
  {
    if |parts| == 1 {
      SplitPlain(parts[0]);
    } else {
      SplitJoin(parts[1..]);
      SplitAtSlash(parts[0], Join(parts[1..]));
      assert parts[0] + "/" + Join(parts[1..]) == parts[0] + ("/" + Join(parts[1..]));
      assert parts == [parts[0]] + parts[1..];
    }
  }

  lemma {:induction false} SplitPlain(s: string)
    requires Clean(s)
    ensures Split(s) == [s]
  {
    if s != [] {
      SplitPlain(s[1..]);
      assert s == [s[0]] + s[1..];
    }
  }

  lemma {:induction false} SplitAtSlash(s: string, rest: string)
    requires Clean(s)
    ensures Split(s + ("/" + rest)) == [s] + Split(rest)
  {
    var t := s + ("/" + rest);
    if s == [] {
      assert t[1..] == rest;
    } else {
      assert t[1..] == s[1..] + ("/" + rest);
      SplitAtSlash(s[1..], rest);
      assert [s[0]] + s[1..] == s;
    }
  }

  /** Collapsing components already in normal form changes nothing. */
  lemma {:induction false} CollapseFixed(kept: seq<string>, parts: seq<string>, rooted: bool)
    requires Normal(kept + parts, rooted)
    ensures Collapse(kept, parts, rooted) == kept + parts
    decreases parts
  {
    if parts == [] {
      assert kept + parts == kept;
    } else {
      var all := kept + parts;
      var ups: nat :| NormalWith(all, ups) && (rooted ==> ups == 0);
      var c := parts[0];
      assert all[|kept|] == c;
      if |kept| > 0 { assert all[|kept| - 1] == kept[|kept| - 1]; }
      assert Push(kept, c, rooted) == kept + [c];
      assert (kept + [c]) + parts[1..] == all;
      CollapseFixed(kept + [c], parts[1..], rooted);
    }
  }

  lemma {:induction false} JoinShape(parts: seq<string>)
    requires parts != [] && forall i :: 0 <= i < |parts| ==> Plain(parts[i])
    ensures '\\' !in Join(parts) && parts[0] <= Join(parts)
    ensures |parts| == 1 ==> Join(parts) == parts[0]
    ensures |parts| > 1 ==> Join(parts) == parts[0] + ("/" + Join(parts[1..]))
  {
    if |parts| > 1 {
      JoinShape(parts[1..]);
      assert Join(parts) == parts[0] + ("/" + Join(parts[1..]));
    }
  }

  lemma SlashesFixed(s: string)
    requires '\\' !in s
    ensures Slashes(s) == s
  {
  }

  /** The body of a normalized path: empty, or clean text that does not start with a separator. */
  ghost predicate BodyOf(body: string, kept: seq<string>) {
    && body == Join(kept) && '\\' !in body
    && (kept == [] ==> body == "")
    && (kept != [] ==> body != "" && body[0] != '/' && kept[0] <= body && Split(body) == kept)
  }

  lemma BodyIsJoin(kept: seq<string>, rooted: bool)
    requires Normal(kept, rooted)
    ensures BodyOf(Join(kept), kept)
  {
    if kept != [] {
      JoinShape(kept);
      SplitJoin(kept);
      assert Plain(kept[0]);
      assert Join(kept)[0] == kept[0][0];
    }
  }

  /** Collapsing the split body gives the components back. */
  lemma BodyCollapses(kept: seq<string>, rooted: bool)
    requires Normal(kept, rooted)
    ensures Collapse([], Split(Join(kept)), rooted) == kept
  {
    BodyIsJoin(kept, rooted);
    if kept == [] {
      assert Split("") == [""];
      assert [""][1..] == [];
    } else {
      assert [] + kept == kept;
      CollapseFixed([], kept, rooted);
    }
  }

  // ----- the four kinds of prefix -----

  predicate IsDrivePrefix(prefix: string) {
    |prefix| >= 2 && 'a' <= prefix[0] <= 'z' && prefix[1] == ':'
  }

  ghost predicate KnownPrefix(p: Prefixed) {
    || (p.prefix == "//" && p.rooted)
    || (p.prefix == "/" && p.rooted)
    || (IsDrivePrefix(p.prefix) && p.rooted && |p.prefix| == 3 && p.prefix[2] == '/')
    || (IsDrivePrefix(p.prefix) && !p.rooted && |p.prefix| == 2)
    || (p.prefix == "" && !p.rooted)
  }

  lemma PrefixIsKnown(path: string)
    ensures KnownPrefix(SplitPrefix(path))
  {
  }

  /** A normalized path reads back as the same prefix and body. */
  lemma RootedReadsBack(p: Prefixed, body: string)
    requires KnownPrefix(p) && p.rooted && (body == "" || body[0] != '/')
    ensures SplitPrefix(Render(p.prefix, body)) == Prefixed(p.prefix, body, true)
  {
    var n := Render(p.prefix, body);
    assert n == p.prefix + body;
    if p.prefix == "//" {
      assert n[2..] == body;
    } else if p.prefix == "/" {
      assert n[1..] == body;
    } else {
      assert n[2..] == "/" + body;
      assert ("/" + body)[1..] == body;
      assert TrimSlashes("/" + body) == TrimSlashes(body) == body;
      assert p.prefix == [p.prefix[0]] + ":/";
    }
  }

  // ----- when normalization keeps the location -----

  /** The path is not drive-relative with components left, and no surviving first component of a
      relative path looks like a drive. */
  ghost predicate Stable(path: string) {
    var p, kept := SplitPrefix(Slashes(path)), Components(path);
    kept != [] ==> (p.rooted || (p.prefix == "" && !StartsLikeDrive(kept[0])))
  }

  lemma BodyDriveLike(kept: seq<string>)
    requires Normal(kept, false) && kept != []
    ensures StartsLikeDrive(Join(kept)) <==> StartsLikeDrive(kept[0])
  {
    BodyIsJoin(kept, false);
    JoinShape(kept);
    assert Plain(kept[0]);
    if |kept[0]| >= 2 {
      assert Join(kept)[0] == kept[0][0] && Join(kept)[1] == kept[0][1];
    }
  }

  lemma NormalizedHasNoBackslash(path: string)
    ensures Slashes(Normalized(path)) == Normalized(path)
  {
    var p := SplitPrefix(Slashes(path));
    RestHasNoBackslash(Slashes(path));
    ComponentsAreNormal(path);
    BodyIsJoin(Components(path), p.rooted);
    SlashesFixed(Normalized(path));
  }

  /** Reading a stable normalized path again finds the same prefix and the same components. */
  lemma StableReadsBack(path: string)
    requires Stable(path)
    ensures var p, q := SplitPrefix(Slashes(path)), SplitPrefix(Slashes(Normalized(path)));
            && q.prefix == p.prefix && q.rooted == p.rooted
            && Components(Normalized(path)) == Components(path)
  {
    var p, kept := SplitPrefix(Slashes(path)), Components(path);
    PrefixIsKnown(Slashes(path));
    ComponentsAreNormal(path);
    NormalizedHasNoBackslash(path);
    BodyIsJoin(kept, p.rooted);
    BodyCollapses(kept, p.rooted);
    if p.rooted {
      RootedReadsBack(p, Join(kept));
    } else if kept == [] {
      EmptyReadsBack(p);
    } else {
      BodyDriveLike(kept);
    }
  }

  lemma EmptyReadsBack(p: Prefixed)
    requires KnownPrefix(p) && !p.rooted
    ensures var q := SplitPrefix(Render(p.prefix, ""));
            q.prefix == p.prefix && !q.rooted && Collapse([], Split(q.rest), false) == []
  {
    if p.prefix == "" {
      SplitPlain(".");
      assert ["."][1..] == [];
    } else {
      assert p.prefix == [p.prefix[0]] + ":" && p.prefix[2..] == "";
      assert Split("") == [""] && [""][1..] == [];
    }
  }

  /** Two paths lead to the same place from every base. */
  ghost predicate SameLocation(path: string, other: string) {
    var p, q := SplitPrefix(Slashes(path)), SplitPrefix(Slashes(other));
    && p.prefix == q.prefix && p.rooted == q.rooted
    && forall base :: Walk(Start(base, p.rooted), Split(p.rest)) == Walk(Start(base, q.rooted), Split(q.rest))
  }

  /** Walking a path is walking its components. */
  lemma ComponentsKeepMeaning(path: string, base: seq<string>)
    ensures var p := SplitPrefix(Slashes(path));
            Walk(Start(base, p.rooted), Split(p.rest)) == Walk(Start(base, p.rooted), Components(path))
  {
    var p := SplitPrefix(Slashes(path));
    RestHasNoBackslash(Slashes(path));
    SplitIsClean(p.rest);
    assert NormalWith([], 0);
    CollapseKeepsMeaning(Start(base, p.rooted), [], Split(p.rest), p.rooted);
  }

  lemma UnstableChangesPrefix(path: string)
    requires !Stable(path)
    ensures SplitPrefix(Slashes(Normalized(path))).prefix != SplitPrefix(Slashes(path)).prefix
  {
    var p, kept := SplitPrefix(Slashes(path)), Components(path);
    PrefixIsKnown(Slashes(path));
    ComponentsAreNormal(path);
    NormalizedHasNoBackslash(path);
    BodyIsJoin(kept, false);
    if p.prefix == "" {
      BodyDriveLike(kept);
    } else {
      DriveRelativeReadsBack(p, Join(kept));
    }
  }

  /** The join gives a drive-relative path the form of a rooted one. */
  lemma DriveRelativeReadsBack(p: Prefixed, body: string)
    requires KnownPrefix(p) && !p.rooted && p.prefix != "" && body != "" && body[0] != '/'
    ensures SplitPrefix(Render(p.prefix, body)) == Prefixed(p.prefix + "/", body, true)
  {
    var rooted := Prefixed(p.prefix + "/", p.rest, true);
    RootedReadsBack(rooted, body);
    assert Render(p.prefix, body) == Render(rooted.prefix, body);
  }

  /** Normalization keeps the location exactly on the stable paths. */
  lemma NormalizationKeepsLocation(path: string)
    ensures SameLocation(path, Normalized(path)) <==> Stable(path)
  {
    if Stable(path) {
      StableReadsBack(path);
      var p, q := SplitPrefix(Slashes(path)), SplitPrefix(Slashes(Normalized(path)));
      forall base
        ensures Walk(Start(base, p.rooted), Split(p.rest)) == Walk(Start(base, q.rooted), Split(q.rest))
      {
        ComponentsKeepMeaning(path, base);
        ComponentsKeepMeaning(Normalized(path), base);
      }
    } else {
      UnstableChangesPrefix(path);
    }
  }

  // ----- idempotence -----

  /** A second pass may still change a drive-relative path that climbs, and a relative path whose
      first component starts like a drive, unless that component is a bare lower-case drive. */
  ghost predicate Settled(path: string) {
    var p, kept := SplitPrefix(Slashes(path)), Components(path);
    kept != [] ==>
      || p.rooted
      || (p.prefix != "" && kept[0] != "..")
      || (p.prefix == "" && (StartsLikeDrive(kept[0]) ==> |kept[0]| == 2 && Lower(kept[0][0]) == kept[0][0]))
  }

  lemma NoUpsIsRooted(kept: seq<string>, rooted: bool)
    requires Normal(kept, rooted) && kept != []
    ensures Normal(kept, true) <==> kept[0] != ".."
  {
    var ups: nat :| NormalWith(kept, ups) && (rooted ==> ups == 0);
    if kept[0] != ".." { assert NormalWith(kept, 0); }
  }

  lemma DriveRelativeSecondPass(path: string)
    requires SplitPrefix(Slashes(path)).prefix != "" && !SplitPrefix(Slashes(path)).rooted && Components(path) != []
    ensures Normalized(Normalized(path)) == Normalized(path) <==> Components(path)[0] != ".."
  {
    var p, kept := SplitPrefix(Slashes(path)), Components(path);
    var n := Normalized(path);
    PrefixIsKnown(Slashes(path));
    ComponentsAreNormal(path);
    NormalizedHasNoBackslash(path);
    BodyIsJoin(kept, false);
    DriveRelativeReadsBack(p, Join(kept));
    NoUpsIsRooted(kept, false);
    var again := Components(n);
    assert again == Collapse([], kept, true);
    assert n == (p.prefix + "/") + Join(kept);
    if kept[0] != ".." {
      assert [] + kept == kept;
      CollapseFixed([], kept, true);
    } else {
      ComponentsAreNormal(n);
      assert again != kept;
      BodyIsJoin(again, true);
      assert Join(again) != Join(kept);
      assert Normalized(n) == (p.prefix + "/") + Join(again);
      assert n[3..] == Join(kept) && Normalized(n)[3..] == Join(again);
    }
  }

  lemma DriveLikeSecondPass(path: string)
    requires SplitPrefix(Slashes(path)).prefix == "" && Components(path) != []
    requires StartsLikeDrive(Components(path)[0])
    ensures Normalized(Normalized(path)) == Normalized(path)
       <==> |Components(path)[0]| == 2 && Lower(Components(path)[0][0]) == Components(path)[0][0]
  {
    var kept := Components(path);
    var n := Normalized(path);
    PrefixIsKnown(Slashes(path));
    ComponentsAreNormal(path);
    NormalizedHasNoBackslash(path);
    BodyIsJoin(kept, false);
    BodyDriveLike(kept);
    JoinShape(kept);
    var drive := kept[0];
    assert n[0] == drive[0];
    if |drive| > 2 {
      assert n[2] == drive[2] != '/';
      LongDriveDiffers(n);
    } else if |kept| == 1 {
      assert n == [drive[0], ':'];
      BareDriveSecondPass(n);
    } else {
      DriveDirectorySecondPass(n, kept);
    }
  }

  lemma LongDriveDiffers(n: string)
    requires Slashes(n) == n && StartsLikeDrive(n) && |n| > 2 && n[2] != '/'
    ensures Normalized(n) != n
  {
    var p := SplitPrefix(n);
    assert p.prefix == [Lower(n[0])] + ":" && !p.rooted;
    var body := Join(Components(n));
    if body != "" { assert Normalized(n)[2] == '/'; }
  }

  lemma BareDriveSecondPass(n: string)
    requires Slashes(n) == n && StartsLikeDrive(n) && |n| == 2
    ensures Normalized(n) == n <==> Lower(n[0]) == n[0]
  {
    var p := SplitPrefix(n);
    PrefixIsKnown(n);
    assert p.rest == "" && p.prefix == [Lower(n[0])] + ":";
    assert Split("") == [""] && [""][1..] == [];
    assert Components(n) == [];
    assert n == [n[0]] + ":";
    assert Normalized(n) == [Lower(n[0])] + ":";
  }

  lemma DriveDirectorySecondPass(n: string, kept: seq<string>)
    requires Normal(kept, false) && |kept| > 1 && StartsLikeDrive(kept[0]) && |kept[0]| == 2
    requires n == Join(kept) && Slashes(n) == n
    ensures Normalized(n) == n <==> Lower(n[0]) == n[0]
  {
    var tail := kept[1..];
    TailIsRooted(kept);
    JoinShape(kept);
    BodyIsJoin(tail, true);
    BodyCollapses(tail, true);
    var body, c := Join(tail), kept[0][0];
    assert kept[0] == [c] + ":";
    assert n == ([c] + ":/") + body;
    DriveDirectoryReads(c, body);
    assert Normalized(n) == ([Lower(c)] + ":/") + body;
    assert Normalized(n)[0] == Lower(c) && n[0] == c;
  }

  lemma DriveDirectoryReads(c: char, body: string)
    requires IsLetter(c) && (body == "" || body[0] != '/')
    ensures SplitPrefix(([c] + ":/") + body) == Prefixed([Lower(c)] + ":/", body, true)
  {
    var n := ([c] + ":/") + body;
    assert n[2..] == "/" + body && ("/" + body)[1..] == body;
    assert TrimSlashes("/" + body) == TrimSlashes(body) == body;
  }

  lemma TailIsRooted(kept: seq<string>)
    requires Normal(kept, false) && |kept| > 1 && kept[0] != ".."
    ensures Normal(kept[1..], true)
  {
    var ups: nat :| NormalWith(kept, ups);
    assert NormalWith(kept[1..], 0);
  }

  /** Normalizing twice is normalizing once exactly on the settled paths. */
  lemma NormalizationIsIdempotent(path: string)
    ensures Normalized(Normalized(path)) == Normalized(path) <==> Settled(path)
  {
    var p, kept := SplitPrefix(Slashes(path)), Components(path);
    if Stable(path) {
      StableReadsBack(path);
    } else if p.prefix != "" {
      DriveRelativeSecondPass(path);
    } else {
      DriveLikeSecondPass(path);
    }
  }

  // ----- what a caller can see in the path itself -----

  lemma {:induction false} CollapseKeepsOnly(kept: seq<string>, parts: seq<string>, rooted: bool)
    ensures forall c :: c in Collapse(kept, parts, rooted) ==> c in kept || c in parts
    decreases parts
  {
    if parts != [] { CollapseKeepsOnly(Push(kept, parts[0], rooted), parts[1..], rooted); }
  }

  /** Every rooted, UNC or rooted-drive path, and every relative path none of whose written components
      starts like a drive, keeps its location and is normalized once and for all. */
  lemma PlainPathsAreKept(path: string)
    requires var p := SplitPrefix(Slashes(path));
             p.rooted || (p.prefix == "" && forall c :: c in Split(p.rest) ==> !StartsLikeDrive(c))
    ensures SameLocation(path, Normalized(path)) && Normalized(Normalized(path)) == Normalized(path)
  {
    var p := SplitPrefix(Slashes(path));
    CollapseKeepsOnly([], Split(p.rest), p.rooted);
    NormalizationKeepsLocation(path);
    NormalizationIsIdempotent(path);
  }

  /** The join turns the drive-relative `c:x` into a rooted path. */
  lemma DriveRelativeMoves()
    ensures !Stable("c:x") && !SameLocation("c:x", Normalized("c:x"))
  {
    var path := "c:x";
    assert Slashes(path) == path;
    assert path[2..] == "x" && SplitPrefix(path) == Prefixed("c:", "x", false);
    SplitPlain("x");
    assert ["x"][1..] == [];
    assert Components(path) == ["x"];
    NormalizationKeepsLocation(path);
  }

  /** A second pass reads the `..` of the drive-relative path `c:..` against a root and drops it. */
  lemma DriveRelativeClimbs()
    ensures !Settled("c:..") && Normalized(Normalized("c:..")) != Normalized("c:..")
  {
    var path := "c:..";
    assert Slashes(path) == path;
    assert path[2..] == ".." && SplitPrefix(path) == Prefixed("c:", "..", false);
    SplitPlain("..");
    assert [".."][1..] == [];
    assert Components(path) == [".."];
    NormalizationIsIdempotent(path);
  }

  // ----- the grammar of prefixes -----

  /** `low` is the lower-case form of the letter `c`. */
  ghost predicate LetterReads(c: char, low: char) {
    exists i :: 0 <= i < 26 && NthLetter(c, low, i)
  }

  predicate NthLetter(c: char, low: char, i: nat) {
    (c as int == 'A' as int + i || c as int == 'a' as int + i) && low as int == 'a' as int + i
  }

  predicate AllSlashes(s: string) { forall i :: 0 <= i < |s| ==> s[i] == '/' }

  predicate Bare(s: string) { s == "" || s[0] != '/' }

  /** A drive letter, a colon, then any number of slashes, then what is left. */
  ghost predicate DriveReads(path: string, p: Prefixed, low: char, slashes: string) {
    && |path| >= 2 && LetterReads(path[0], low) && path[1] == ':'
    && path[2..] == slashes + p.rest && AllSlashes(slashes) && Bare(p.rest)
    && p.rooted == (slashes != "") && p.prefix == [low, ':'] + (if p.rooted then "/" else "")
  }

  ghost predicate StartsWithDrive(path: string) {
    |path| >= 2 && path[1] == ':' && exists low :: LetterReads(path[0], low)
  }

  /** How a path with forward slashes divides into a prefix and a rest. */
  ghost predicate PrefixReads(path: string, p: Prefixed) {
    || (p.prefix == "//" && p.rooted && path == "//" + p.rest)
    || (p.prefix == "/" && p.rooted && path == "/" + p.rest && Bare(p.rest))
    || (exists low, slashes :: DriveReads(path, p, low, slashes))
    || (p.prefix == "" && !p.rooted && path == p.rest && Bare(path) && !StartsWithDrive(path))
  }

  lemma LetterIsInAlphabet(c: char)
    ensures IsLetter(c) <==> LetterReads(c, Lower(c))
    ensures forall low :: LetterReads(c, low) ==> low == Lower(c)
  {
    if 'a' <= c <= 'z' { assert NthLetter(c, Lower(c), c as int - 'a' as int); }
    if 'A' <= c <= 'Z' { assert NthLetter(c, Lower(c), c as int - 'A' as int); }
  }

  lemma {:induction false} TrimReads(s: string) returns (slashes: string)
    ensures s == slashes + TrimSlashes(s) && AllSlashes(slashes) && Bare(TrimSlashes(s))
    ensures slashes != "" <==> s != "" && s[0] == '/'
  {
    if s != "" && s[0] == '/' {
      var rest := TrimReads(s[1..]);
      slashes := "/" + rest;
    } else {
      slashes := "";
    }
  }

  /** `split_prefix` divides every path the way the grammar says. */
  lemma SplitPrefixReads(path: string)
    ensures PrefixReads(path, SplitPrefix(path))
  {
    var p := SplitPrefix(path);
    if |path| >= 2 && path[0] == '/' && path[1] == '/' {
      assert path == "//" + path[2..];
    } else if |path| >= 1 && path[0] == '/' {
      assert path == "/" + path[1..];
    } else if StartsLikeDrive(path) {
      LetterIsInAlphabet(path[0]);
      var slashes := TrimReads(path[2..]);
      assert DriveReads(path, p, Lower(path[0]), slashes);
    } else if |path| >= 2 {
      LetterIsInAlphabet(path[0]);
    }
  }

  lemma {:induction false} SlashesSplitOnce(a: string, x: string, b: string, y: string)
    requires a + x == b + y && AllSlashes(a) && AllSlashes(b) && Bare(x) && Bare(y)
    ensures a == b && x == y
  {
    if a == "" { assert a + x == x; } else { assert (a + x)[0] == '/'; }
    if b == "" { assert b + y == y; } else { assert (b + y)[0] == '/'; }
    if a != "" && b != "" {
      assert (a + x)[1..] == a[1..] + x && (b + y)[1..] == b[1..] + y;
      SlashesSplitOnce(a[1..], x, b[1..], y);
    }
  }

  /** The grammar divides a path in one way only. */
  lemma PrefixReadsOnce(path: string, p: Prefixed, q: Prefixed)
    requires PrefixReads(path, p) && PrefixReads(path, q)
    ensures p == q
  {
    if path != "" && path[0] == '/' {
      NoDriveAtSlash(path, p);
      NoDriveAtSlash(path, q);
    } else if low, slashes :| DriveReads(path, p, low, slashes) {
      var low', slashes' :| DriveReads(path, q, low', slashes');
      LetterIsInAlphabet(path[0]);
      SlashesSplitOnce(slashes, p.rest, slashes', q.rest);
    }
  }

  lemma NoDriveAtSlash(path: string, p: Prefixed)
    requires PrefixReads(path, p) && path != "" && path[0] == '/'
    ensures if |path| >= 2 && path[1] == '/' then p == Prefixed("//", path[2..], true) else p == Prefixed("/", path[1..], true)
  {
    LetterIsInAlphabet('/');
  }
}
