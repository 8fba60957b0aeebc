/** The names a source bundle may hold: validate_archive_path over UTF-8 bytes. */
module ArchivePath {
  import opened Wrappers
  import opened Bytes

  const SLASH: bv8 := 0x2f
  const BACKSLASH: bv8 := 0x5c
  const DOT: bv8 := 0x2e
  const COLON: bv8 := 0x3a

  predicate Continuation(b: bv8) {
    0x80 <= b <= 0xbf
  }

  /** Well-formed UTF-8 (section 4 of RFC 3629), as std::str::from_utf8 accepts it. */
  predicate IsUtf8(s: Bytes) {
    if s == [] then
      true
    else if s[0] <= 0x7f then
      IsUtf8(s[1..])
    else if 0xc2 <= s[0] <= 0xdf then
      |s| >= 2 && Continuation(s[1]) && IsUtf8(s[2..])
    else if 0xe0 <= s[0] <= 0xef then
      && |s| >= 3
      && Continuation(s[1])
      && (s[0] == 0xe0 ==> 0xa0 <= s[1])
      && (s[0] == 0xed ==> s[1] <= 0x9f)
      && Continuation(s[2])
      && IsUtf8(s[3..])
    else if 0xf0 <= s[0] <= 0xf4 then
      && |s| >= 4
      && Continuation(s[1])
      && (s[0] == 0xf0 ==> 0x90 <= s[1])
      && (s[0] == 0xf4 ==> s[1] <= 0x8f)
      && Continuation(s[2])
      && Continuation(s[3])
      && IsUtf8(s[4..])
    else
      false
  }

  predicate EndsWithSlash(path: Bytes) {
    path != [] && path[|path| - 1] == SLASH
  }

  /** str::split('/'): always at least one component. */
  function SplitSlash(path: Bytes): (components: seq<Bytes>)
    ensures components != []
  {
    if path == [] then
      [[]]
    else
      var rest := SplitSlash(path[1..]);
      if path[0] == SLASH then [[]] + rest else [[path[0]] + rest[0]] + rest[1..]
  }

  function Body(path: Bytes): Bytes {
    if EndsWithSlash(path) then path[..|path| - 1] else path
  }

  function ToLower(b: bv8): bv8 {
    if 0x41 <= b <= 0x5a then b + 0x20 else b
  }

  predicate IsGitName(component: Bytes) {
    && |component| == 4
    && component[0] == DOT
    && ToLower(component[1]) == 0x67
    && ToLower(component[2]) == 0x69
    && ToLower(component[3]) == 0x74
  }

  predicate IsWindowsDrive(component: Bytes) {
    && |component| == 2
    && (0x41 <= component[0] <= 0x5a || 0x61 <= component[0] <= 0x7a)
    && component[1] == COLON
  }

  predicate ComponentOk(component: Bytes) {
    component != [] && component != [DOT] && component != [DOT, DOT] && !IsGitName(component)
  }

  /** validate_archive_path succeeds. */
  predicate Accepts(path: Bytes) {
    && path != []
    && path[0] != SLASH
    && BACKSLASH !in path
    && 0 !in path
    && Body(path) != []
    && !IsWindowsDrive(SplitSlash(Body(path))[0])
    && forall i :: 0 <= i < |SplitSlash(Body(path))| ==> ComponentOk(SplitSlash(Body(path))[i])
  }

  // ---------- What acceptance buys: extraction stays below the target directory ----------

  function JoinSlash(components: seq<Bytes>): Bytes {
    if components == [] then
      []
    else if |components| == 1 then
      components[0]
    else
      components[0] + [0x2f] + JoinSlash(components[1..])
  }

  lemma {:induction false} JoinUndoesSplit(path: Bytes)
    ensures JoinSlash(SplitSlash(path)) == path
  {
    if path != [] {
      JoinUndoesSplit(path[1..]);
    }
  }

  /** Where walking the components from `directory` ends; None when ".." leaves the start. */
  function Walk(directory: seq<Bytes>, components: seq<Bytes>): Option<seq<Bytes>>
    decreases |components|
  {
    if components == [] then
      Some(directory)
    else if components[0] == [] || components[0] == [DOT] then
      Walk(directory, components[1..])
    else if components[0] == [DOT, DOT] then
      if directory == [] then None else Walk(directory[..|directory| - 1], components[1..])
    else
      Walk(directory + [components[0]], components[1..])
  }

  lemma {:induction false} WalkPlain(directory: seq<Bytes>, components: seq<Bytes>)
    requires forall i :: 0 <= i < |components| ==> ComponentOk(components[i])
    ensures Walk(directory, components) == Some(directory + components)
    decreases |components|
  {
    if components == [] {
      assert directory + components == directory;
    } else {
      WalkPlain(directory + [components[0]], components[1..]);
      assert directory + components == directory + [components[0]] + components[1..];
    }
  }

  /** An accepted path names, below every directory, exactly its own components, never "..", "." or Git metadata. */
  lemma AcceptedStaysInside(directory: seq<Bytes>, path: Bytes)
    requires Accepts(path)
    ensures exists components ::
              && Walk(directory, SplitSlash(path)) == Some(directory + components)
              && components != []
              && (forall i :: 0 <= i < |components| ==> ComponentOk(components[i]))
              && path == JoinSlash(components) + (if EndsWithSlash(path) then [SLASH] else [])
  {
    var components := SplitSlash(Body(path));
    WalkPlain(directory, components);
    JoinUndoesSplit(Body(path));
    if EndsWithSlash(path) {
      SplitTrailing(Body(path));
      assert Body(path) + [SLASH] == path;
      WalkTrailing(directory, components);
    }
    assert Walk(directory, SplitSlash(path)) == Some(directory + components);
  }

  lemma {:induction false} SplitTrailing(body: Bytes)
    ensures SplitSlash(body + [SLASH]) == SplitSlash(body) + [[]]
  {
    if body == [] {
      assert (body + [SLASH])[1..] == [];
    } else {
      SplitTrailing(body[1..]);
      assert (body + [SLASH])[1..] == body[1..] + [SLASH];
    }
  }

  lemma {:induction false} WalkTrailing(directory: seq<Bytes>, components: seq<Bytes>)
    ensures Walk(directory, components + [[]]) == Walk(directory, components)
    decreases |components|
  {
    if components == [] {
      assert components + [[]] == [[]];
    } else {
      assert (components + [[]])[1..] == components[1..] + [[]];
      if components[0] == [] || components[0] == [DOT] {
        WalkTrailing(directory, components[1..]);
      } else if components[0] == [DOT, DOT] {
        if directory != [] {
          WalkTrailing(directory[..|directory| - 1], components[1..]);
        }
      } else {
        WalkTrailing(directory + [components[0]], components[1..]);
      }
    }
  }

  // ---------- Exactly the accepted names ----------

  /** ".git" in small and capital letters. */
  const GIT_NAMES: set<Bytes> := {
    [0x2e, 0x67, 0x69, 0x74], [0x2e, 0x67, 0x69, 0x54], [0x2e, 0x67, 0x49, 0x74], [0x2e, 0x67, 0x49, 0x54],
    [0x2e, 0x47, 0x69, 0x74], [0x2e, 0x47, 0x69, 0x54], [0x2e, 0x47, 0x49, 0x74], [0x2e, 0x47, 0x49, 0x54]}

  /** A component: no slash, backslash or NUL in it, and not "", ".", ".." or Git metadata. */
  ghost predicate IsName(component: Bytes) {
    && component != [] && component != [0x2e] && component != [0x2e, 0x2e] && component !in GIT_NAMES
    && forall b :: b in component ==> b != 0x2f && b != 0x5c && b != 0x00
  }

  /** A letter and a colon. */
  ghost predicate IsDrive(component: Bytes) {
    && |component| == 2 && component[1] == 0x3a
    && (0x41 <= component[0] <= 0x5a || 0x61 <= component[0] <= 0x7a)
  }

  ghost predicate IsPath(components: seq<Bytes>) {
    components != [] && !IsDrive(components[0]) && forall i :: 0 <= i < |components| ==> IsName(components[i])
  }

  /** The path is these components joined by slashes, with or without one more slash. */
  ghost predicate Joins(path: Bytes, components: seq<Bytes>) {
    path == JoinSlash(components) || path == JoinSlash(components) + [0x2f]
  }

  lemma GitNames(component: Bytes)
    ensures IsGitName(component) <==> component in GIT_NAMES
  {
    if |component| == 4 {
      LowerOf(component[1], 0x67);
      LowerOf(component[2], 0x69);
      LowerOf(component[3], 0x74);
      assert component == [component[0], component[1], component[2], component[3]];
    }
  }

  lemma LowerOf(b: bv8, small: bv8)
    requires 0x61 <= small <= 0x7a
    ensures ToLower(b) == small <==> b == small || b == small - 0x20
  {
  }

  lemma {:induction false} SplitBytes(path: Bytes, i: nat)
    requires i < |SplitSlash(path)|
    ensures forall b :: b in SplitSlash(path)[i] ==> b in path && b != 0x2f
  {
    if path != [] {
      var rest := SplitSlash(path[1..]);
      if path[0] == SLASH {
        if i > 0 {
          SplitBytes(path[1..], i - 1);
        }
      } else {
        SplitBytes(path[1..], i);
      }
    }
  }

  lemma {:induction false} SplitUndoesJoin(components: seq<Bytes>)
    requires components != [] && forall i :: 0 <= i < |components| ==> 0x2f !in components[i]
    ensures SplitSlash(JoinSlash(components)) == components
  {
    if |components| == 1 {
      SplitPlain(components[0]);
    } else {
      SplitUndoesJoin(components[1..]);
      SplitAfter(components[0], JoinSlash(components[1..]));
      assert components == [components[0]] + components[1..];
    }
  }

  lemma {:induction false} SplitPlain(component: Bytes)
    requires 0x2f !in component
    ensures SplitSlash(component) == [component]
  {
    if component != [] {
      SplitPlain(component[1..]);
      assert component[0] in component && component == [component[0]] + component[1..];
    }
  }

  lemma {:induction false} SplitAfter(component: Bytes, rest: Bytes)
    requires 0x2f !in component
    ensures SplitSlash(component + [0x2f] + rest) == [component] + SplitSlash(rest)
  {
    var path := component + [0x2f] + rest;
    if component == [] {
      assert path[1..] == rest;
    } else {
      SplitAfter(component[1..], rest);
      assert path[1..] == component[1..] + [0x2f] + rest;
      assert component[0] in component && component == [component[0]] + component[1..];
    }
  }

  lemma {:induction false} JoinBytes(components: seq<Bytes>, b: bv8)
    requires b in JoinSlash(components)
    ensures b == 0x2f || exists i :: 0 <= i < |components| && b in components[i]
  {
    if |components| > 1 && b !in components[0] && b != 0x2f {
      JoinBytes(components[1..], b);
      var i :| 0 <= i < |components[1..]| && b in components[1..][i];
      assert components[i + 1] == components[1..][i];
    }
  }

  lemma {:induction false} JoinEnds(components: seq<Bytes>)
    requires IsPath(components) || (components != [] && forall i :: 0 <= i < |components| ==> IsName(components[i]))
    ensures var path := JoinSlash(components); path != [] && path[0] != 0x2f && path[|path| - 1] != 0x2f
  {
    var first, last := components[0], components[|components| - 1];
    assert IsName(first) && first[0] in first && IsName(last) && last[|last| - 1] in last;
    if |components| > 1 {
      JoinEnds(components[1..]);
    }
  }

  /** validate_archive_path accepts exactly the joined names that do not start with a drive. */
  lemma AcceptsExactly(path: Bytes)
    ensures Accepts(path) <==> exists components :: IsPath(components) && Joins(path, components)
  {
    if Accepts(path) {
      var components := SplitSlash(Body(path));
      JoinUndoesSplit(Body(path));
      forall i | 0 <= i < |components| ensures IsName(components[i]) {
        SplitBytes(Body(path), i);
        GitNames(components[i]);
      }
      assert EndsWithSlash(path) ==> path == Body(path) + [0x2f];
      assert IsPath(components) && Joins(path, components);
    }
    if exists components :: IsPath(components) && Joins(path, components) {
      var components :| IsPath(components) && Joins(path, components);
      JoinedIsAccepted(path, components);
    }
  }

  lemma JoinedIsAccepted(path: Bytes, components: seq<Bytes>)
    requires IsPath(components) && Joins(path, components)
    ensures Accepts(path)
  {
    hide JoinSlash, SplitSlash, IsGitName;
    var body := JoinSlash(components);
    JoinEnds(components);
    assert Body(path) == body;
    forall i | 0 <= i < |components| ensures 0x2f !in components[i] && ComponentOk(components[i]) {
      assert IsName(components[i]);
      GitNames(components[i]);
    }
    SplitUndoesJoin(components);
    forall b | b in path ensures b != BACKSLASH && b != 0 {
      if b != 0x2f {
        JoinBytes(components, b);
        var i :| 0 <= i < |components| && b in components[i];
        assert IsName(components[i]);
      }
    }
  }
}
