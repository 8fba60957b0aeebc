/** edit_distance against the shortest insert/delete/substitute script, and nearest_identifiers on top of it. */
module EditDistance {

  // ---------- What the distance means ----------

  datatype Edit = Insert(at: nat, c: char) | Delete(at: nat) | Substitute(at: nat, c: char)

  predicate Applicable(s: string, e: Edit) {
    match e
    case Insert(at, _) => at <= |s|
    case Delete(at) => at < |s|
    case Substitute(at, _) => at < |s|
  }

  function Apply(s: string, e: Edit): string
    requires Applicable(s, e)
  {
    match e
    case Insert(at, c) => s[..at] + [c] + s[at..]
    case Delete(at) => s[..at] + s[at + 1..]
    case Substitute(at, c) => s[..at] + [c] + s[at + 1..]
  }

  /** The edits, applied one after the other, turn `from` into `to`. */
  predicate Transforms(from: string, script: seq<Edit>, to: string)
    decreases |script|
  {
    if script == [] then
      from == to
    else
      Applicable(from, script[0]) && Transforms(Apply(from, script[0]), script[1..], to)
  }

  ghost predicate IsShortest(from: string, to: string, n: nat) {
    && (exists script :: Transforms(from, script, to) && |script| == n)
    && (forall script :: Transforms(from, script, to) ==> n <= |script|)
  }

  // ---------- The recurrence behind the table ----------

  function Min(a: nat, b: nat): nat {
    if a <= b then a else b
  }

  function Differs(a: char, b: char): nat {
    if a == b then 0 else 1
  }

  function Distance(s: string, t: string): nat
    decreases |s| + |t|
  {
    if s == [] then
      |t|
    else if t == [] then
      |s|
    else
      var s', t' := s[..|s| - 1], t[..|t| - 1];
      Min(Min(Distance(s', t) + 1, Distance(s, t') + 1), Distance(s', t') + Differs(s[|s| - 1], t[|t| - 1]))
  }

  /** The recurrence, for use where the definition is hidden. */
  lemma {:induction false} Recurrence(s: string, t: string)
    requires s != [] && t != []
    ensures Distance(s, t)
         == Min(Min(Distance(s[..|s| - 1], t) + 1, Distance(s, t[..|t| - 1]) + 1),
                Distance(s[..|s| - 1], t[..|t| - 1]) + Differs(s[|s| - 1], t[|t| - 1]))
  {
  }

  /** Entry (i, j) of the table from its three neighbours. */
  lemma TableEntry(left: string, right: string, i: nat, j: nat)
    requires i < |left| && j < |right|
    ensures Distance(left[..i + 1], right[..j + 1])
         == Min(Min(Distance(left[..i], right[..j + 1]) + 1, Distance(left[..i + 1], right[..j]) + 1),
                Distance(left[..i], right[..j]) + Differs(left[i], right[j]))
  {
    hide Distance;
    Recurrence(left[..i + 1], right[..j + 1]);
    assert left[..i + 1][..i] == left[..i] && right[..j + 1][..j] == right[..j];
  }

  lemma TableEdges(left: string, right: string, i: nat, j: nat)
    requires i <= |left| && j <= |right|
    ensures Distance(left[..0], right[..j]) == j && Distance(left[..i], right[..0]) == i
  {
  }

  /** The rolling rows: `previous` holds the distances from the part of `left` read so far to each prefix of `right`. */
  method Compute(left: string, right: string) returns (distance: nat)
    ensures distance == Distance(left, right)
  {
    hide Distance;
    var previous := seq(|right| + 1, i => i);
    forall j | 0 <= j <= |right| {
      TableEdges(left, right, 0, j);
    }
    for i := 0 to |left|
      invariant |previous| == |right| + 1
      invariant forall j :: 0 <= j <= |right| ==> previous[j] == Distance(left[..i], right[..j])
    {
      var current := [i + 1];
      TableEdges(left, right, i + 1, 0);
      for j := 0 to |right|
        invariant |current| == j + 1
        invariant forall k :: 0 <= k <= j ==> current[k] == Distance(left[..i + 1], right[..k])
      {
        TableEntry(left, right, i, j);
        var next := Min(Min(previous[j + 1] + 1, current[j] + 1), previous[j] + Differs(left[i], right[j]));
        current := current + [next];
      }
      previous := current;
    }
    assert left[..|left|] == left && right[..|right|] == right;
    distance := previous[|right|];
  }

  // ---------- Distance is the length of the shortest script ----------

  lemma {:induction false} Symmetric(s: string, t: string)
    ensures Distance(s, t) == Distance(t, s)
    decreases |s| + |t|
  {
    if s != [] && t != [] {
      var s', t' := s[..|s| - 1], t[..|t| - 1];
      Symmetric(s', t);
      Symmetric(s, t');
      Symmetric(s', t');
    }
  }

  lemma {:induction false} Reflexive(s: string)
    ensures Distance(s, s) == 0
  {
    if s != [] {
      Reflexive(s[..|s| - 1]);
    }
  }

  /** One more or one less character at the end changes the distance by at most one. */
  lemma {:induction false} EndStep(s: string, t: string)
    requires s != []
    ensures Distance(s, t) <= Distance(s[..|s| - 1], t) + 1
    ensures Distance(s[..|s| - 1], t) <= Distance(s, t) + 1
    decreases |s| + |t|, 0
  {
    if t != [] {
      EndStep(s, t[..|t| - 1]);
      EndStepRight(s[..|s| - 1], t);
    }
  }

  lemma {:induction false} EndStepRight(s: string, t: string)
    requires t != []
    ensures Distance(s, t) <= Distance(s, t[..|t| - 1]) + 1
    ensures Distance(s, t[..|t| - 1]) <= Distance(s, t) + 1
    decreases |s| + |t|, 1
  {
    Symmetric(s, t);
    Symmetric(s, t[..|t| - 1]);
    EndStep(t, s);
  }

  /** Replacing at most one character by at most one character, anywhere, changes the distance by at most one. */
  lemma {:induction false} MiddleStep(x: string, a: string, b: string, y: string, t: string)
    requires |a| <= 1 && |b| <= 1
    ensures Distance(x + a + y, t) <= Distance(x + b + y, t) + 1
    decreases |y| + |t|
  {
    hide Distance;
    var u, v := x + a + y, x + b + y;
    if t == [] {
      LengthToEmpty(u);
      LengthToEmpty(v);
    } else if y == [] && (a == [] || b == []) {
      assert u == x + a && v == x + b;
      if a != [] {
        EndStep(u, t);
        assert u[..|u| - 1] == v;
      } else if b != [] {
        EndStep(v, t);
        assert v[..|v| - 1] == u;
      } else {
        assert u == v;
      }
    } else {
      Recurrence(u, t);
      Recurrence(v, t);
      MiddleStep(x, a, b, y, t[..|t| - 1]);
      if y == [] {
        assert u[..|u| - 1] == x && v[..|v| - 1] == x;
      } else {
        var y' := y[..|y| - 1];
        assert u[..|u| - 1] == x + a + y' && v[..|v| - 1] == x + b + y' && u[|u| - 1] == v[|v| - 1];
        MiddleStep(x, a, b, y', t);
        MiddleStep(x, a, b, y', t[..|t| - 1]);
      }
    }
  }

  lemma LengthToEmpty(s: string)
    ensures Distance(s, []) == |s| && Distance([], s) == |s|
  {
  }

  lemma EditStep(s: string, e: Edit, t: string)
    requires Applicable(s, e)
    ensures Distance(s, t) <= Distance(Apply(s, e), t) + 1
  {
    match e
    case Insert(at, c) =>
      assert s == s[..at] + [] + s[at..];
      MiddleStep(s[..at], [], [c], s[at..], t);
    case Delete(at) =>
      assert s == s[..at] + [s[at]] + s[at + 1..] && Apply(s, e) == s[..at] + [] + s[at + 1..];
      MiddleStep(s[..at], [s[at]], [], s[at + 1..], t);
    case Substitute(at, c) =>
      assert s == s[..at] + [s[at]] + s[at + 1..];
      MiddleStep(s[..at], [s[at]], [c], s[at + 1..], t);
  }

  lemma {:induction false} NoScriptIsShorter(s: string, script: seq<Edit>, t: string)
    requires Transforms(s, script, t)
    ensures Distance(s, t) <= |script|
    decreases |script|
  {
    hide Distance, Apply;
    if script == [] {
      Reflexive(s);
    } else {
      NoScriptIsShorter(Apply(s, script[0]), script[1..], t);
      EditStep(s, script[0], t);
    }
  }

  lemma {:induction false} ScriptsCompose(s: string, left: seq<Edit>, t: string, right: seq<Edit>, u: string)
    requires Transforms(s, left, t) && Transforms(t, right, u)
    ensures Transforms(s, left + right, u)
    decreases |left|
  {
    hide Apply;
    if left == [] {
      assert left + right == right;
    } else {
      ScriptsCompose(Apply(s, left[0]), left[1..], t, right, u);
      assert (left + right)[1..] == left[1..] + right;
    }
  }

  /** A script works as well in front of a common ending. */
  lemma {:induction false} ScriptsKeepEndings(s: string, script: seq<Edit>, t: string, ending: string)
    requires Transforms(s, script, t)
    ensures Transforms(s + ending, script, t + ending)
    decreases |script|
  {
    hide Apply;
    if script != [] {
      ScriptsKeepEndings(Apply(s, script[0]), script[1..], t, ending);
      EditsKeepEndings(s, script[0], ending);
    }
  }

  lemma EditsKeepEndings(s: string, e: Edit, ending: string)
    requires Applicable(s, e)
    ensures Applicable(s + ending, e) && Apply(s + ending, e) == Apply(s, e) + ending
  {
    var whole := s + ending;
    assert whole[..e.at] == s[..e.at];
    if e.Insert? {
      assert whole[e.at..] == s[e.at..] + ending;
    } else {
      assert whole[e.at + 1..] == s[e.at + 1..] + ending;
    }
  }

  lemma {:induction false} ShortestScript(s: string, t: string) returns (script: seq<Edit>)
    ensures Transforms(s, script, t) && |script| == Distance(s, t)
    decreases |s| + |t|
  {
    hide Distance, Transforms;
    LengthToEmpty(s);
    LengthToEmpty(t);
    if s != [] && t != [] {
      Recurrence(s, t);
    }
    if s == [] && t == [] {
      script := [];
      NoEdits(s);
    } else if t == [] || (s != [] && Distance(s, t) == Distance(s[..|s| - 1], t) + 1) {
      LengthToEmpty(s[..|s| - 1]);
      var rest := ShortestScript(s[..|s| - 1], t);
      var first := Delete(|s| - 1);
      assert Apply(s, first) == s[..|s| - 1];
      script := EditFirst(s, first, rest, t);
    } else if s == [] || Distance(s, t) == Distance(s, t[..|t| - 1]) + 1 {
      var t' := t[..|t| - 1];
      LengthToEmpty(t');
      var rest := ShortestScript(s, t');
      var last := Insert(|t'|, t[|t| - 1]);
      assert Apply(t', last) == t;
      NoEdits(t);
      var tail := EditFirst(t', last, [], t);
      ScriptsCompose(s, rest, t', tail, t);
      script := rest + tail;
    } else {
      var s', t', c, d := s[..|s| - 1], t[..|t| - 1], s[|s| - 1], t[|t| - 1];
      var rest := ShortestScript(s', t');
      ScriptsKeepEndings(s', rest, t', [d]);
      assert t == t' + [d] && s == s' + [c];
      if c == d {
        script := rest;
      } else {
        var first := Substitute(|s| - 1, d);
        assert Apply(s, first) == s' + [d];
        script := EditFirst(s, first, rest, t);
      }
    }
  }

  lemma NoEdits(s: string)
    ensures Transforms(s, [], s)
  {
  }

  lemma EditFirst(s: string, first: Edit, rest: seq<Edit>, t: string) returns (script: seq<Edit>)
    requires Applicable(s, first) && Transforms(Apply(s, first), rest, t)
    ensures Transforms(s, script, t) && |script| == |rest| + 1
  {
    hide Apply;
    script := [first] + rest;
    assert script[1..] == rest;
  }

  /** The computed distance is the length of a shortest script. */
  lemma DistanceIsShortest(s: string, t: string)
    ensures IsShortest(s, t, Distance(s, t))
  {
    hide Distance;
    var script := ShortestScript(s, t);
    forall other | Transforms(s, other, t)
      ensures Distance(s, t) <= |other|
    {
      NoScriptIsShorter(s, other, t);
    }
  }

  lemma Triangle(s: string, t: string, u: string)
    ensures Distance(s, u) <= Distance(s, t) + Distance(t, u)
  {
    hide Distance;
    var left := ShortestScript(s, t);
    var right := ShortestScript(t, u);
    ScriptsCompose(s, left, t, right, u);
    NoScriptIsShorter(s, left + right, u);
  }

  /** Lengths differ by at most the distance. */
  lemma LengthBound(s: string, t: string)
    ensures |s| <= |t| + Distance(s, t) && |t| <= |s| + Distance(s, t)
  {
    hide Distance;
    LengthToEmpty(s);
    LengthToEmpty(t);
    Triangle([], s, t);
    Triangle(s, t, []);
  }
}
