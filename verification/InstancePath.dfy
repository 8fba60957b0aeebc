/** The JSON Pointers in parser errors (sections 3 and 4 of RFC 6901). */
module InstancePath {

  /** segment.replace('~', "~0").replace('/', "~1"), character by character. */
  function Escape(segment: string): string {
    if segment == "" then
      ""
    else
      (if segment[0] == '~' then "~0" else if segment[0] == '/' then "~1" else [segment[0]]) + Escape(segment[1..])
  }

  function AppendPath(path: string, segment: string): string {
    path + "/" + Escape(segment)
  }

  function DisplayPath(path: string): string {
    if path == "" then "/" else path
  }

  function Decimal(n: nat): string {
    if n < 10 then [(n + '0' as int) as char] else Decimal(n / 10) + [(n % 10 + '0' as int) as char]
  }

  /** The number that decimal digits stand for. */
  function NumberOf(digits: string): nat
    requires forall i :: 0 <= i < |digits| ==> '0' <= digits[i] <= '9'
  {
    if digits == "" then
      0
    else
      10 * NumberOf(digits[..|digits| - 1]) + (digits[|digits| - 1] as int - '0' as int)
  }

  /** An index is written in decimal digits without leading zeros. */
  lemma {:induction false} DecimalIsNumber(n: nat)
    ensures Decimal(n) != "" && forall i :: 0 <= i < |Decimal(n)| ==> '0' <= Decimal(n)[i] <= '9'
    ensures NumberOf(Decimal(n)) == n
    ensures Decimal(n)[0] == '0' ==> n == 0
  {
    if n < 10 {
      assert Decimal(n)[..0] == "";
    } else {
      DecimalIsNumber(n / 10);
      assert Decimal(n)[..|Decimal(n)| - 1] == Decimal(n / 10);
    }
  }

  function PathOf(segments: seq<string>): string {
    if segments == [] then "" else AppendPath(PathOf(segments[..|segments| - 1]), segments[|segments| - 1])
  }

  /** Section 4 of RFC 6901. */
  function Unescape(s: string): string {
    if s == "" then
      ""
    else if s[0] == '~' && |s| >= 2 && s[1] == '0' then
      "~" + Unescape(s[2..])
    else if s[0] == '~' && |s| >= 2 && s[1] == '1' then
      "/" + Unescape(s[2..])
    else
      [s[0]] + Unescape(s[1..])
  }

  lemma {:induction false} UnescapeUndoesEscape(segment: string)
    ensures Unescape(Escape(segment)) == segment
  {
    if segment != "" {
      UnescapeUndoesEscape(segment[1..]);
      var rest := Escape(segment[1..]);
      var s := Escape(segment);
      if segment[0] == '~' || segment[0] == '/' {
        assert s[2..] == rest;
      } else {
        assert s[1..] == rest;
      }
    }
  }

  lemma {:induction false} EscapedHasNoSlash(segment: string)
    ensures '/' !in Escape(segment)
  {
    if segment != "" {
      EscapedHasNoSlash(segment[1..]);
    }
  }

  lemma SlashesEnd(p: string, x: string)
    requires '/' !in x
    ensures var s := p + "/" + x; s[|p|] == '/' && forall k :: |p| < k < |s| ==> s[k] != '/'
  {
    var s := p + "/" + x;
    forall k | |p| < k < |s| ensures s[k] != '/' {
      assert s[k] == x[k - |p| - 1];
    }
  }

  lemma LastSlash(p: string, x: string, q: string, y: string)
    requires '/' !in x && '/' !in y && p + "/" + x == q + "/" + y
    ensures p == q && x == y
  {
    var s, t := p + "/" + x, q + "/" + y;
    SlashesEnd(p, x);
    SlashesEnd(q, y);
    assert |p| == |q|;
    assert p == s[..|p|] && q == t[..|p|] && x == s[|p| + 1..] && y == t[|p| + 1..];
  }

  /** A path determines its segments. */
  lemma {:induction false} PathsAreInjective(a: seq<string>, b: seq<string>)
    requires PathOf(a) == PathOf(b)
    ensures a == b
  {
    if a != [] && b != [] {
      var a', b', x, y := a[..|a| - 1], b[..|b| - 1], a[|a| - 1], b[|b| - 1];
      EscapedHasNoSlash(x);
      EscapedHasNoSlash(y);
      LastSlash(PathOf(a'), Escape(x), PathOf(b'), Escape(y));
      UnescapeUndoesEscape(x);
      UnescapeUndoesEscape(y);
      PathsAreInjective(a', b');
    }
  }

  /** A displayed path does too, except that the root and its member "" both show as "/". */
  lemma DisplayedPathsCollide(a: seq<string>, b: seq<string>)
    ensures DisplayPath(PathOf(a)) == DisplayPath(PathOf(b)) <==>
      a == b || (a == [] && b == [""]) || (a == [""] && b == [])
  {
    assert PathOf([""]) == "/" by {
      assert [""][..0] == [];
    }
    if DisplayPath(PathOf(a)) == DisplayPath(PathOf(b)) {
      if a == [] && b != [] {
        PathsAreInjective(b, [""]);
      } else if b == [] && a != [] {
        PathsAreInjective(a, [""]);
      } else {
        PathsAreInjective(a, b);
      }
    }
  }
}
