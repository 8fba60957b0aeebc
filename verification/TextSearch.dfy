/** Searching a text for a pattern: the first occurrence, and the start of the line a position is on. */
module TextSearch {
  import opened Wrappers

  /** The text reads `pattern` from position `i` on. */
  predicate OccursAt(pattern: string, text: string, i: int) {
    0 <= i <= |text| - |pattern| && forall x {:trigger text[x]} :: i <= x < i + |pattern| ==> text[x] == pattern[x - i]
  }

  ghost predicate Occurs(pattern: string, text: string) {
    exists i :: OccursAt(pattern, text, i)
  }

  ghost predicate NoneBetween(pattern: string, text: string, from: nat, to: nat) {
    forall i :: from <= i < to ==> !OccursAt(pattern, text, i)
  }

  /** The first occurrence at or after `from`, if any. */
  function FindFrom(pattern: string, text: string, from: nat): (r: Option<nat>)
    requires from <= |text|
    ensures r.Some? ==> from <= r.value <= |text| - |pattern|
    decreases |text| - from
  {
    if OccursAt(pattern, text, from) then Some(from)
    else if from == |text| then None
    else FindFrom(pattern, text, from + 1)
  }

  lemma {:induction false} FindIsFirst(pattern: string, text: string, from: nat)
    requires from <= |text|
    ensures match FindFrom(pattern, text, from)
      case Some(at) => OccursAt(pattern, text, at) && NoneBetween(pattern, text, from, at)
      case None => NoneBetween(pattern, text, from, |text| + 1)
    decreases |text| - from
  {
    if !OccursAt(pattern, text, from) && from < |text| {
      FindIsFirst(pattern, text, from + 1);
    }
  }

  lemma FoundAt(pattern: string, text: string, from: nat, at: nat)
    requires from <= at && OccursAt(pattern, text, at) && NoneBetween(pattern, text, from, at)
    ensures FindFrom(pattern, text, from) == Some(at)
  {
    FindIsFirst(pattern, text, from);
  }

  /** One past the last line feed before `at`: where the line of that position starts. */
  function LineStart(text: string, at: nat): (r: nat)
    requires at <= |text|
    ensures r <= at
  {
    if at == 0 || text[at - 1] == '\n' then at else LineStart(text, at - 1)
  }

  ghost predicate StartsLine(text: string, line: nat, at: nat)
    requires at <= |text|
  {
    line <= at && (line == 0 || text[line - 1] == '\n') && forall i :: line <= i < at ==> text[i] != '\n'
  }

  lemma {:induction false} LineStartIsStart(text: string, at: nat)
    requires at <= |text|
    ensures StartsLine(text, LineStart(text, at), at)
  {
    if at != 0 && text[at - 1] != '\n' {
      LineStartIsStart(text, at - 1);
    }
  }

  lemma LineStartsAt(text: string, at: nat, line: nat)
    requires at <= |text| && StartsLine(text, line, at)
    ensures LineStart(text, at) == line
  {
    LineStartIsStart(text, at);
  }
}
