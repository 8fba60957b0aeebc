/** Deterministic Connection identifiers: a sanitized label, cut to length, before a hash. */
module ConnectionId {

  /** Lowercase ASCII letters and digits. */
  predicate Letter(c: char) {
    'a' <= c <= 'z' || '0' <= c <= '9'
  }

  /** What is relied on of char::to_lowercase: no ASCII capital comes out, and kept characters are fixed. */
  ghost predicate Lowers(lower: char -> string) {
    && (forall c, i :: 0 <= i < |lower(c)| ==> !('A' <= lower(c)[i] <= 'Z'))
    && (forall c :: Letter(c) || c == '_' ==> lower(c) == [c])
  }

  predicate AsciiAlphanumeric(c: char) {
    Letter(c) || 'A' <= c <= 'Z'
  }

  predicate Separator(c: char) {
    c == '_' || c == '-' || c == '.' || c == '/' || c == ':'
  }

  /** The text of separators and letters that one input reads as. */
  function Reading(lower: char -> string, input: string): string {
    if input == "" then "" else Reading(lower, input[..|input| - 1]) + Kept(lower(input[|input| - 1]))
  }

  function Kept(s: string): string {
    if s == "" then ""
    else
      Kept(s[..|s| - 1]) + KeptChar(s[|s| - 1])
  }

  function KeptChar(c: char): string {
    if AsciiAlphanumeric(c) then [c] else if Separator(c) then "_" else ""
  }

  lemma KeptSnoc(text: string, s: string, j: nat)
    requires j < |s|
    ensures text + Kept(s[..j + 1]) == text + Kept(s[..j]) + KeptChar(s[j])
  {
    assert s[..j + 1][..j] == s[..j];
  }

  predicate EndsWithMark(s: string) {
    s != "" && s[|s| - 1] == '_'
  }

  /** The letters of a text, each with whether a mark separates it from the letter before it. */
  function Tokens(s: string): seq<(char, bool)> {
    if s == "" then []
    else
      var before := Tokens(s[..|s| - 1]);
      if s[|s| - 1] == '_' then before else before + [(s[|s| - 1], before != [] && EndsWithMark(s[..|s| - 1]))]
  }

  // ---------- The letters of an input and the breaks between them ----------

  function Lowered(lower: char -> string, input: string): string {
    if input == "" then "" else Lowered(lower, input[..|input| - 1]) + lower(input[|input| - 1])
  }

  predicate LetterOrDigit(c: char) {
    'a' <= c <= 'z' || 'A' <= c <= 'Z' || '0' <= c <= '9'
  }

  /** A separator stands after the last letter or digit. */
  ghost predicate SeparatorSince(t: string) {
    exists i :: 0 <= i < |t| && t[i] in {'_', '-', '.', '/', ':'} && forall j :: i < j < |t| ==> !LetterOrDigit(t[j])
  }

  /** The ASCII letters and digits of a text, each with whether a separator stands between it and the one before. */
  ghost function BrokenLetters(t: string): seq<(char, bool)> {
    if t == "" then
      []
    else
      var front, c := t[..|t| - 1], t[|t| - 1];
      var before := BrokenLetters(front);
      if LetterOrDigit(c) then before + [(c, before != [] && SeparatorSince(front))] else before
  }

  lemma SeparatorStep(t: string)
    requires t != ""
    ensures var front, c := t[..|t| - 1], t[|t| - 1];
            SeparatorSince(t) <==>
              c in {'_', '-', '.', '/', ':'} || (!LetterOrDigit(c) && SeparatorSince(front))
  {
    var front, n := t[..|t| - 1], |t| - 1;
    if SeparatorSince(front) {
      var i :| 0 <= i < |front| && front[i] in {'_', '-', '.', '/', ':'}
               && forall j :: i < j < |front| ==> !LetterOrDigit(front[j]);
      assert t[i] == front[i] && forall j :: i < j < n ==> t[j] == front[j];
    }
    if SeparatorSince(t) {
      var i :| 0 <= i < |t| && t[i] in {'_', '-', '.', '/', ':'} && forall j :: i < j < |t| ==> !LetterOrDigit(t[j]);
      if i < n {
        assert front[i] == t[i] && forall j :: i < j < |front| ==> front[j] == t[j];
      }
    }
  }

  lemma {:induction false} KeptExactly(t: string)
    ensures EndsWithMark(Kept(t)) <==> SeparatorSince(t)
    ensures Tokens(Kept(t)) == BrokenLetters(t)
  {
    hide SeparatorSince;
    if t == "" {
      assert !SeparatorSince(t) by { NoSeparator(); }
    } else {
      var front, c := t[..|t| - 1], t[|t| - 1];
      KeptExactly(front);
      SeparatorStep(t);
      var so, all := Kept(front), Kept(t);
      assert all == so + KeptChar(c);
      if KeptChar(c) != "" {
        assert all[..|all| - 1] == so;
      } else {
        assert all == so;
      }
    }
  }

  lemma NoSeparator()
    ensures !SeparatorSince("")
  {
  }

  lemma {:induction false} KeptConcat(a: string, b: string)
    ensures Kept(a + b) == Kept(a) + Kept(b)
  {
    if b == "" {
      assert a + b == a;
    } else {
      assert (a + b)[..|a + b| - 1] == a + b[..|b| - 1];
      KeptConcat(a, b[..|b| - 1]);
    }
  }

  lemma {:induction false} ReadingIsKept(lower: char -> string, input: string)
    ensures Reading(lower, input) == Kept(Lowered(lower, input))
  {
    if input != "" {
      ReadingIsKept(lower, input[..|input| - 1]);
      KeptConcat(Lowered(lower, input[..|input| - 1]), lower(input[|input| - 1]));
    }
  }

  /** What the reading of an input keeps: its letters and digits in small letters, and where separators stand. */
  lemma ReadingExactly(lower: char -> string, input: string)
    ensures Tokens(Reading(lower, input)) == BrokenLetters(Lowered(lower, input))
  {
    ReadingIsKept(lower, input);
    KeptExactly(Lowered(lower, input));
  }

  ghost predicate NoDoubleMark(s: string) {
    forall i {:trigger s[i]} :: 0 < i < |s| && s[i] == '_' ==> s[i - 1] != '_'
  }

  ghost predicate Spelled(s: string) {
    forall i :: 0 <= i < |s| ==> Letter(s[i]) || s[i] == '_'
  }

  /** Groups of letters joined by single marks. */
  ghost predicate Clean(s: string) {
    Spelled(s) && NoDoubleMark(s) && (s != "" ==> s[0] != '_' && s[|s| - 1] != '_')
  }

  lemma TokensInit(s: string)
    requires s != "" && s[|s| - 1] != '_'
    ensures var init, all := s[..|s| - 1], Tokens(s);
      && all != [] && all[..|all| - 1] == Tokens(init)
      && all[|all| - 1] == (s[|s| - 1], Tokens(init) != [] && EndsWithMark(init))
  {
  }

  lemma MarkHasNoToken(s: string)
    requires EndsWithMark(s)
    ensures Tokens(s) == Tokens(s[..|s| - 1])
  {
  }

  /** A clean text is determined by its letters and the breaks between them. */
  lemma {:induction false} CleanIsDetermined(a: string, b: string)
    requires Clean(a) && Clean(b) && Tokens(a) == Tokens(b)
    ensures a == b
  {
    hide Tokens;
    NoTokens(a);
    NoTokens(b);
    if a != "" && b != "" {
      var x, y := a[..|a| - 1], b[..|b| - 1];
      TokensInit(a);
      TokensInit(b);
      NoTokens(x);
      NoTokens(y);
      assert EndsWithMark(x) <==> EndsWithMark(y);
      if EndsWithMark(x) {
        MarkHasNoToken(x);
        MarkHasNoToken(y);
        CleanIsDetermined(x[..|x| - 1], y[..|y| - 1]);
      } else {
        CleanIsDetermined(x, y);
      }
    }
  }

  lemma {:induction false} NoTokens(s: string)
    requires NoDoubleMark(s) && (s != "" ==> s[0] != '_')
    ensures Tokens(s) == [] <==> s == ""
  {
    if s != "" {
      NoTokens(s[..|s| - 1]);
    }
  }

  function TrimStart(s: string): (r: string)
    ensures |r| <= |s|
  {
    if s != "" && s[0] == '_' then TrimStart(s[1..]) else s
  }

  function TrimEnd(s: string): (r: string)
    ensures |r| <= |s|
  {
    if EndsWithMark(s) then TrimEnd(s[..|s| - 1]) else s
  }

  lemma {:induction false} TrimStartKeepsTokens(s: string)
    ensures Tokens(TrimStart(s)) == Tokens(s)
    ensures TrimStart(s) == s[|s| - |TrimStart(s)|..] && (TrimStart(s) != "" ==> TrimStart(s)[0] != '_')
  {
    if s != "" && s[0] == '_' {
      TrimStartKeepsTokens(s[1..]);
      assert s[|s| - |TrimStart(s)|..] == s[1..][|s| - 1 - |TrimStart(s)|..];
      LeadingMark(s);
    }
  }

  lemma {:induction false} LeadingMark(s: string)
    requires s != "" && s[0] == '_'
    ensures Tokens(s) == Tokens(s[1..])
  {
    if |s| == 1 {
      assert Tokens(s[..0]) == [];
    } else {
      var init := s[..|s| - 1];
      LeadingMark(init);
      assert init[1..] == s[1..][..|s| - 2];
      if |s| == 2 {
        assert Tokens(init) == [];
      }
    }
  }

  lemma {:induction false} TrimEndKeepsTokens(s: string)
    ensures Tokens(TrimEnd(s)) == Tokens(s)
    ensures TrimEnd(s) == s[..|TrimEnd(s)|] && !EndsWithMark(TrimEnd(s))
  {
    if EndsWithMark(s) {
      TrimEndKeepsTokens(s[..|s| - 1]);
      assert s[..|TrimEnd(s)|] == s[..|s| - 1][..|TrimEnd(s)|];
    }
  }

  lemma {:induction false} TrimEndCutsMarks(s: string)
    ensures forall i :: |TrimEnd(s)| <= i < |s| ==> s[i] == '_'
  {
    if EndsWithMark(s) {
      TrimEndCutsMarks(s[..|s| - 1]);
      assert forall i :: 0 <= i < |s| - 1 ==> s[i] == s[..|s| - 1][i];
    }
  }

  lemma TrimmedIsClean(s: string)
    requires Spelled(s) && NoDoubleMark(s)
    ensures Clean(TrimEnd(TrimStart(s))) && Tokens(TrimEnd(TrimStart(s))) == Tokens(s)
  {
    TrimStartKeepsTokens(s);
    TrimEndKeepsTokens(TrimStart(s));
  }

  /** What the loop has collected of a text. */
  ghost predicate Collected(out: string, lastUnderscore: bool, text: string) {
    && Spelled(out) && NoDoubleMark(out) && Tokens(out) == Tokens(text)
    && (lastUnderscore <==> EndsWithMark(out)) && (EndsWithMark(text) <==> EndsWithMark(out))
  }

  lemma PushLetter(out: string, last: bool, text: string, c: char)
    requires Collected(out, last, text) && Letter(c)
    ensures Collected(out + [c], false, text + [c])
  {
    assert (out + [c])[..|out|] == out && (text + [c])[..|text|] == text;
  }

  lemma PushMark(out: string, last: bool, text: string)
    requires Collected(out, last, text)
    ensures Collected(if last then out else out + "_", true, text + "_")
  {
    assert (out + "_")[..|out|] == out && (text + "_")[..|text|] == text;
  }

  /** sanitize_identifier. */
  method Sanitize(lower: char -> string, input: string) returns (r: string)
    requires Lowers(lower)
    ensures Clean(r) && Tokens(r) == BrokenLetters(Lowered(lower, input))
  {
    var out, lastUnderscore := "", false;
    for i := 0 to |input|
      invariant Collected(out, lastUnderscore, Reading(lower, input[..i]))
    {
      var s := lower(input[i]);
      out, lastUnderscore := Collect(s, out, lastUnderscore, Reading(lower, input[..i]));
      assert input[..i + 1][..i] == input[..i];
    }
    assert input[..|input|] == input;
    ReadingExactly(lower, input);
    TrimmedIsClean(out);
    r := TrimEnd(TrimStart(out));
  }

  method Collect(s: string, out0: string, last0: bool, ghost text: string) returns (out: string, lastUnderscore: bool)
    requires Collected(out0, last0, text) && forall i :: 0 <= i < |s| ==> !('A' <= s[i] <= 'Z')
    ensures Collected(out, lastUnderscore, text + Kept(s))
  {
    hide Collected, Kept;
    out, lastUnderscore := out0, last0;
    NothingKept(text);
    for j := 0 to |s|
      invariant Collected(out, lastUnderscore, text + Kept(s[..j]))
    {
      var c := s[j];
      KeptSnoc(text, s, j);
      ghost var read := text + Kept(s[..j]);
      if AsciiAlphanumeric(c) {
        PushLetter(out, lastUnderscore, read, c);
        out, lastUnderscore := out + [c], false;
      } else if Separator(c) {
        PushMark(out, lastUnderscore, read);
        if !lastUnderscore {
          out, lastUnderscore := out + "_", true;
        }
      } else {
        assert read + "" == read;
      }
    }
    assert s[..|s|] == s;
  }

  lemma NothingKept(text: string)
    ensures text + Kept("") == text
  {
  }

  lemma KeptOne(c: char)
    requires Letter(c) || c == '_'
    ensures Kept([c]) == [c]
  {
    assert [c][..0] == "" && Kept("") == "";
  }

  lemma {:induction false} CleanReadsAsItself(lower: char -> string, s: string)
    requires Lowers(lower) && Spelled(s)
    ensures Reading(lower, s) == s
  {
    hide Kept;
    if s != "" {
      var c := s[|s| - 1];
      CleanReadsAsItself(lower, s[..|s| - 1]);
      KeptOne(c);
    }
  }

  /** Sanitizing is stable: a clean text is the only clean text with its tokens. */
  lemma SanitizeIsIdempotent(lower: char -> string, input: string, once: string, twice: string)
    requires Lowers(lower)
    requires Clean(once) && Tokens(once) == BrokenLetters(Lowered(lower, input))
    requires Clean(twice) && Tokens(twice) == BrokenLetters(Lowered(lower, once))
    ensures twice == once
  {
    ReadingExactly(lower, once);
    CleanReadsAsItself(lower, once);
    CleanIsDetermined(twice, once);
  }

  ghost predicate IsHash(s: string) {
    |s| == 12 && forall i :: 0 <= i < 12 ==> '0' <= s[i] <= '9' || 'a' <= s[i] <= 'f'
  }

  lemma CleanJoin(a: string, b: string)
    requires Clean(a) && Clean(b) && a != "" && b != ""
    ensures Clean(a + "_" + b)
  {
  }

  lemma CleanPrefix(s: string, n: nat)
    requires Clean(s) && 0 < n <= |s|
    ensures TrimEnd(s[..n]) != "" && Clean(TrimEnd(s[..n])) && TrimEnd(s[..n]) <= s
    ensures forall m :: |TrimEnd(s[..n])| < m <= n ==> !Clean(s[..m])
  {
    TrimEndKeepsTokens(s[..n]);
    if TrimEnd(s[..n]) == "" {
      NoTokens(s[..n]);
    }
    TrimEndCutsMarks(s[..n]);
    forall m | |TrimEnd(s[..n])| < m <= n ensures !Clean(s[..m]) {
      assert s[..m][m - 1] == s[..n][m - 1] == '_';
    }
  }

  function Assembled(body: string, suffix: string): string {
    if body == "" then "conn_" + suffix else "conn_" + body + "_" + suffix
  }

  lemma AssembledEnds(body: string, suffix: string)
    requires |body| <= 30 && |suffix| == 12
    ensures var id := Assembled(body, suffix);
      12 <= |id| <= 48 && "conn_" <= id && id[|id| - 12..] == suffix
  {
  }

  lemma AssembledParts(body: string, suffix: string)
    ensures Assembled(body, suffix) == "conn_" + (if body == "" then "" else body + "_") + suffix
  {
    assert "conn_" + "" + suffix == "conn_" + suffix;
    assert "conn_" + (body + "_") + suffix == "conn_" + body + "_" + suffix;
  }

  lemma AssembledIsClean(body: string, suffix: string)
    requires Clean(body) && IsHash(suffix)
    ensures Clean(Assembled(body, suffix))
  {
    assert Clean("conn") && Clean(suffix);
    assert "conn_" == "conn" + "_";
    CleanJoin("conn", suffix);
    if body != "" {
      CleanJoin("conn", body);
      CleanJoin("conn" + "_" + body, suffix);
    }
  }

  /** The identifier's label part: the longest clean start of the clean label with at most 30 characters. */
  ghost predicate LabelPart(lower: char -> string, name: string, body: string) {
    exists clean ::
      && Clean(clean) && Tokens(clean) == BrokenLetters(Lowered(lower, name))
      && body <= clean && Clean(body) && |body| <= 30 && (body == "" <==> clean == "")
      && forall n :: |body| < n <= |clean| && n <= 30 ==> !Clean(clean[..n])
  }

  /** deterministic_connection_id, from the label and the hash of the key. */
  method DeterministicId(lower: char -> string, name: string, suffix: string) returns (id: string)
    requires Lowers(lower) && IsHash(suffix)
    ensures 12 <= |id| <= 48 && Clean(id) && "conn_" <= id && id[|id| - 12..] == suffix
    ensures exists body :: LabelPart(lower, name, body)
                           && id == "conn_" + (if body == "" then "" else body + "_") + suffix
  {
    hide Clean, Tokens, Reading, Assembled;
    var sanitized := Sanitize(lower, name);
    ghost var clean := sanitized;
    var maxLabel := if 48 < |suffix| + 6 then 0 else 48 - (|suffix| + 6);
    if |sanitized| > maxLabel {
      CleanPrefix(sanitized, maxLabel);
      sanitized := TrimEnd(sanitized[..maxLabel]);
    }
    assert LabelPart(lower, name, sanitized);
    AssembledIsClean(sanitized, suffix);
    AssembledEnds(sanitized, suffix);
    AssembledParts(sanitized, suffix);
    id := Assembled(sanitized, suffix);
  }
}
