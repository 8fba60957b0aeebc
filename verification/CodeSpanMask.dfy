/** Pipes inside Markdown code spans are masked before a table row is split, and restored in the cells. */
module CodeSpanMask {
  import opened Wrappers
  import opened Bytes
  import ArchivePath

  const TICK: bv8 := 0x60
  const PIPE: bv8 := 0x7c
  const MASK: bv8 := 0x1f

  /** The end of the backtick run at `i`; `i` itself when there is none. */
  function RunEnd(s: Bytes, i: nat): (e: nat)
    requires i <= |s|
    ensures i <= e <= |s|
    decreases |s| - i
  {
    if i < |s| && s[i] == TICK then RunEnd(s, i + 1) else i
  }

  /** The next backtick; the end of the text when there is none. */
  function NextTick(s: Bytes, i: nat): (k: nat)
    requires i <= |s|
    ensures i <= k <= |s| && (k < |s| ==> s[k] == TICK)
    decreases |s| - i
  {
    if i < |s| && s[i] != TICK then NextTick(s, i + 1) else i
  }

  /** The closing run for an opening run of length `n`. */
  function Closing(s: Bytes, i: nat, n: nat): (q: Option<nat>)
    requires i <= |s|
    ensures q.Some? ==> i <= q.value && q.value + n <= |s|
    decreases |s| - i
  {
    var k := NextTick(s, i);
    if k == |s| then None
    else
      var e := RunEnd(s, k);
      if e - k == n then Some(k) else Closing(s, e, n)
  }

  /** A code span: its opening run, its content and its closing run. */
  datatype Span = Span(open: nat, start: nat, stop: nat, after: nat)

  function NextSpan(s: Bytes, i: nat): (r: Option<Span>)
    requires i <= |s|
    ensures r.Some? ==> i <= r.value.open < r.value.start <= r.value.stop < r.value.after <= |s|
  {
    var k := NextTick(s, i);
    if k == |s| then None
    else
      var c := RunEnd(s, k);
      match Closing(s, c, c - k)
      case None => None
      case Some(q) => Some(Span(k, c, q, q + (c - k)))
  }

  /** Position `p` is inside the content of a span that the scan from `i` finds. */
  predicate InSpan(s: Bytes, i: nat, p: nat)
    requires i <= |s|
    decreases |s| - i
  {
    match NextSpan(s, i)
    case None => false
    case Some(span) => span.start <= p < span.stop || InSpan(s, span.after, p)
  }

  function MaskByte(s: Bytes, p: nat): bv8
    requires p < |s|
  {
    if InSpan(s, 0, p) && s[p] == PIPE then MASK else s[p]
  }

  function Masked(s: Bytes): Bytes {
    seq(|s|, p requires 0 <= p < |s| => MaskByte(s, p))
  }

  /** restore_masked_pipes. */
  function Restored(s: Bytes): Bytes {
    seq(|s|, p requires 0 <= p < |s| => if s[p] == MASK then PIPE else s[p])
  }

  // The scan, by its runs.

  /** A maximal run of `n` backticks. */
  ghost predicate IsRun(s: Bytes, q: nat, n: nat) {
    && n > 0 && q + n <= |s|
    && (forall x :: q <= x < q + n ==> s[x] == TICK)
    && (q > 0 ==> s[q - 1] != TICK)
    && (q + n < |s| ==> s[q + n] != TICK)
  }

  lemma {:induction false} RunEndIsRun(s: Bytes, i: nat)
    requires i <= |s|
    ensures var e := RunEnd(s, i);
      (forall x :: i <= x < e ==> s[x] == TICK) && (e < |s| ==> s[e] != TICK)
    decreases |s| - i
  {
    if i < |s| && s[i] == TICK {
      RunEndIsRun(s, i + 1);
    }
  }

  lemma {:induction false} NextTickIsNext(s: Bytes, i: nat)
    requires i <= |s|
    ensures forall x :: i <= x < NextTick(s, i) ==> s[x] != TICK
    decreases |s| - i
  {
    if i < |s| && s[i] != TICK {
      NextTickIsNext(s, i + 1);
    }
  }

  /** No run is entered in its middle. */
  ghost predicate Between(s: Bytes, i: nat) {
    i <= |s| && (0 < i < |s| && s[i - 1] == TICK ==> s[i] != TICK)
  }

  /** The closing run is the first run of exactly the opening length. */
  lemma {:induction false} ClosingIsFirstRun(s: Bytes, i: nat, n: nat)
    requires Between(s, i) && n > 0
    ensures match Closing(s, i, n)
      case Some(q) => i <= q && IsRun(s, q, n) && forall x :: i <= x < q ==> !IsRun(s, x, n)
      case None => forall x :: i <= x ==> !IsRun(s, x, n)
    decreases |s| - i
  {
    var k := NextTick(s, i);
    NextTickIsNext(s, i);
    assert forall x: nat :: IsRun(s, x, n) ==> x < |s| && s[x] == TICK;
    if k < |s| {
      var e := RunEnd(s, k);
      RunEndIsRun(s, k);
      assert k > 0 ==> s[k - 1] != TICK;
      if e - k == n {
        assert IsRun(s, k, n);
      } else {
        ClosingIsFirstRun(s, e, n);
        forall x | k <= x < e ensures !IsRun(s, x, n) {
          assert x > k ==> s[x - 1] == TICK;
        }
      }
    }
  }

  /** A span is delimited by two runs of one length, with no run of that length between them. */
  lemma SpanIsDelimited(s: Bytes, i: nat)
    requires Between(s, i) && NextSpan(s, i).Some?
    ensures var span := NextSpan(s, i).value;
      var n := span.start - span.open;
      && IsRun(s, span.open, n) && IsRun(s, span.stop, n) && span.after == span.stop + n
      && (forall x :: i <= x < span.open ==> s[x] != TICK)
      && (forall x :: span.start <= x < span.stop ==> !IsRun(s, x, n))
      && Between(s, span.after)
  {
    hide NextTick, RunEnd, Closing;
    var k := FirstRun(s, i);
    ClosingIsFirstRun(s, RunEnd(s, k), RunEnd(s, k) - k);
  }

  lemma FirstRun(s: Bytes, i: nat) returns (k: nat)
    requires Between(s, i) && NextTick(s, i) < |s|
    ensures k == NextTick(s, i) < RunEnd(s, k) && IsRun(s, k, RunEnd(s, k) - k) && Between(s, RunEnd(s, k))
    ensures forall x :: i <= x < k ==> s[x] != TICK
  {
    k := NextTick(s, i);
    NextTickIsNext(s, i);
    RunEndIsRun(s, k);
  }

  /** The scan ends before a run that nothing after it closes, or where no backtick is left. */
  lemma ScanEndsUnclosed(s: Bytes, i: nat)
    requires Between(s, i) && NextSpan(s, i).None? && NextTick(s, i) < |s|
    ensures var k := NextTick(s, i);
      var n := RunEnd(s, k) - k;
      IsRun(s, k, n) && (forall x :: i <= x < k ==> s[x] != TICK) && forall x :: k < x ==> !IsRun(s, x, n)
  {
    hide NextTick, Closing;
    var k := FirstRun(s, i);
    var c := RunEnd(s, k);
    ClosingIsFirstRun(s, c, c - k);
    NoneFollows(s, k, c, c - k);
  }

  lemma NoneFollows(s: Bytes, k: nat, c: nat, n: nat)
    requires k < c <= |s| && forall x :: k <= x < c ==> s[x] == TICK
    ensures (forall x :: c <= x ==> !IsRun(s, x, n)) ==> forall x :: k < x ==> !IsRun(s, x, n)
  {
    forall x | k < x < c ensures !IsRun(s, x, n) {
      assert s[x - 1] == TICK;
    }
  }

  // What masking keeps.

  /** Texts that agree on their backticks have the same spans. */
  ghost predicate SameTicks(s: Bytes, t: Bytes) {
    |s| == |t| && forall x :: 0 <= x < |s| ==> (s[x] == TICK <==> t[x] == TICK)
  }

  lemma {:induction false} SameRunEnd(s: Bytes, t: Bytes, i: nat)
    requires SameTicks(s, t) && i <= |s|
    ensures RunEnd(s, i) == RunEnd(t, i)
    decreases |s| - i
  {
    if i < |s| && s[i] == TICK {
      SameRunEnd(s, t, i + 1);
    }
  }

  lemma {:induction false} SameNextTick(s: Bytes, t: Bytes, i: nat)
    requires SameTicks(s, t) && i <= |s|
    ensures NextTick(s, i) == NextTick(t, i)
    decreases |s| - i
  {
    if i < |s| && s[i] != TICK {
      SameNextTick(s, t, i + 1);
    }
  }

  lemma {:induction false} SameClosing(s: Bytes, t: Bytes, i: nat, n: nat)
    requires SameTicks(s, t) && i <= |s|
    ensures Closing(s, i, n) == Closing(t, i, n)
    decreases |s| - i
  {
    SameNextTick(s, t, i);
    var k := NextTick(s, i);
    if k < |s| {
      SameRunEnd(s, t, k);
      if RunEnd(s, k) - k != n {
        SameClosing(s, t, RunEnd(s, k), n);
      }
    }
  }

  lemma SameNextSpan(s: Bytes, t: Bytes, i: nat)
    requires SameTicks(s, t) && i <= |s|
    ensures NextSpan(s, i) == NextSpan(t, i)
  {
    hide NextTick, RunEnd, Closing;
    SameNextTick(s, t, i);
    var k := NextTick(s, i);
    if k < |s| {
      SameRunEnd(s, t, k);
      SameClosing(s, t, RunEnd(s, k), RunEnd(s, k) - k);
    }
  }

  lemma {:induction false} SameSpans(s: Bytes, t: Bytes, i: nat, p: nat)
    requires SameTicks(s, t) && i <= |s|
    ensures InSpan(s, i, p) <==> InSpan(t, i, p)
    decreases |s| - i
  {
    hide NextSpan;
    SameNextSpan(s, t, i);
    if NextSpan(s, i).Some? {
      SameSpans(s, t, NextSpan(s, i).value.after, p);
    }
  }

  /** Masking keeps the spans, leaves no pipe inside them, and touches nothing but those pipes. */
  lemma MaskedSpans(s: Bytes, p: nat)
    requires p < |s|
    ensures InSpan(Masked(s), 0, p) <==> InSpan(s, 0, p)
    ensures InSpan(s, 0, p) ==> Masked(s)[p] != PIPE
    ensures Masked(s)[p] != s[p] <==> InSpan(s, 0, p) && s[p] == PIPE
    ensures Masked(s)[p] == 0x0a <==> s[p] == 0x0a
    ensures Masked(Masked(s)) == Masked(s)
  {
    forall x | 0 <= x < |s| ensures InSpan(Masked(s), 0, x) <==> InSpan(s, 0, x) {
      SameSpans(s, Masked(s), 0, x);
    }
  }

  /** Restoring undoes masking exactly on the texts that hold no mask byte of their own. */
  lemma RestoreUndoesMaskIff(s: Bytes)
    ensures Restored(Masked(s)) == s <==> MASK !in s
  {
    hide InSpan;
    if MASK in s {
      var p :| 0 <= p < |s| && s[p] == MASK;
      assert Restored(Masked(s))[p] == PIPE;
    }
  }

  /** Only ASCII bytes are exchanged, so the text stays UTF-8. */
  lemma {:induction false} AsciiSwapKeepsUtf8(s: Bytes, t: Bytes)
    requires |s| == |t| && ArchivePath.IsUtf8(s)
    requires forall x :: 0 <= x < |s| ==> s[x] == t[x] || (s[x] <= 0x7f && t[x] <= 0x7f)
    ensures ArchivePath.IsUtf8(t)
  {
    if s != [] {
      var n := if s[0] <= 0x7f then 1 else if s[0] <= 0xdf then 2 else if s[0] <= 0xef then 3 else 4;
      AsciiSwapKeepsUtf8(s[n..], t[n..]);
    }
  }

  lemma MaskedStaysUtf8(s: Bytes)
    requires ArchivePath.IsUtf8(s)
    ensures ArchivePath.IsUtf8(Masked(s))
  {
    hide InSpan;
    AsciiSwapKeepsUtf8(s, Masked(s));
  }

  // The buffer, masked in place.

  /** From `from` on, the buffer still holds the text. */
  ghost predicate Untouched(bytes: array<bv8>, s: Bytes, from: nat)
    reads bytes
  {
    from <= bytes.Length == |s| && forall p :: from <= p < |s| ==> bytes[p] == s[p]
  }

  method SkipRun(bytes: array<bv8>, from: nat, ghost s: Bytes) returns (cursor: nat)
    requires Untouched(bytes, s, from)
    ensures cursor == RunEnd(s, from)
  {
    cursor := from;
    while cursor < bytes.Length && bytes[cursor] == TICK
      invariant from <= cursor <= bytes.Length && RunEnd(s, from) == RunEnd(s, cursor)
    {
      cursor := cursor + 1;
    }
  }

  method FindClosing(bytes: array<bv8>, from: nat, n: nat, ghost s: Bytes) returns (closing: Option<nat>)
    requires Untouched(bytes, s, from)
    ensures closing == Closing(s, from, n)
  {
    var cursor := from;
    while cursor < bytes.Length
      invariant from <= cursor <= bytes.Length && Closing(s, from, n) == Closing(s, cursor, n)
      decreases bytes.Length - cursor
    {
      if bytes[cursor] != TICK {
        cursor := cursor + 1;
        continue;
      }
      var runStart := cursor;
      cursor := SkipRun(bytes, cursor, s);
      if cursor - runStart == n {
        return Some(runStart);
      }
    }
    closing := None;
  }

  /** Bytes before `cursor` are masked as far as the scan went, the others are untouched. */
  ghost predicate MaskedUpTo(bytes: seq<bv8>, s: Bytes, cursor: nat) {
    && |bytes| == |s| && cursor <= |s|
    && (forall p :: 0 <= p < cursor ==> bytes[p] == MaskByte(s, p))
    && (forall p :: cursor <= p < |s| ==> bytes[p] == s[p])
    && (forall p :: cursor <= p ==> (InSpan(s, 0, p) <==> InSpan(s, cursor, p)))
  }

  lemma {:induction false} InSpanLater(s: Bytes, i: nat, p: nat)
    requires i <= |s| && InSpan(s, i, p)
    ensures i < p
    decreases |s| - i
  {
    var span := NextSpan(s, i).value;
    if !(span.start <= p < span.stop) {
      InSpanLater(s, span.after, p);
    }
  }

  lemma PassPlain(bytes: Bytes, s: Bytes, cursor: nat)
    requires MaskedUpTo(bytes, s, cursor) && cursor < |s| && s[cursor] != TICK
    ensures MaskedUpTo(bytes, s, cursor + 1)
  {
    hide RunEnd, Closing;
    assert NextTick(s, cursor) == NextTick(s, cursor + 1);
    assert NextSpan(s, cursor) == NextSpan(s, cursor + 1);
    assert !InSpan(s, cursor, cursor) by {
      if InSpan(s, cursor, cursor) {
        InSpanLater(s, cursor, cursor);
      }
    }
    assert forall p: nat :: InSpan(s, cursor, p) <==> InSpan(s, cursor + 1, p);
  }

  lemma PassSpan(bytes: Bytes, after: Bytes, s: Bytes, cursor: nat, span: Span)
    requires MaskedUpTo(bytes, s, cursor) && NextSpan(s, cursor) == Some(span) && |after| == |bytes|
    requires forall p :: 0 <= p < |bytes| ==>
      after[p] == if span.start <= p < span.stop && bytes[p] == PIPE then MASK else bytes[p]
    ensures MaskedUpTo(after, s, span.after)
  {
    hide NextSpan;
    forall p: nat | p < span.after ensures !InSpan(s, span.after, p) {
      if InSpan(s, span.after, p) {
        InSpanLater(s, span.after, p);
      }
    }
    assert forall p: nat :: InSpan(s, cursor, p) <==> span.start <= p < span.stop || InSpan(s, span.after, p);
  }

  lemma PassRest(bytes: Bytes, s: Bytes, cursor: nat)
    requires MaskedUpTo(bytes, s, cursor) && NextSpan(s, cursor).None?
    ensures bytes == Masked(s)
  {
    hide NextSpan;
    assert forall p: nat :: !InSpan(s, cursor, p);
  }

  lemma TickHere(s: Bytes, i: nat)
    requires i < |s| && s[i] == TICK
    ensures NextTick(s, i) == i < RunEnd(s, i)
  {
  }

  method MaskRange(bytes: array<bv8>, start: nat, stop: nat)
    requires start <= stop <= bytes.Length
    modifies bytes
    ensures forall p :: 0 <= p < bytes.Length ==>
      bytes[p] == if start <= p < stop && old(bytes[p]) == PIPE then MASK else old(bytes[p])
  {
    for i := start to stop
      invariant forall p :: 0 <= p < bytes.Length ==>
        bytes[p] == if start <= p < i && old(bytes[p]) == PIPE then MASK else old(bytes[p])
    {
      if bytes[i] == PIPE {
        bytes[i] := MASK;
      }
    }
  }

  /** From an opening run: mask up to the closing run and pass it, or stop at the end of the text. */
  method MaskSpan(bytes: array<bv8>, from: nat, ghost s: Bytes) returns (cursor: nat)
    requires MaskedUpTo(bytes[..], s, from) && from < |s| && s[from] == TICK
    modifies bytes
    ensures from < cursor <= |s|
    ensures NextSpan(s, from).Some? ==> MaskedUpTo(bytes[..], s, cursor)
    ensures NextSpan(s, from).None? ==> cursor == |s| && bytes[..] == Masked(s)
  {
    hide InSpan, NextTick, RunEnd, Closing, MaskByte, Masked;
    ghost var before := bytes[..];
    assert Untouched(bytes, s, from) by {
      assert forall p :: 0 <= p < |s| ==> bytes[p] == before[p];
    }
    TickHere(s, from);
    var contentStart := SkipRun(bytes, from, s);
    var closing := FindClosing(bytes, contentStart, contentStart - from, s);
    if closing.None? {
      PassRest(before, s, from);
      return bytes.Length;
    }
    MaskRange(bytes, contentStart, closing.value);
    cursor := closing.value + (contentStart - from);
    PassSpan(before, bytes[..], s, from, Span(from, contentStart, closing.value, cursor));
  }

  /** mask_code_span_pipes. */
  method MaskCodeSpanPipes(contents: Bytes) returns (masked: Bytes)
    ensures masked == Masked(contents)
  {
    hide InSpan, NextSpan, MaskByte;
    var bytes := new bv8[|contents|](i requires 0 <= i < |contents| => contents[i]);
    var cursor := 0;
    while cursor < bytes.Length
      invariant cursor <= bytes.Length == |contents|
      invariant MaskedUpTo(bytes[..], contents, cursor) || (cursor == |contents| && bytes[..] == Masked(contents))
      decreases bytes.Length - cursor
    {
      ghost var before := bytes[..];
      assert bytes[cursor] == before[cursor] == contents[cursor];
      if bytes[cursor] != TICK {
        PassPlain(bytes[..], contents, cursor);
        cursor := cursor + 1;
      } else {
        cursor := MaskSpan(bytes, cursor, contents);
      }
    }
    masked := bytes[..];
  }
}
