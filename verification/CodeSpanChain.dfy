/**
 The code spans of a text, as the chain that a reader of Markdown sees: each span opens at the first run of backticks
 after the one before it and closes at the next run of the same length, until a run is never closed.

 Main result: MaskedExactly, in literal bytes.
 */
module CodeSpanChain {
  import opened Wrappers
  import opened Bytes
  import opened CodeSpanMask

  /** A maximal run of n backticks. */
  ghost predicate Backticks(s: Bytes, q: nat, n: nat) {
    && n > 0 && q + n <= |s|
    && (forall x :: q <= x < q + n ==> s[x] == 0x60)
    && (q == 0 || s[q - 1] != 0x60) && (q + n == |s| || s[q + n] != 0x60)
  }

  /** From i on, the next backtick is at k. */
  ghost predicate OpensAt(s: Bytes, i: nat, k: nat, n: nat) {
    i <= k && Backticks(s, k, n) && forall x :: i <= x < k ==> s[x] != 0x60
  }

  /** The first span from i on. */
  ghost predicate IsSpan(s: Bytes, i: nat, span: Span) {
    && span.open < span.start <= span.stop
    && var n := span.start - span.open;
    && OpensAt(s, i, span.open, n)
    && Backticks(s, span.stop, n) && span.after == span.stop + n
    && forall x :: span.start <= x < span.stop ==> !Backticks(s, x, n)
  }

  /** The run that opens next from i on is not closed. */
  ghost predicate Unclosed(s: Bytes, i: nat) {
    forall k: nat, n: nat :: OpensAt(s, i, k, n) ==> forall x :: k < x ==> !Backticks(s, x, n)
  }

  /** The spans from i on, one after the other; nothing after the last is closed. */
  ghost predicate Chain(s: Bytes, i: nat, spans: seq<Span>)
    decreases |spans|
  {
    if spans == [] then Unclosed(s, i) else IsSpan(s, i, spans[0]) && Chain(s, spans[0].after, spans[1..])
  }

  ghost predicate InContent(spans: seq<Span>, p: nat) {
    exists k :: 0 <= k < |spans| && spans[k].start <= p < spans[k].stop
  }

  lemma RunIsBackticks(s: Bytes, q: nat, n: nat)
    ensures IsRun(s, q, n) <==> Backticks(s, q, n)
  {
  }

  lemma NothingLeft(s: Bytes, i: nat)
    requires Between(s, i) && NextSpan(s, i).None?
    ensures Chain(s, i, [])
  {
    forall k: nat, n: nat | OpensAt(s, i, k, n) ensures forall x :: k < x ==> !Backticks(s, x, n) {
      OpensOnce(s, i, k, n);
      ScanEndsUnclosed(s, i);
      forall x | k < x ensures !Backticks(s, x, n) {
        RunIsBackticks(s, x, n);
      }
    }
  }

  lemma OpensOnce(s: Bytes, i: nat, k: nat, n: nat)
    requires Between(s, i) && OpensAt(s, i, k, n)
    ensures NextTick(s, i) == k < |s| && RunEnd(s, k) == k + n
  {
    NextTickIsNext(s, i);
    RunEndIsRun(s, k);
    assert s[k] == TICK;
  }

  /** The scan finds a chain, and a position is in a span of the scan exactly if the chain has it. */
  lemma {:induction false} ScanIsChain(s: Bytes, i: nat) returns (spans: seq<Span>)
    requires Between(s, i)
    ensures Chain(s, i, spans)
    ensures forall p: nat :: InSpan(s, i, p) <==> InContent(spans, p)
    decreases |s| - i
  {
    hide Chain, InSpan, NextSpan, InContent;
    match NextSpan(s, i)
    case None =>
      spans := [];
      NothingLeft(s, i);
      forall p: nat ensures InSpan(s, i, p) <==> InContent(spans, p) {
        NoContent(s, i, p);
      }
    case Some(span) =>
      SpanIsDelimited(s, i);
      var rest := ScanIsChain(s, span.after);
      spans := [span] + rest;
      ChainGrows(s, i, span, rest);
      forall p: nat ensures InSpan(s, i, p) <==> InContent(spans, p) {
        ContentGrows(s, i, span, rest, p);
      }
  }

  lemma NoContent(s: Bytes, i: nat, p: nat)
    requires i <= |s| && NextSpan(s, i).None?
    ensures !InSpan(s, i, p) && !InContent([], p)
  {
    hide NextSpan;
  }

  lemma ContentGrows(s: Bytes, i: nat, span: Span, rest: seq<Span>, p: nat)
    requires i <= |s| && NextSpan(s, i) == Some(span)
    ensures InSpan(s, i, p) <==> span.start <= p < span.stop || InSpan(s, span.after, p)
    ensures InContent([span] + rest, p) <==> span.start <= p < span.stop || InContent(rest, p)
  {
    hide NextSpan;
    var all := [span] + rest;
    assert all[0] == span;
    if InContent(rest, p) {
      var k :| 0 <= k < |rest| && rest[k].start <= p < rest[k].stop;
      assert all[k + 1] == rest[k];
    }
  }

  lemma ChainGrows(s: Bytes, i: nat, span: Span, rest: seq<Span>)
    requires Between(s, i) && NextSpan(s, i) == Some(span) && Chain(s, span.after, rest)
    ensures Chain(s, i, [span] + rest)
  {
    hide NextSpan;
    SpanIsDelimited(s, i);
    var n := span.start - span.open;
    RunIsBackticks(s, span.open, n);
    RunIsBackticks(s, span.stop, n);
    forall x | span.start <= x < span.stop ensures !Backticks(s, x, n) {
      RunIsBackticks(s, x, n);
    }
    assert ([span] + rest)[1..] == rest;
  }

  /** A text has one chain. */
  lemma {:induction false} ChainIsUnique(s: Bytes, i: nat, a: seq<Span>, b: seq<Span>)
    requires Chain(s, i, a) && Chain(s, i, b)
    ensures a == b
    decreases |a|
  {
    hide IsSpan, Unclosed;
    if a != [] && b != [] {
      SameSpan(s, i, a[0], b[0]);
      ChainIsUnique(s, a[0].after, a[1..], b[1..]);
      assert a == [a[0]] + a[1..] && b == [b[0]] + b[1..];
    } else if a != [] {
      SpanIsClosed(s, i, a[0]);
    } else if b != [] {
      SpanIsClosed(s, i, b[0]);
    }
  }

  lemma SpanIsClosed(s: Bytes, i: nat, span: Span)
    requires IsSpan(s, i, span)
    ensures !Unclosed(s, i)
  {
    hide OpensAt, Backticks;
  }

  lemma SameSpan(s: Bytes, i: nat, x: Span, y: Span)
    requires IsSpan(s, i, x) && IsSpan(s, i, y)
    ensures x == y
  {
    hide OpensAt, Backticks;
    SameOpening(s, i, x.open, x.start - x.open, y.open, y.start - y.open);
  }

  lemma SameOpening(s: Bytes, i: nat, k: nat, n: nat, l: nat, m: nat)
    requires OpensAt(s, i, k, n) && OpensAt(s, i, l, m)
    ensures k == l && n == m
  {
    assert s[k] == 0x60 && s[l] == 0x60;
  }

  /** Masking turns the vertical bars in the content of the spans into unit separators, and nothing else. */
  lemma MaskedExactly(s: Bytes, spans: seq<Span>)
    requires Chain(s, 0, spans)
    ensures |Masked(s)| == |s|
    ensures forall p :: 0 <= p < |s| ==> Masked(s)[p] == if s[p] == 0x7c && InContent(spans, p) then 0x1f else s[p]
  {
    hide Chain, InSpan, InContent;
    var found := ScanIsChain(s, 0);
    ChainIsUnique(s, 0, found, spans);
  }

  lemma RestoredExactly(s: Bytes)
    ensures |Restored(s)| == |s|
    ensures forall p :: 0 <= p < |s| ==> Restored(s)[p] == if s[p] == 0x1f then 0x7c else s[p]
  {
  }
}
