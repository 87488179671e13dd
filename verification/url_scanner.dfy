/**
 * The QuakeWorld hub game-link pattern of index.js and the way a global
 * regular expression finds its occurrences with `String.prototype.match`.
 *
 * The pattern is a fixed prefix followed by `\d+`. `\d` is the ASCII
 * class [0-9], and the run of digits is greedy. A global
 * match scans left to right: at each position it either matches (and the
 * scan resumes right after the match) or it moves on by one character.
 */
module UrlScanner {

  /** The literal part of the pattern, with the regex escapes removed. */
  const GameUrlPrefix: string := "https://hub.quakeworld.nu/games/?gameId="

  predicate IsDigit(c: char) {
    '0' <= c <= '9'
  }

  predicate AllDigits(s: string) {
    forall k :: 0 <= k < |s| ==> IsDigit(s[k])
  }

  /** A string of the exact form `<prefix><one or more ASCII digits>`. */
  predicate IsGameUrl(u: string) {
    && |u| > |GameUrlPrefix|
    && u[..|GameUrlPrefix|] == GameUrlPrefix
    && AllDigits(u[|GameUrlPrefix|..])
  }

  /** `u` occurs in `s` starting at index `i`. */
  predicate OccursAt(u: string, s: string, i: nat) {
    i + |u| <= |s| && s[i..i + |u|] == u
  }

  predicate Occurs(u: string, s: string) {
    exists i: nat :: i <= |s| && OccursAt(u, s, i)
  }

  /** `s[p..e]` is a match of the pattern at `p` whose digit run is maximal. */
  predicate GreedyMatch(s: string, p: nat, e: nat) {
    && p + |GameUrlPrefix| < e <= |s|
    && s[p..p + |GameUrlPrefix|] == GameUrlPrefix
    && AllDigits(s[p + |GameUrlPrefix|..e])
    && (e == |s| || !IsDigit(s[e]))
  }

  /** The pattern matches at position `p`: the prefix, then at least one digit. */
  predicate MatchAt(s: string, p: nat) {
    && p + |GameUrlPrefix| < |s|
    && s[p..p + |GameUrlPrefix|] == GameUrlPrefix
    && IsDigit(s[p + |GameUrlPrefix|])
  }

  /** Length of the longest run of digits starting at `i` (what greedy `\d*` consumes). */
  function DigitRun(s: string, i: nat): (n: nat)
    requires i <= |s|
    ensures i + n <= |s|
    ensures forall k :: i <= k < i + n ==> IsDigit(s[k])
    ensures i + n == |s| || !IsDigit(s[i + n])
    decreases |s| - i
  {
    if i < |s| && IsDigit(s[i]) then 1 + DigitRun(s, i + 1) else 0
  }

  /** Where a match that starts at `p` ends: after the prefix and the whole digit run. */
  function MatchEnd(s: string, p: nat): (e: nat)
    requires MatchAt(s, p)
    ensures GreedyMatch(s, p, e)
  {
    var d := p + |GameUrlPrefix|;
    var e := d + DigitRun(s, d);
    assert forall k :: 0 <= k < e - d ==> s[d..e][k] == s[d + k];
    e
  }

  /** A match of the pattern, as the half-open range `[start, end)` of the text. */
  datatype Span = Span(start: nat, end: nat)

  /** Every span is a greedy match that starts at or after `from`. */
  predicate AllGreedyFrom(s: string, from: nat, spans: seq<Span>) {
    forall k :: 0 <= k < |spans| ==>
      from <= spans[k].start && GreedyMatch(s, spans[k].start, spans[k].end)
  }

  /** The spans are in text order and do not overlap. */
  predicate Ordered(spans: seq<Span>) {
    forall j, k :: 0 <= j < k < |spans| ==> spans[j].end <= spans[k].start
  }

  /** Position `p` is the start of one of the spans or lies inside it. */
  predicate Covered(spans: seq<Span>, p: nat) {
    exists k :: 0 <= k < |spans| && spans[k].start <= p < spans[k].end
  }

  /** Every position from `from` on at which the pattern matches is covered. */
  predicate NoneSkipped(s: string, from: nat, spans: seq<Span>) {
    forall p: nat :: from <= p < |s| && MatchAt(s, p) ==> Covered(spans, p)
  }

  /**
   * Reference definition of a global match from position `from` on:
   * every span is a greedy match at or after `from`; the spans are in order
   * and do not overlap; and every position at which the pattern matches is
   * the start of a span or lies inside one, so no match was skipped.
   */
  predicate LeftmostGreedy(s: string, from: nat, spans: seq<Span>) {
    AllGreedyFrom(s, from, spans) && Ordered(spans) && NoneSkipped(s, from, spans)
  }

  /** The scan a global regex performs, from index `i` to the end of `s`. */
  function ScanFrom(s: string, i: nat): (spans: seq<Span>)
    requires i <= |s|
    ensures AllGreedyFrom(s, i, spans)
    ensures Ordered(spans)
    decreases |s| - i
  {
    if i == |s| then []
    else if MatchAt(s, i) then [Span(i, MatchEnd(s, i))] + ScanFrom(s, MatchEnd(s, i))
    else ScanFrom(s, i + 1)
  }

  /** The texts of the spans, in order. */
  function SpanTexts(s: string, spans: seq<Span>): (urls: seq<string>)
    requires forall k :: 0 <= k < |spans| ==> spans[k].start <= spans[k].end <= |s|
    ensures |urls| == |spans|
    ensures forall k :: 0 <= k < |spans| ==> urls[k] == s[spans[k].start..spans[k].end]
  {
    seq(|spans|, k requires 0 <= k < |spans| => s[spans[k].start..spans[k].end])
  }

  /** `text.match(URL_REGEX)` of index.js:43, with `null` as the empty sequence. */
  function Matches(text: string): (urls: seq<string>)
    ensures forall k :: 0 <= k < |urls| ==> IsGameUrl(urls[k]) && Occurs(urls[k], text)
  {
    var spans := ScanFrom(text, 0);
    SpanTextsAreGameUrls(text, spans);
    SpanTexts(text, spans)
  }

  lemma SpanTextsAreGameUrls(text: string, spans: seq<Span>)
    requires AllGreedyFrom(text, 0, spans)
    ensures forall k :: 0 <= k < |spans| ==>
              IsGameUrl(SpanTexts(text, spans)[k]) && Occurs(SpanTexts(text, spans)[k], text)
  {
    var urls := SpanTexts(text, spans);
    forall k | 0 <= k < |spans|
      ensures IsGameUrl(urls[k]) && Occurs(urls[k], text)
    {
      GreedyMatchIsGameUrl(text, spans[k].start, spans[k].end);
      assert OccursAt(urls[k], text, spans[k].start);
    }
  }

  lemma GreedyMatchIsGameUrl(s: string, p: nat, e: nat)
    requires GreedyMatch(s, p, e)
    ensures IsGameUrl(s[p..e])
  {
  }

  /** A greedy match is determined by where it starts. */
  lemma GreedyMatchEndUnique(s: string, p: nat, e1: nat, e2: nat)
    requires GreedyMatch(s, p, e1) && GreedyMatch(s, p, e2)
    ensures e1 == e2
  {
  }

  lemma GreedyMatchIsMatch(s: string, p: nat, e: nat)
    requires GreedyMatch(s, p, e)
    ensures MatchAt(s, p)
  {
  }

  /** The scan is the leftmost, greedy, non-overlapping match sequence. */
  lemma {:induction false} ScanFromIsLeftmostGreedy(s: string, i: nat)
    requires i <= |s|
    ensures LeftmostGreedy(s, i, ScanFrom(s, i))
    decreases |s| - i
  {
    if i < |s| {
      if MatchAt(s, i) {
        var e := MatchEnd(s, i);
        ScanFromIsLeftmostGreedy(s, e);
        ConsCovers(s, i, e, ScanFrom(s, e));
      } else {
        ScanFromIsLeftmostGreedy(s, i + 1);
      }
    }
  }

  /** Putting the match `[i, e)` in front of a scan from `e` leaves nothing skipped from `i`. */
  lemma ConsCovers(s: string, i: nat, e: nat, rest: seq<Span>)
    requires i < e <= |s| && NoneSkipped(s, e, rest)
    ensures NoneSkipped(s, i, [Span(i, e)] + rest)
  {
    var spans := [Span(i, e)] + rest;
    forall p: nat | i <= p < |s| && MatchAt(s, p)
      ensures Covered(spans, p)
    {
      if p < e {
        assert spans[0].start <= p < spans[0].end;
      } else {
        assert Covered(rest, p);
        var k :| 0 <= k < |rest| && rest[k].start <= p < rest[k].end;
        assert spans[k + 1] == rest[k];
      }
    }
  }

  /** The first span starts no later than any position at which the pattern matches. */
  lemma FirstSpanIsLeftmost(s: string, from: nat, spans: seq<Span>, p: nat)
    requires LeftmostGreedy(s, from, spans)
    requires from <= p < |s| && MatchAt(s, p)
    ensures |spans| > 0 && spans[0].start <= p
  {
  }

  /** Two leftmost-greedy scans from the same position begin with the same span. */
  lemma SameFirstSpan(s: string, from: nat, a: seq<Span>, b: seq<Span>)
    requires LeftmostGreedy(s, from, a) && LeftmostGreedy(s, from, b)
    requires a != []
    ensures b != [] && a[0] == b[0]
  {
    GreedyMatchIsMatch(s, a[0].start, a[0].end);
    FirstSpanIsLeftmost(s, from, b, a[0].start);
    GreedyMatchIsMatch(s, b[0].start, b[0].end);
    FirstSpanIsLeftmost(s, from, a, b[0].start);
    GreedyMatchEndUnique(s, a[0].start, a[0].end, b[0].end);
  }

  /** There is only one sequence of spans that meets the reference definition. */
  lemma {:induction false} LeftmostGreedyUnique(s: string, from: nat, a: seq<Span>, b: seq<Span>)
    requires from <= |s|
    requires LeftmostGreedy(s, from, a) && LeftmostGreedy(s, from, b)
    ensures a == b
    decreases |s| - from
  {
    if a != [] {
      SameFirstSpan(s, from, a, b);
      TailIsLeftmostGreedy(s, from, a);
      TailIsLeftmostGreedy(s, from, b);
      LeftmostGreedyUnique(s, a[0].end, a[1..], b[1..]);
      assert a == [a[0]] + a[1..];
      assert b == [b[0]] + b[1..];
    } else if b != [] {
      SameFirstSpan(s, from, b, a);
    }
  }

  /** After the first span, the rest is the scan from where the first span ends. */
  lemma TailIsLeftmostGreedy(s: string, from: nat, spans: seq<Span>)
    requires |spans| > 0 && LeftmostGreedy(s, from, spans)
    ensures spans[0].end <= |s| && LeftmostGreedy(s, spans[0].end, spans[1..])
  {
  }

  /** Main characterisation of `Matches`: it is the unique leftmost-greedy scan. */
  lemma MatchesCharacterised(text: string, spans: seq<Span>)
    requires LeftmostGreedy(text, 0, spans)
    ensures Matches(text) == SpanTexts(text, spans)
  {
    ScanFromIsLeftmostGreedy(text, 0);
    LeftmostGreedyUnique(text, 0, ScanFrom(text, 0), spans);
  }

  /** A text in which the pattern matches nowhere from `i` on scans to no spans. */
  lemma {:induction false} NoPrefixNoMatches(s: string, i: nat)
    requires i <= |s|
    requires forall p: nat :: i <= p < |s| ==> !MatchAt(s, p)
    ensures ScanFrom(s, i) == []
    decreases |s| - i
  {
    if i < |s| {
      NoPrefixNoMatches(s, i + 1);
    }
  }

  lemma EmptyTextHasNoMatches()
    ensures Matches("") == []
  {
  }
}
