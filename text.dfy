/**
 * The regular-expression and string primitives that the extraction code of
 * crawl_food_data.js is built from, written out as explicit functions.
 *
 * Each matcher scans the positions of its input in the order an ECMAScript
 * regular-expression engine tries them (leftmost start first; greedy
 * quantifiers longest first, lazy ones shortest first), and each is then
 * related to a declarative description: a maximal run of digits, the first or
 * last occurrence of a substring, the characters no occurrence covers.
 */
module Text {
  import opened Wrappers

  /** The class `\d`. */
  predicate IsDigit(c: char) {
    '0' <= c <= '9'
  }

  /** The characters that `.` (without the `s` flag) refuses to match. */
  predicate IsLineTerminator(c: char) {
    c == '\n' || c == '\r' || c == '\U{2028}' || c == '\U{2029}'
  }

  /** ECMAScript white space and line terminators: what `\s` matches and what `trim` removes. */
  predicate IsWhitespace(c: char) {
    || IsLineTerminator(c)
    || c == '\t' || c == '\U{000B}' || c == '\U{000C}' || c == ' '
    || c == '\U{00A0}' || c == '\U{1680}' || ('\U{2000}' <= c <= '\U{200A}')
    || c == '\U{202F}' || c == '\U{205F}' || c == '\U{3000}' || c == '\U{FEFF}'
  }

  predicate AllDigits(s: string) {
    forall k :: 0 <= k < |s| ==> IsDigit(s[k])
  }

  predicate AllWhitespace(s: string) {
    forall k :: 0 <= k < |s| ==> IsWhitespace(s[k])
  }

  /** `pat` occurs in `s` starting at index `k`. */
  predicate OccursAt(s: string, k: int, pat: string) {
    0 <= k && k + |pat| <= |s| && s[k..k + |pat|] == pat
  }

  lemma OccursAtChar(s: string, k: int, pat: string, t: int)
    requires OccursAt(s, k, pat) && 0 <= t < |pat|
    ensures s[k + t] == pat[t]
  {
    assert s[k..k + |pat|][t] == s[k + t];
  }

  /** An occurrence inside the slice `s[a..b]` is an occurrence in the slice, shifted by `a`. */
  lemma OccursInSlice(s: string, a: nat, b: nat, k: int, pat: string)
    requires a <= b <= |s| && OccursAt(s, k, pat) && a <= k && k + |pat| <= b
    ensures OccursAt(s[a..b], k - a, pat)
  {
    var t := s[a..b];
    forall i | 0 <= i < |pat| ensures t[k - a + i] == pat[i] {
      OccursAtChar(s, k, pat, i);
    }
    assert t[k - a..k - a + |pat|] == pat;
  }

  /** A text whose character at `k + d` differs from `pat[d]` has no `pat` at `k`. */
  lemma CharMismatch(s: string, k: int, pat: string, d: int)
    requires 0 <= d < |pat| && 0 <= k + d < |s| && s[k + d] != pat[d]
    ensures !OccursAt(s, k, pat)
  {
    if 0 <= k && k + |pat| <= |s| {
      assert s[k..k + |pat|][d] == s[k + d];
    }
  }

  /** A place inside the slice `s[a..b]` where the slice has no `pat` has no `pat` in `s` either. */
  lemma NotInSlice(s: string, a: nat, b: nat, k: int, pat: string)
    requires a <= k && k + |pat| <= b <= |s| && !OccursAt(s[a..b], k - a, pat)
    ensures !OccursAt(s, k, pat)
  {
    var u := s[a..b];
    var x, y := u[k - a..k - a + |pat|], s[k..k + |pat|];
    forall i | 0 <= i < |pat| ensures x[i] == y[i] {
      assert x[i] == u[k - a + i] == s[k + i];
    }
    assert x == y;
  }

  /** A text whose character at `k` differs from the first character of `pat` has no `pat` at `k`. */
  lemma FirstCharMismatch(s: string, k: int, pat: string)
    requires 0 <= k < |s| && pat != [] && s[k] != pat[0]
    ensures !OccursAt(s, k, pat)
  {
    if k + |pat| <= |s| {
      assert s[k..k + |pat|][0] == s[k];
    }
  }

  // ---------------------------------------------------------------------------
  // String.prototype.trim

  /** The first index at or after `i` that does not hold white space. */
  function SkipSpace(s: string, i: nat): (k: nat)
    requires i <= |s|
    ensures i <= k <= |s|
    ensures forall t :: i <= t < k ==> IsWhitespace(s[t])
    ensures k < |s| ==> !IsWhitespace(s[k])
    decreases |s| - i
  {
    if i < |s| && IsWhitespace(s[i]) then SkipSpace(s, i + 1) else i
  }

  /** The end of `s[lo..j]` once trailing white space is dropped. */
  function SkipSpaceBack(s: string, lo: nat, j: nat): (k: nat)
    requires lo <= j <= |s|
    ensures lo <= k <= j
    ensures forall t :: k <= t < j ==> IsWhitespace(s[t])
    ensures k > lo ==> !IsWhitespace(s[k - 1])
    decreases j - lo
  {
    if j > lo && IsWhitespace(s[j - 1]) then SkipSpaceBack(s, lo, j - 1) else j
  }

  /** `s.trim()`: the text between the leading and the trailing white space. */
  function Trim(s: string): (r: string)
    ensures |r| <= |s|
    ensures r != [] ==> !IsWhitespace(r[0]) && !IsWhitespace(r[|r| - 1])
  {
    var a := SkipSpace(s, 0);
    s[a..SkipSpaceBack(s, a, |s|)]
  }

  /** The trim removes white space only, and only at the two ends. */
  lemma TrimIsSlice(s: string)
    ensures exists a :: 0 <= a <= |s| - |Trim(s)| && Trim(s) == s[a..a + |Trim(s)|]
                         && AllWhitespace(s[..a]) && AllWhitespace(s[a + |Trim(s)|..])
  {
    var a := SkipSpace(s, 0);
    var b := SkipSpaceBack(s, a, |s|);
    assert AllWhitespace(s[..a]) by {
      forall t | 0 <= t < a ensures IsWhitespace(s[..a][t]) { assert s[..a][t] == s[t]; }
    }
    assert AllWhitespace(s[b..]) by {
      forall t | 0 <= t < |s| - b ensures IsWhitespace(s[b..][t]) { assert s[b..][t] == s[b + t]; }
    }
  }

  /** Trimming text that neither starts nor ends with white space changes nothing. */
  lemma TrimKeepsTrimmed(s: string)
    requires s != [] ==> !IsWhitespace(s[0]) && !IsWhitespace(s[|s| - 1])
    ensures Trim(s) == s
  {
    assert SkipSpace(s, 0) == 0;
  }

  /** A concatenation starts with its first piece and ends with its last. */
  lemma ConcatEnds(open: string, mid: string, close: string)
    ensures OccursAt(open + mid + close, 0, open)
    ensures OccursAt(open + mid + close, |open + mid + close| - |close|, close)
  {
    var d := open + mid + close;
    assert d[0..|open|] == open;
    assert d[|d| - |close|..|d|] == close;
  }

  /** Text that starts and ends with non-white-space pieces is its own trim. */
  lemma TrimKeepsEnds(open: string, mid: string, close: string)
    requires open != [] && !IsWhitespace(open[0])
    requires close != [] && !IsWhitespace(close[|close| - 1])
    ensures Trim(open + mid + close) == open + mid + close
  {
    var d := open + mid + close;
    assert d[0] == open[0] && d[|d| - 1] == close[|close| - 1];
    TrimKeepsTrimmed(d);
  }

  // ---------------------------------------------------------------------------
  // Runs of digits: /^(\d)+/ and /(?!UPC )\d+$/

  /** Where the greedy `\d+` that starts at `i` stops. */
  function DigitRunEnd(s: string, i: nat): (e: nat)
    requires i <= |s|
    ensures i <= e <= |s|
    ensures forall k :: i <= k < e ==> IsDigit(s[k])
    ensures e < |s| ==> !IsDigit(s[e])
    decreases |s| - i
  {
    if i < |s| && IsDigit(s[i]) then DigitRunEnd(s, i + 1) else i
  }

  /**
   * `s.match(/^(\d)+/g).pop()`: the maximal leading run of digits, or None
   * where `match` gives null (and `pop` would throw).
   */
  function LeadingDigits(s: string): (r: Option<string>)
    ensures r.Some? <==> s != [] && IsDigit(s[0])
    ensures r.Some? ==> |r.value| <= |s| && r.value == s[..|r.value|] && AllDigits(r.value)
                        && (|r.value| < |s| ==> !IsDigit(s[|r.value|]))
  {
    var e := DigitRunEnd(s, 0);
    if e == 0 then None else Some(s[..e])
  }

  /** Whether `(?!UPC )\d+$` matches at index `p`: a greedy digit run from `p` that reaches the end of input. */
  predicate UpcPatternAt(s: string, p: nat)
    requires p <= |s|
  {
    !OccursAt(s, p, "UPC ") && p < DigitRunEnd(s, p) == |s|
  }

  /** The engine's scan for `(?!UPC )\d+$`, trying start positions `p`, `p + 1`, ... */
  function TrailingDigitsFrom(s: string, p: nat): (r: Option<string>)
    requires p <= |s|
    ensures r.Some? <==> p < |s| && IsDigit(s[|s| - 1])
    ensures r.Some? ==> p <= |s| - |r.value| && r.value == s[|s| - |r.value|..] && r.value != []
                        && AllDigits(r.value)
                        && (|s| - |r.value| > p ==> !IsDigit(s[|s| - |r.value| - 1]))
    decreases |s| - p
  {
    if UpcPatternAt(s, p) then
      assert forall k :: 0 <= k < |s[p..]| ==> s[p..][k] == s[p + k];
      Some(s[p..])
    else if p == |s| then None
    else
      var r := TrailingDigitsFrom(s, p + 1);
      assert OccursAt(s, p, "UPC ") ==> s[p] == 'U' by {
        if OccursAt(s, p, "UPC ") { OccursAtChar(s, p, "UPC ", 0); }
      }
      r
  }

  /** `s.match(/(?!UPC )\d+$/g).pop()`: the maximal trailing run of digits, or None. */
  function TrailingDigits(s: string): (r: Option<string>)
    ensures r.Some? <==> s != [] && IsDigit(s[|s| - 1])
    ensures r.Some? ==> r.value != [] && |r.value| <= |s| && r.value == s[|s| - |r.value|..]
                        && AllDigits(r.value)
                        && (|r.value| < |s| ==> !IsDigit(s[|s| - |r.value| - 1]))
  {
    TrailingDigitsFrom(s, 0)
  }

  // ---------------------------------------------------------------------------
  // First and last occurrences

  /** The first index at or after `from` where `pat` occurs. */
  function FirstOccurrence(s: string, pat: string, from: nat): (r: Option<nat>)
    ensures r.Some? ==> from <= r.value && OccursAt(s, r.value, pat)
                        && forall k :: from <= k < r.value ==> !OccursAt(s, k, pat)
    ensures r.None? ==> forall k :: from <= k ==> !OccursAt(s, k, pat)
    decreases |s| + 1 - from
  {
    if from > |s| then None
    else if OccursAt(s, from, pat) then Some(from)
    else FirstOccurrence(s, pat, from + 1)
  }

  /** Skipping positions where `pat` does not occur leaves the first occurrence unchanged. */
  lemma {:induction false} FirstOccurrenceSkip(s: string, pat: string, i: nat, j: nat)
    requires i <= j
    requires forall k :: i <= k < j ==> !OccursAt(s, k, pat)
    ensures FirstOccurrence(s, pat, i) == FirstOccurrence(s, pat, j)
    decreases j - i
  {
    if i < j {
      FirstOccurrenceSkip(s, pat, i + 1, j);
    }
  }

  /**
   * The last index in `lo..q` where `pat` occurs: where a greedy `[^]+`
   * followed by `pat` settles after backtracking from the end of input.
   */
  function LastOccurrenceDownFrom(s: string, pat: string, lo: nat, q: int): (r: Option<nat>)
    ensures r.Some? ==> lo <= r.value <= q && OccursAt(s, r.value, pat)
                        && forall k :: r.value < k <= q ==> !OccursAt(s, k, pat)
    ensures r.None? ==> forall k :: lo <= k <= q ==> !OccursAt(s, k, pat)
    decreases q - lo + 1
  {
    if q < lo then None
    else if OccursAt(s, q, pat) then Some(q)
    else LastOccurrenceDownFrom(s, pat, lo, q - 1)
  }

  /** The last index at or after `lo` where `pat` occurs. */
  function LastOccurrence(s: string, pat: string, lo: nat): (r: Option<nat>)
    ensures r.Some? ==> lo <= r.value && OccursAt(s, r.value, pat)
                        && forall k :: r.value < k ==> !OccursAt(s, k, pat)
    ensures r.None? ==> forall k :: lo <= k ==> !OccursAt(s, k, pat)
  {
    LastOccurrenceDownFrom(s, pat, lo, |s|)
  }

  /** An occurrence at or after `lo` means there is a last one. */
  lemma LastOccurrenceExists(s: string, pat: string, lo: nat, q: int)
    requires lo <= q && OccursAt(s, q, pat)
    ensures LastOccurrence(s, pat, lo).Some?
  {
  }

  // ---------------------------------------------------------------------------
  // The span matched by /open[^]+close/

  /** Some match of `open[^]+close` starts at or after `p`. */
  ghost predicate SpanExists(s: string, open: string, close: string, p: nat) {
    exists a, q :: p <= a && OccursAt(s, a, open) && OccursAt(s, q, close) && q >= a + |open| + 1
  }

  /**
   * The engine's scan for `open[^]+close` from start position `p`: the first
   * start where `open` occurs with a `close` at least one character after it,
   * the greedy `[^]+` running to the last such `close`. The result is the
   * matched span as a start index and an exclusive end index.
   */
  function GreedySpanFrom(s: string, open: string, close: string, p: nat): (r: Option<(nat, nat)>)
    requires p <= |s|
    ensures r.None? <==> !SpanExists(s, open, close, p)
    ensures r.Some? ==>
      var (a, b) := r.value;
      && p <= a && OccursAt(s, a, open)
      && a + |open| + 1 + |close| <= b <= |s| && OccursAt(s, b - |close|, close)
    decreases |s| - p
  {
    var here := if OccursAt(s, p, open) then LastOccurrence(s, close, p + |open| + 1) else None;
    if here.Some? then
      Some((p, here.value + |close|))
    else if p == |s| then
      assert !SpanExists(s, open, close, p) by {
        forall a, q | p <= a && OccursAt(s, a, open) && OccursAt(s, q, close)
          ensures q < a + |open| + 1
        {
          assert a == p;
        }
      }
      None
    else
      var r := GreedySpanFrom(s, open, close, p + 1);
      assert r.None? <==> !SpanExists(s, open, close, p) by {
        forall a, q | p <= a && OccursAt(s, a, open) && OccursAt(s, q, close) && q >= a + |open| + 1
          ensures p + 1 <= a
        {
        }
      }
      r
  }

  /** Where no match starts at `p`, the scan goes on from `p + 1`. */
  lemma GreedySpanFromSkip(s: string, open: string, close: string, p: nat)
    requires p < |s|
    requires !OccursAt(s, p, open) || LastOccurrence(s, close, p + |open| + 1).None?
    ensures GreedySpanFrom(s, open, close, p) == GreedySpanFrom(s, open, close, p + 1)
  {
  }

  /** The greedy `[^]+` makes the span end at the very last `close` of the text. */
  lemma {:induction false} GreedySpanEndsAtLastClose(s: string, open: string, close: string, p: nat)
    requires p <= |s|
    ensures GreedySpanFrom(s, open, close, p).Some? ==>
      forall k :: GreedySpanFrom(s, open, close, p).value.1 - |close| < k ==> !OccursAt(s, k, close)
    decreases |s| - p
  {
    var r := GreedySpanFrom(s, open, close, p);
    var lo: nat := p + |open| + 1;
    if r.Some? && OccursAt(s, p, open) && LastOccurrence(s, close, lo).Some? {
      assert r.value.1 - |close| == LastOccurrence(s, close, lo).value;
    } else if r.Some? && p < |s| {
      GreedySpanFromSkip(s, open, close, p);
      GreedySpanEndsAtLastClose(s, open, close, p + 1);
    }
  }

  /** One step of the scan: a start skipped at `p` holds no `open` that a later `close` follows. */
  lemma FirstOpenStep(s: string, open: string, close: string, p: nat, a: nat, b: int)
    requires p + 1 <= a && a + |open| + 1 + |close| <= b && OccursAt(s, b - |close|, close)
    requires forall k :: p + 1 <= k < a ==> !OccursAt(s, k, open)
    requires !OccursAt(s, p, open) || LastOccurrence(s, close, p + |open| + 1).None?
    ensures forall k :: p <= k < a ==> !OccursAt(s, k, open)
  {
    LastOccurrenceExists(s, close, p + |open| + 1, b - |close|);
  }

  /** The span starts at the first `open` that has a `close` after it. */
  lemma {:induction false} GreedySpanStartsAtFirstOpen(s: string, open: string, close: string, p: nat)
    requires p <= |s|
    ensures GreedySpanFrom(s, open, close, p).Some? ==>
      forall k :: p <= k < GreedySpanFrom(s, open, close, p).value.0 ==> !OccursAt(s, k, open)
    decreases |s| - p
  {
    var r := GreedySpanFrom(s, open, close, p);
    var lo: nat := p + |open| + 1;
    if r.Some? && p < |s| && !(OccursAt(s, p, open) && LastOccurrence(s, close, lo).Some?) {
      GreedySpanFromSkip(s, open, close, p);
      GreedySpanStartsAtFirstOpen(s, open, close, p + 1);
      FirstOpenStep(s, open, close, p, r.value.0, r.value.1);
    }
  }

  /** `s.match(/open[^]+close/g)[0]` as a span of `s`, or None where `match` gives null. */
  function GreedySpan(s: string, open: string, close: string): (r: Option<(nat, nat)>)
    ensures r.None? <==> !SpanExists(s, open, close, 0)
    ensures r.Some? ==>
      var (a, b) := r.value;
      && OccursAt(s, a, open) && a + |open| + 1 + |close| <= b <= |s| && OccursAt(s, b - |close|, close)
  {
    GreedySpanFrom(s, open, close, 0)
  }

  /** The text of a span that starts with `open` and ends with `close`. */
  lemma SpanText(s: string, a: nat, b: nat, open: string, close: string)
    requires a + |open| + 1 + |close| <= b <= |s| && OccursAt(s, a, open) && OccursAt(s, b - |close|, close)
    ensures |open| + 1 + |close| <= |s[a..b]|
    ensures OccursAt(s[a..b], 0, open) && OccursAt(s[a..b], |s[a..b]| - |close|, close)
  {
    OccursInSlice(s, a, b, a, open);
    OccursInSlice(s, a, b, b - |close|, close);
  }

  /**
   * `s.match(/open[^]+close/g)[0]`: the matched text, which starts with
   * `open`, ends with `close` and has at least one character between them;
   * None where `match` gives null.
   */
  function MatchedText(s: string, open: string, close: string): (r: Option<string>)
    ensures r.None? <==> !SpanExists(s, open, close, 0)
    ensures r.Some? ==> |open| + 1 + |close| <= |r.value| <= |s|
    ensures r.Some? ==> OccursAt(r.value, 0, open) && OccursAt(r.value, |r.value| - |close|, close)
  {
    match GreedySpan(s, open, close)
    case None => None
    case Some((a, b)) =>
      SpanText(s, a, b, open, close);
      Some(s[a..b])
  }

  // ---------------------------------------------------------------------------
  // s.replace(/p0|p1|.../g, ""): delete every match of an alternation

  predicate NonEmptyPatterns(pats: seq<string>) {
    forall m :: 0 <= m < |pats| ==> pats[m] != []
  }

  /** The first alternative of `pats[j..]` that occurs at index `k`, the branches tried in order. */
  function FirstAlternative(s: string, k: nat, pats: seq<string>, j: nat): (r: Option<nat>)
    requires j <= |pats|
    ensures r.Some? ==> j <= r.value < |pats| && OccursAt(s, k, pats[r.value])
    ensures r.Some? ==> forall m :: j <= m < r.value ==> !OccursAt(s, k, pats[m])
    ensures r.None? ==> forall m :: j <= m < |pats| ==> !OccursAt(s, k, pats[m])
    decreases |pats| - j
  {
    if j == |pats| then None
    else if OccursAt(s, k, pats[j]) then Some(j)
    else FirstAlternative(s, k, pats, j + 1)
  }

  /** The global replace by "" from index `k` on: a match is dropped and the scan resumes after it. */
  function DeleteFrom(s: string, pats: seq<string>, k: nat): (r: string)
    requires NonEmptyPatterns(pats) && k <= |s|
    ensures |r| <= |s| - k
    decreases |s| - k
  {
    if k == |s| then []
    else match FirstAlternative(s, k, pats, 0)
      case Some(m) => DeleteFrom(s, pats, k + |pats[m]|)
      case None => [s[k]] + DeleteFrom(s, pats, k + 1)
  }

  /** `s.replace(/p0|p1|.../g, "")`. */
  function DeleteAll(s: string, pats: seq<string>): (r: string)
    requires NonEmptyPatterns(pats)
    ensures |r| <= |s|
  {
    DeleteFrom(s, pats, 0)
  }

  /** Where no alternative occurs, the replace copies the text through. */
  lemma {:induction false} DeleteFromPlain(s: string, pats: seq<string>, k: nat, j: nat)
    requires NonEmptyPatterns(pats) && k <= j <= |s|
    requires forall t, m :: k <= t < j && 0 <= m < |pats| ==> !OccursAt(s, t, pats[m])
    ensures DeleteFrom(s, pats, k) == s[k..j] + DeleteFrom(s, pats, j)
    decreases j - k
  {
    if k < j {
      assert forall m :: 0 <= m < |pats| ==> !OccursAt(s, k, pats[m]);
      assert FirstAlternative(s, k, pats, 0).None?;
      assert DeleteFrom(s, pats, k) == [s[k]] + DeleteFrom(s, pats, k + 1);
      DeleteFromPlain(s, pats, k + 1, j);
      assert s[k..j] == [s[k]] + s[k + 1..j];
      ConcatAssociative([s[k]], s[k + 1..j], DeleteFrom(s, pats, j));
    }
  }

  /** Index `j` of `s` lies inside some occurrence of some alternative. */
  ghost predicate Covered(s: string, pats: seq<string>, j: int) {
    exists k, m :: 0 <= m < |pats| && OccursAt(s, k, pats[m]) && k <= j < k + |pats[m]|
  }

  /** The characters of `s[i..j]` that no occurrence of any alternative covers, in order. */
  ghost function Uncovered(s: string, pats: seq<string>, i: nat, j: nat): string
    requires i <= j <= |s|
    decreases j - i
  {
    if i == j then [] else (if Covered(s, pats, i) then [] else [s[i]]) + Uncovered(s, pats, i + 1, j)
  }

  /** The characters `pats[a][d..]` are not a proper prefix of `pats[b]`: index-wise, some position differs. */
  predicate Differs(a: string, b: string, d: nat, j: nat)
    decreases |a| - d - j
  {
    d + j < |a| && j < |b| && (a[d + j] != b[j] || Differs(a, b, d, j + 1))
  }

  /** No suffix `a[d..]`, `d >= d0`, is a proper prefix of `b`: an occurrence of `a` and a later-ending one of `b` never overlap. */
  predicate NoSuffixIsPrefix(a: string, b: string, d0: nat)
    decreases |a| - d0
  {
    d0 >= |a| || ((|a| - d0 >= |b| || Differs(a, b, d0, 0)) && NoSuffixIsPrefix(a, b, d0 + 1))
  }

  /** No two occurrences of the alternatives, in any text, overlap unless one lies inside the other. */
  predicate NonOverlapping(pats: seq<string>) {
    forall a, b :: 0 <= a < |pats| && 0 <= b < |pats| ==> NoSuffixIsPrefix(pats[a], pats[b], 0)
  }

  /**
   * A test for NoSuffixIsPrefix that looks at two characters per suffix:
   * every suffix of `a` shorter than `b` differs from `b` in its first or in
   * its last character.
   */
  predicate SuffixEndsDiffer(a: string, b: string) {
    forall d :: 0 <= d < |a| && |a| - d < |b| ==> a[d] != b[0] || a[|a| - 1] != b[|a| - d - 1]
  }

  lemma {:induction false} DiffersAt(a: string, b: string, d: nat, j: nat, t: nat)
    requires j <= t && d + t < |a| && t < |b| && a[d + t] != b[t]
    ensures Differs(a, b, d, j)
    decreases t - j
  {
    if j < t {
      DiffersAt(a, b, d, j + 1, t);
    }
  }

  /** The two-character test is enough. */
  lemma {:induction false} SuffixEndsDifferSuffices(a: string, b: string, d0: nat)
    requires SuffixEndsDiffer(a, b)
    ensures NoSuffixIsPrefix(a, b, d0)
    decreases |a| - d0
  {
    if d0 < |a| {
      if |a| - d0 < |b| {
        if a[d0] != b[0] {
          DiffersAt(a, b, d0, 0, 0);
        } else {
          DiffersAt(a, b, d0, 0, |a| - d0 - 1);
        }
      }
      SuffixEndsDifferSuffices(a, b, d0 + 1);
    }
  }

  /** `c` occurs in `b`, if at all, only as its last character. */
  predicate OnlyAtEnd(b: string, c: char) {
    forall t :: 0 <= t < |b| - 1 ==> b[t] != c
  }

  /** A shorter suffix of `a` cannot be a prefix of `b` when `b` holds the last character of `a` only at its own end. */
  lemma LastCharOnlyAtEnd(a: string, b: string)
    requires a != [] && OnlyAtEnd(b, a[|a| - 1])
    ensures SuffixEndsDiffer(a, b)
  {
  }

  /** Nor when the first character of `b` occurs in `a` at most at its start, and there only if `a` is not shorter than `b`. */
  lemma FirstCharOnlyAtStart(a: string, b: string)
    requires b != [] && a != [] && (|a| < |b| ==> a[0] != b[0])
    requires forall d :: 1 <= d < |a| ==> a[d] != b[0]
    ensures SuffixEndsDiffer(a, b)
  {
  }

  lemma {:induction false} NoSuffixIsPrefixAt(a: string, b: string, d0: nat, d: nat)
    requires NoSuffixIsPrefix(a, b, d0) && d0 <= d < |a| && |a| - d < |b|
    ensures Differs(a, b, d, 0)
    decreases d - d0
  {
    if d0 < d {
      NoSuffixIsPrefixAt(a, b, d0 + 1, d);
    }
  }

  lemma {:induction false} DiffersWitness(s: string, ka: int, a: string, kb: int, b: string, d: nat, j: nat)
    requires OccursAt(s, ka, a) && OccursAt(s, kb, b) && kb == ka + d
    requires Differs(a, b, d, j)
    ensures false
    decreases |a| - d - j
  {
    if a[d + j] != b[j] {
      OccursAtChar(s, ka, a, d + j);
      OccursAtChar(s, kb, b, j);
    } else {
      DiffersWitness(s, ka, a, kb, b, d, j + 1);
    }
  }

  /** Under NonOverlapping, an occurrence never starts inside another one and runs past its end. */
  lemma NoCrossing(s: string, pats: seq<string>, ka: int, ma: nat, kb: int, mb: nat)
    requires NonOverlapping(pats) && ma < |pats| && mb < |pats|
    requires OccursAt(s, ka, pats[ma]) && OccursAt(s, kb, pats[mb])
    requires ka <= kb < ka + |pats[ma]| < kb + |pats[mb]|
    ensures false
  {
    NoSuffixIsPrefixAt(pats[ma], pats[mb], 0, kb - ka);
    DiffersWitness(s, ka, pats[ma], kb, pats[mb], kb - ka, 0);
  }

  /** No occurrence that starts before `k` reaches past `k`. */
  ghost predicate NotInside(s: string, pats: seq<string>, k: int) {
    forall k', m :: 0 <= m < |pats| && OccursAt(s, k', pats[m]) && k' < k ==> k' + |pats[m]| <= k
  }

  lemma {:induction false} UncoveredSkip(s: string, pats: seq<string>, i: nat, j: nat)
    requires i <= j <= |s|
    requires forall t :: i <= t < j ==> Covered(s, pats, t)
    ensures Uncovered(s, pats, i, |s|) == Uncovered(s, pats, j, |s|)
    decreases j - i
  {
    if i < j {
      UncoveredSkip(s, pats, i + 1, j);
    }
  }

  /** An occurrence covers each of its characters. */
  lemma MatchCovers(s: string, pats: seq<string>, k: int, m: nat)
    requires m < |pats| && OccursAt(s, k, pats[m])
    ensures forall t :: k <= t < k + |pats[m]| ==> Covered(s, pats, t)
  {
    forall t | k <= t < k + |pats[m]| ensures Covered(s, pats, t) {
      assert OccursAt(s, k, pats[m]) && k <= t < k + |pats[m]|;
    }
  }

  /** After an occurrence that starts outside every other one, no occurrence reaches past its end. */
  lemma NotInsideAfterMatch(s: string, pats: seq<string>, k: int, m: nat)
    requires NonOverlapping(pats) && NotInside(s, pats, k)
    requires m < |pats| && OccursAt(s, k, pats[m])
    ensures NotInside(s, pats, k + |pats[m]|)
  {
    var e := k + |pats[m]|;
    forall k', m' | 0 <= m' < |pats| && OccursAt(s, k', pats[m']) && k' < e
      ensures k' + |pats[m']| <= e
    {
      if k' < k {
        assert k' + |pats[m']| <= k;
      } else if k' + |pats[m']| > e {
        NoCrossing(s, pats, k, m, k', m');
      }
    }
  }

  /** A position where no alternative occurs, and outside every occurrence, is uncovered. */
  lemma NotInsideAfterPlain(s: string, pats: seq<string>, k: int)
    requires NonEmptyPatterns(pats) && NotInside(s, pats, k)
    requires forall m :: 0 <= m < |pats| ==> !OccursAt(s, k, pats[m])
    ensures NotInside(s, pats, k + 1) && !Covered(s, pats, k)
  {
    forall k', m' | 0 <= m' < |pats| && OccursAt(s, k', pats[m']) && k' <= k
      ensures k' + |pats[m']| <= k
    {
    }
  }

  /**
   * The global replace removes exactly the characters covered by some
   * occurrence of an alternative: every occurrence in the input is deleted,
   * and nothing else is.
   */
  lemma {:induction false} DeleteFromUncovered(s: string, pats: seq<string>, k: nat)
    requires NonEmptyPatterns(pats) && NonOverlapping(pats)
    requires k <= |s| && NotInside(s, pats, k)
    ensures DeleteFrom(s, pats, k) == Uncovered(s, pats, k, |s|)
    decreases |s| - k
  {
    if k < |s| {
      match FirstAlternative(s, k, pats, 0)
      case Some(m) =>
        var e := k + |pats[m]|;
        assert DeleteFrom(s, pats, k) == DeleteFrom(s, pats, e);
        MatchCovers(s, pats, k, m);
        UncoveredSkip(s, pats, k, e);
        NotInsideAfterMatch(s, pats, k, m);
        DeleteFromUncovered(s, pats, e);
      case None =>
        assert DeleteFrom(s, pats, k) == [s[k]] + DeleteFrom(s, pats, k + 1);
        NotInsideAfterPlain(s, pats, k);
        assert Uncovered(s, pats, k, |s|) == [s[k]] + Uncovered(s, pats, k + 1, |s|);
        DeleteFromUncovered(s, pats, k + 1);
    }
  }

  /** DeleteAll, for alternatives that never overlap, keeps exactly the uncovered characters. */
  lemma DeleteAllUncovered(s: string, pats: seq<string>)
    requires NonEmptyPatterns(pats) && NonOverlapping(pats)
    ensures DeleteAll(s, pats) == Uncovered(s, pats, 0, |s|)
  {
    DeleteFromUncovered(s, pats, 0);
  }

  lemma {:induction false} UncoveredSplit(s: string, pats: seq<string>, i: nat, j: nat, k: nat)
    requires i <= j <= k <= |s|
    ensures Uncovered(s, pats, i, k) == Uncovered(s, pats, i, j) + Uncovered(s, pats, j, k)
    decreases j - i
  {
    if i < j {
      UncoveredSplit(s, pats, i + 1, j, k);
    }
  }

  lemma {:induction false} UncoveredIdentity(s: string, pats: seq<string>, i: nat, j: nat)
    requires i <= j <= |s|
    requires forall t :: i <= t < j ==> !Covered(s, pats, t)
    ensures Uncovered(s, pats, i, j) == s[i..j]
    decreases j - i
  {
    if i < j {
      UncoveredIdentity(s, pats, i + 1, j);
    }
  }

  lemma ConcatAssociative(a: string, b: string, c: string)
    ensures a + (b + c) == a + b + c
  {
  }

  /** No alternative starts with a character of `open` or ends with a character of `close`. */
  predicate EndsApart(pats: seq<string>, open: string, close: string) {
    forall m :: 0 <= m < |pats| ==> pats[m] != [] && pats[m][0] !in open && pats[m][|pats[m]| - 1] !in close
  }

  lemma LastCharMismatch(s: string, k: int, pat: string)
    requires pat != [] && 0 <= k + |pat| - 1 < |s| && s[k + |pat| - 1] != pat[|pat| - 1]
    ensures !OccursAt(s, k, pat)
  {
    if OccursAt(s, k, pat) {
      OccursAtChar(s, k, pat, |pat| - 1);
    }
  }

  /** Nothing covers a character of the leading `open` when no alternative starts with one of its characters. */
  lemma StartNotCovered(s: string, pats: seq<string>, open: string, close: string, t: nat)
    requires EndsApart(pats, open, close) && OccursAt(s, 0, open) && t < |open|
    ensures !Covered(s, pats, t)
  {
    forall k, m | 0 <= m < |pats| && 0 <= k <= t
      ensures !OccursAt(s, k, pats[m])
    {
      OccursAtChar(s, 0, open, k);
      FirstCharMismatch(s, k, pats[m]);
    }
  }

  /** Nothing covers a character of the trailing `close` when no alternative ends with one of its characters. */
  lemma EndNotCovered(s: string, pats: seq<string>, open: string, close: string, t: nat)
    requires EndsApart(pats, open, close) && |close| <= |s| && OccursAt(s, |s| - |close|, close)
    requires |s| - |close| <= t < |s|
    ensures !Covered(s, pats, t)
  {
    var c := |s| - |close|;
    forall k, m | 0 <= m < |pats| && k <= t < k + |pats[m]| && k + |pats[m]| <= |s|
      ensures !OccursAt(s, k, pats[m])
    {
      var e := k + |pats[m]| - 1;
      OccursAtChar(s, c, close, e - c);
      LastCharMismatch(s, k, pats[m]);
    }
  }

  /** No occurrence of an alternative reaches into the leading `open` or the trailing `close`. */
  lemma EndsUncovered(s: string, pats: seq<string>, open: string, close: string)
    requires EndsApart(pats, open, close)
    requires |open| + |close| <= |s| && OccursAt(s, 0, open) && OccursAt(s, |s| - |close|, close)
    ensures forall t :: 0 <= t < |open| ==> !Covered(s, pats, t)
    ensures forall t :: |s| - |close| <= t < |s| ==> !Covered(s, pats, t)
  {
    forall t | 0 <= t < |open| ensures !Covered(s, pats, t) {
      StartNotCovered(s, pats, open, close, t);
    }
    forall t | |s| - |close| <= t < |s| ensures !Covered(s, pats, t) {
      EndNotCovered(s, pats, open, close, t);
    }
  }

  /** Uncovered characters at both ends of a text survive, in place, around the uncovered middle. */
  lemma UncoveredEnds(s: string, pats: seq<string>, n: nat, c: nat)
    requires n <= c <= |s|
    requires forall t :: 0 <= t < n ==> !Covered(s, pats, t)
    requires forall t :: c <= t < |s| ==> !Covered(s, pats, t)
    ensures Uncovered(s, pats, 0, |s|) == s[0..n] + (Uncovered(s, pats, n, c) + s[c..|s|])
  {
    UncoveredSplit(s, pats, 0, n, |s|);
    UncoveredSplit(s, pats, n, c, |s|);
    UncoveredIdentity(s, pats, 0, n);
    UncoveredIdentity(s, pats, c, |s|);
  }

  /**
   * A text that starts with `open` and ends with `close`, where no
   * alternative starts inside `open` or ends inside `close`, keeps both ends
   * when the alternatives are deleted.
   */
  lemma DeleteAllKeepsEnds(s: string, pats: seq<string>, open: string, close: string)
    requires NonEmptyPatterns(pats) && NonOverlapping(pats) && EndsApart(pats, open, close)
    requires |open| + |close| <= |s| && OccursAt(s, 0, open) && OccursAt(s, |s| - |close|, close)
    ensures DeleteAll(s, pats) == Uncovered(s, pats, 0, |s|)
    ensures DeleteAll(s, pats) == open + Uncovered(s, pats, |open|, |s| - |close|) + close
  {
    var n, c := |open|, |s| - |close|;
    assert s[0..n] == open;
    assert s[c..|s|] == close;
    DeleteAllUncovered(s, pats);
    EndsUncovered(s, pats, open, close);
    UncoveredEnds(s, pats, n, c);
    ConcatAssociative(open, Uncovered(s, pats, n, c), close);
  }

  /** DeleteAllKeepsEnds, followed by a trim that finds nothing to remove because neither end is white space. */
  lemma DeleteAllThenTrim(s: string, pats: seq<string>, open: string, close: string)
    requires NonEmptyPatterns(pats) && NonOverlapping(pats) && EndsApart(pats, open, close)
    requires |open| + |close| <= |s| && OccursAt(s, 0, open) && OccursAt(s, |s| - |close|, close)
    requires open != [] && !IsWhitespace(open[0]) && close != [] && !IsWhitespace(close[|close| - 1])
    ensures Trim(DeleteAll(s, pats)) == Uncovered(s, pats, 0, |s|)
    ensures Trim(DeleteAll(s, pats)) == open + Uncovered(s, pats, |open|, |s| - |close|) + close
  {
    DeleteAllKeepsEnds(s, pats, open, close);
    TrimKeepsEnds(open, Uncovered(s, pats, |open|, |s| - |close|), close);
  }

  // ---------------------------------------------------------------------------
  // Removal of single characters: s.replace(/[()\[\]]/g, "")

  /** The class `[()\[\]]`. */
  predicate IsBracket(c: char) {
    c == '(' || c == ')' || c == '[' || c == ']'
  }

  predicate NoBrackets(s: string) {
    forall k :: 0 <= k < |s| ==> !IsBracket(s[k])
  }

  /** `s.replace(/[()\[\]]/g, "")`: the bracket characters are dropped, their contents kept. */
  function StripBrackets(s: string): (r: string)
    ensures NoBrackets(r)
    ensures |r| <= |s|
  {
    if s == [] then []
    else (if IsBracket(s[0]) then [] else [s[0]]) + StripBrackets(s[1..])
  }

  /** Brackets are removed piece by piece. */
  lemma {:induction false} StripBracketsAppend(a: string, b: string)
    ensures StripBrackets(a + b) == StripBrackets(a) + StripBrackets(b)
  {
    if a == [] {
      assert a + b == b;
    } else {
      var head := if IsBracket(a[0]) then [] else [a[0]];
      assert (a + b)[0] == a[0];
      assert (a + b)[1..] == a[1..] + b;
      assert StripBrackets(a + b) == head + StripBrackets(a[1..] + b);
      assert StripBrackets(a) == head + StripBrackets(a[1..]);
      StripBracketsAppend(a[1..], b);
      ConcatAssociative(head, StripBrackets(a[1..]), StripBrackets(b));
    }
  }

  /** A single bracket character is removed. */
  lemma StripOneBracket(o: char)
    requires IsBracket(o)
    ensures StripBrackets([o]) == []
  {
    assert [o][1..] == [];
  }

  /** One pair of brackets around the last word is removed. */
  lemma StripBracketPair(w1: string, o: char, w2: string, c: char)
    requires NoBrackets(w1) && NoBrackets(w2) && IsBracket(o) && IsBracket(c)
    ensures StripBrackets(w1 + [o] + w2 + [c]) == w1 + w2
  {
    var x := w1 + [o];
    var y := x + w2;
    StripOneBracket(o);
    StripOneBracket(c);
    StripBracketsKeepsClean(w1);
    StripBracketsKeepsClean(w2);
    StripBracketsAppend(w1, [o]);
    assert StripBrackets(x) == w1;
    StripBracketsAppend(x, w2);
    assert StripBrackets(y) == w1 + w2;
    StripBracketsAppend(y, [c]);
  }

  /** Text without brackets is left as it is. */
  lemma {:induction false} StripBracketsKeepsClean(s: string)
    requires NoBrackets(s)
    ensures StripBrackets(s) == s
  {
    if s != [] {
      StripBracketsKeepsClean(s[1..]);
    }
  }

  /** Removing the brackets a second time changes nothing. */
  lemma StripBracketsIdempotent(s: string)
    ensures StripBrackets(StripBrackets(s)) == StripBrackets(s)
  {
    StripBracketsKeepsClean(StripBrackets(s));
  }

  /** Only bracket characters are dropped: every other character is kept as often as it occurs. */
  lemma {:induction false} StripBracketsKeepsOthers(s: string, c: char)
    requires !IsBracket(c)
    ensures multiset(StripBrackets(s))[c] == multiset(s)[c]
  {
    if s != [] {
      StripBracketsKeepsOthers(s[1..], c);
      assert s == [s[0]] + s[1..];
    }
  }

  // ---------------------------------------------------------------------------
  // s.split(/,\s?/)

  predicate NoComma(s: string) {
    forall k :: 0 <= k < |s| ==> s[k] != ','
  }

  /**
   * The engine's split loop: the current piece started at `p`, and the
   * separator `,\s?` is tried at `q`. A separator is a comma and, greedily,
   * one white-space character after it.
   */
  function SplitFrom(t: string, p: nat, q: nat): (r: seq<string>)
    requires p <= q <= |t|
    requires forall k :: p <= k < q ==> t[k] != ','
    ensures |r| >= 1
    ensures forall i :: 0 <= i < |r| ==> NoComma(r[i])
    ensures forall i, c :: 0 <= i < |r| && c in r[i] ==> c in t
    decreases |t| - q
  {
    if q == |t| then
      assert forall k :: 0 <= k < |t[p..]| ==> t[p..][k] == t[p + k];
      assert forall c :: c in t[p..] ==> c in t;
      [t[p..]]
    else if t[q] == ',' then
      var e := if q + 1 < |t| && IsWhitespace(t[q + 1]) then q + 2 else q + 1;
      var rest := SplitFrom(t, e, e);
      assert forall k :: 0 <= k < |t[p..q]| ==> t[p..q][k] == t[p + k];
      assert forall c :: c in t[p..q] ==> c in t;
      [t[p..q]] + rest
    else
      SplitFrom(t, p, q + 1)
  }

  /** `t.split(/,\s?/)`. The separator never matches the empty string, so "" splits to [""]. */
  function Split(t: string): (r: seq<string>)
    ensures |r| >= 1
    ensures forall i :: 0 <= i < |r| ==> NoComma(r[i])
    ensures forall i, c :: 0 <= i < |r| && c in r[i] ==> c in t
  {
    SplitFrom(t, 0, 0)
  }

  /** The pieces with `sep` between consecutive ones. */
  function Join(xs: seq<string>, sep: string): string
    requires |xs| >= 1
  {
    if |xs| == 1 then xs[0] else xs[0] + sep + Join(xs[1..], sep)
  }

  lemma {:induction false} SplitFromSkip(t: string, p: nat, q: nat, q': nat)
    requires p <= q <= q' <= |t|
    requires forall k :: p <= k < q' ==> t[k] != ','
    ensures SplitFrom(t, p, q) == SplitFrom(t, p, q')
    decreases q' - q
  {
    if q < q' {
      SplitFromSkip(t, p, q + 1, q');
    }
  }

  /** Text without a comma splits into one piece, itself. */
  lemma SplitWithoutComma(t: string)
    requires NoComma(t)
    ensures Split(t) == [t]
  {
    SplitFromSkip(t, 0, 0, |t|);
  }

  lemma {:induction false} SplitFromShift(a: string, b: string, p: nat, q: nat)
    requires p <= q <= |b|
    requires forall k :: p <= k < q ==> b[k] != ','
    ensures SplitFrom(a + b, |a| + p, |a| + q) == SplitFrom(b, p, q)
    decreases |b| - q
  {
    var t := a + b;
    assert forall k :: 0 <= k < |b| ==> t[|a| + k] == b[k];
    if q == |b| {
      assert t[|a| + p..] == b[p..];
    } else if b[q] == ',' {
      var e := if q + 1 < |b| && IsWhitespace(b[q + 1]) then q + 2 else q + 1;
      assert t[|a| + p..|a| + q] == b[p..q];
      SplitFromShift(a, b, e, e);
    } else {
      SplitFromShift(a, b, p, q + 1);
    }
  }

  /** Comma-free pieces joined with ", " split back into the same pieces, in the same order. */
  lemma {:induction false} SplitJoin(xs: seq<string>)
    requires |xs| >= 1
    requires forall i :: 0 <= i < |xs| ==> NoComma(xs[i])
    ensures Split(Join(xs, ", ")) == xs
    decreases |xs|
  {
    if |xs| == 1 {
      SplitWithoutComma(xs[0]);
    } else {
      var x, rest := xs[0], Join(xs[1..], ", ");
      var t := Join(xs, ", ");
      assert t == (x + ", ") + rest;
      assert forall k :: 0 <= k < |x| ==> t[k] == x[k];
      SplitFromSkip(t, 0, 0, |x|);
      assert t[|x|] == ',' && t[|x| + 1] == ' ';
      assert t[0..|x|] == x;
      SplitFromShift(x + ", ", rest, 0, 0);
      SplitJoin(xs[1..]);
    }
  }

  /** Every comma of `t` is followed by one space. */
  predicate CommaSpaced(t: string) {
    forall k :: 0 <= k < |t| && t[k] == ',' ==> k + 1 < |t| && t[k + 1] == ' '
  }

  lemma SpaceIsWhitespace()
    ensures IsWhitespace(' ')
  {
  }

  lemma JoinCons(x: string, rest: seq<string>, sep: string)
    requires |rest| >= 1
    ensures Join([x] + rest, sep) == x + sep + Join(rest, sep)
  {
    assert ([x] + rest)[1..] == rest;
  }

  lemma CommaSpaceAt(t: string, p: nat, q: nat)
    requires p <= q && q + 2 <= |t| && t[q] == ',' && t[q + 1] == ' '
    ensures t[p..] == t[p..q] + ", " + t[q + 2..]
  {
    assert t[q..q + 2] == ", ";
    assert t[p..] == t[p..q] + t[q..q + 2] + t[q + 2..];
  }

  lemma {:induction false} JoinSplitFrom(t: string, p: nat, q: nat)
    requires p <= q <= |t| && CommaSpaced(t)
    requires forall k :: p <= k < q ==> t[k] != ','
    ensures Join(SplitFrom(t, p, q), ", ") == t[p..]
    decreases |t| - q
  {
    if q < |t| {
      if t[q] == ',' {
        assert q + 1 < |t| && t[q + 1] == ' ';
        SpaceIsWhitespace();
        var rest := SplitFrom(t, q + 2, q + 2);
        JoinSplitFrom(t, q + 2, q + 2);
        assert SplitFrom(t, p, q) == [t[p..q]] + rest;
        JoinCons(t[p..q], rest, ", ");
        CommaSpaceAt(t, p, q);
      } else {
        JoinSplitFrom(t, p, q + 1);
      }
    }
  }

  /** When every comma is followed by one space, joining the pieces with ", " restores the text. */
  lemma JoinSplit(t: string)
    requires CommaSpaced(t)
    ensures Join(Split(t), ", ") == t
  {
    JoinSplitFrom(t, 0, 0);
  }

  /**
   * The text with the one white-space character after each comma removed,
   * which is all that `split(/,\s?/)` discards besides the commas.
   */
  function DropSpaceAfterComma(t: string): (r: string)
    ensures |r| <= |t|
    decreases |t|
  {
    if t == [] then []
    else if t[0] == ',' && |t| > 1 && IsWhitespace(t[1]) then "," + DropSpaceAfterComma(t[2..])
    else [t[0]] + DropSpaceAfterComma(t[1..])
  }

  lemma DropSpaceAtComma(t: string, q: nat)
    requires q + 1 < |t| && t[q] == ',' && IsWhitespace(t[q + 1])
    ensures DropSpaceAfterComma(t[q..]) == "," + DropSpaceAfterComma(t[q + 2..])
  {
    assert t[q..][2..] == t[q + 2..];
  }

  lemma DropSpaceKeeps(t: string, q: nat)
    requires q < |t| && !(t[q] == ',' && q + 1 < |t| && IsWhitespace(t[q + 1]))
    ensures DropSpaceAfterComma(t[q..]) == [t[q]] + DropSpaceAfterComma(t[q + 1..])
  {
    assert t[q..][1..] == t[q + 1..];
  }

  /** The step of JoinSplitFromDropped at a comma, whose separator ends before `e`. */
  lemma JoinAtComma(t: string, p: nat, q: nat, e: nat)
    requires p <= q < |t| && t[q] == ','
    requires forall k :: p <= k < q ==> t[k] != ','
    requires e == if q + 1 < |t| && IsWhitespace(t[q + 1]) then q + 2 else q + 1
    requires Join(SplitFrom(t, e, e), ",") == t[e..e] + DropSpaceAfterComma(t[e..])
    ensures Join(SplitFrom(t, p, q), ",") == t[p..q] + DropSpaceAfterComma(t[q..])
  {
    var rest := SplitFrom(t, e, e);
    assert SplitFrom(t, p, q) == [t[p..q]] + rest;
    assert t[e..e] == [];
    JoinCons(t[p..q], rest, ",");
    if e == q + 2 {
      DropSpaceAtComma(t, q);
    } else {
      DropSpaceKeeps(t, q);
    }
    ConcatAssociative(t[p..q], ",", DropSpaceAfterComma(t[e..]));
  }

  lemma {:induction false} JoinSplitFromDropped(t: string, p: nat, q: nat)
    requires p <= q <= |t|
    requires forall k :: p <= k < q ==> t[k] != ','
    ensures Join(SplitFrom(t, p, q), ",") == t[p..q] + DropSpaceAfterComma(t[q..])
    decreases |t| - q
  {
    if q == |t| {
      assert t[q..] == [];
      assert t[p..q] == t[p..];
    } else if t[q] == ',' {
      var e := if q + 1 < |t| && IsWhitespace(t[q + 1]) then q + 2 else q + 1;
      JoinSplitFromDropped(t, e, e);
      JoinAtComma(t, p, q, e);
    } else {
      JoinSplitFromDropped(t, p, q + 1);
      DropSpaceKeeps(t, q);
      assert t[p..q + 1] == t[p..q] + [t[q]];
      ConcatAssociative(t[p..q], [t[q]], DropSpaceAfterComma(t[q + 1..]));
    }
  }

  /**
   * Where `split(/,\s?/)` cuts, for every text: joined with bare commas, the
   * pieces give the text with the one white-space character after each comma
   * removed. Since no piece holds a comma, this fixes every piece.
   */
  lemma SplitDropsSpaceAfterComma(t: string)
    ensures Join(Split(t), ",") == DropSpaceAfterComma(t)
  {
    JoinSplitFromDropped(t, 0, 0);
    assert t[0..0] == [] && t[0..] == t;
  }

  lemma {:induction false} SplitFromCount(t: string, p: nat, q: nat)
    requires p <= q <= |t|
    requires forall k :: p <= k < q ==> t[k] != ','
    ensures |SplitFrom(t, p, q)| == multiset(t[q..])[','] + 1
    decreases |t| - q
  {
    if q == |t| {
      assert t[q..] == [];
    } else {
      assert t[q..] == [t[q]] + t[q + 1..];
      if t[q] == ',' {
        var e := if q + 1 < |t| && IsWhitespace(t[q + 1]) then q + 2 else q + 1;
        SplitFromCount(t, e, e);
        if e == q + 2 {
          assert t[q + 1..] == [t[q + 1]] + t[q + 2..];
          assert t[q + 1] != ',';
        }
      } else {
        SplitFromCount(t, p, q + 1);
      }
    }
  }

  /** Every comma separates two pieces: there is one piece more than the text has commas. */
  lemma SplitCount(t: string)
    ensures |Split(t)| == multiset(t)[','] + 1
  {
    SplitFromCount(t, 0, 0);
    assert t[0..] == t;
  }
}
