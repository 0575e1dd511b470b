/**
  The name tokenizer of the validator: a scanner that behaves like `re.findall` with the
  compiled pattern of `TypeValidator.__init__` (validator.py:85-87).

  The pattern has two alternatives, tried in this order at every position:
    1. a string literal: an optional run of `b`, `f`, `r` prefix letters, then a triple-quoted,
       double-quoted or single-quoted literal (the last two with backslash escapes);
       it has no capture group, so `findall` yields "" for it;
    2. a bare identifier `[a-zA-Z_][a-zA-Z0-9_]*` that is not preceded by a word character
       or `.` and not followed by `.` or a word character; `findall` yields the identifier.
  When neither alternative matches, the search moves on by one character; after a match it
  resumes at the end of the match. Characters are ASCII: `\w` is `[a-zA-Z0-9_]`.
*/
module Scanner {
  import opened Wrappers

  /** `\w` restricted to ASCII. */
  predicate IsWordChar(c: char) {
    ('a' <= c <= 'z') || ('A' <= c <= 'Z') || ('0' <= c <= '9') || c == '_'
  }

  /** `[a-zA-Z_]`, the first character of an identifier. */
  predicate IsIdentStart(c: char) {
    ('a' <= c <= 'z') || ('A' <= c <= 'Z') || c == '_'
  }

  /** `[bfr]`, a string-literal prefix letter. */
  predicate IsPrefixLetter(c: char) {
    c == 'b' || c == 'f' || c == 'r'
  }

  predicate IsQuote(c: char) {
    c == '"' || c == '\''
  }

  /** `[a-zA-Z_][a-zA-Z0-9_]*` as a whole string. */
  predicate IsIdentifier(t: string) {
    |t| > 0 && IsIdentStart(t[0]) && forall k :: 0 <= k < |t| ==> IsWordChar(t[k])
  }

  /** The two lookbehinds `(?<!\w)(?<!\.)` at position `p`. */
  predicate FreeBefore(s: string, p: nat)
    requires p <= |s|
  {
    p == 0 || (!IsWordChar(s[p - 1]) && s[p - 1] != '.')
  }

  /** The two lookaheads `(?!\.)(?!\w)` at position `e`. */
  predicate FreeAfter(s: string, e: nat)
    requires e <= |s|
  {
    e == |s| || (!IsWordChar(s[e]) && s[e] != '.')
  }

  /** `s[p..e]` is an identifier standing alone: what the second alternative accepts. */
  predicate BareIdentAt(s: string, p: nat, e: nat) {
    p <= e <= |s| && IsIdentifier(s[p..e]) && FreeBefore(s, p) && FreeAfter(s, e)
  }

  /** The token `t` occurs in `s` at position `i` as a bare identifier. */
  predicate BareTokenAt(s: string, i: nat, t: string) {
    i + |t| <= |s| && s[i..i + |t|] == t && BareIdentAt(s, i, i + |t|)
  }

  /** End of the longest run of word characters starting at `p`. */
  function WordEnd(s: string, p: nat): (q: nat)
    requires p <= |s|
    ensures p <= q <= |s|
    ensures forall k :: p <= k < q ==> IsWordChar(s[k])
    ensures q == |s| || !IsWordChar(s[q])
    decreases |s| - p
  {
    if p < |s| && IsWordChar(s[p]) then WordEnd(s, p + 1) else p
  }

  /** End of the longest run of prefix letters starting at `p`. Only the longest run can be
      followed by a quote, so it is the only prefix length `[bfr]*` can succeed with. */
  function PrefixEnd(s: string, p: nat): (q: nat)
    requires p <= |s|
    ensures p <= q <= |s|
    ensures forall k :: p <= k < q ==> IsPrefixLetter(s[k])
    ensures q == |s| || !IsPrefixLetter(s[q])
    decreases |s| - p
  {
    if p < |s| && IsPrefixLetter(s[p]) then PrefixEnd(s, p + 1) else p
  }

  /** Three quote characters `q` start at `k`. */
  predicate TripleAt(s: string, k: int, q: char) {
    0 <= k && k + 3 <= |s| && s[k] == q && s[k + 1] == q && s[k + 2] == q
  }

  /** The lazy `.*?` followed by the closing triple quote, searching from `j`: the closing
      triple is the first one at or after `j`, and `.` does not match a newline. Yields the
      end of the closing triple. */
  function TripleClose(s: string, j: nat, q: char): (r: Option<nat>)
    requires j <= |s|
    ensures r.Some? ==> j + 3 <= r.value <= |s| && TripleAt(s, r.value - 3, q)
    ensures r.Some? ==> forall k :: j <= k < r.value - 3 ==> s[k] != '\n' && !TripleAt(s, k, q)
    decreases |s| - j
  {
    if TripleAt(s, j, q) then Some(j + 3)
    else if j < |s| && s[j] != '\n' then TripleClose(s, j + 1, q)
    else None
  }

  /** The body `(?:[^q\\]|\\.)*` of a single- or double-quoted literal, as a grammar: any
      character but the quote and the backslash, or a backslash followed by any character
      but a newline. */
  predicate QuotedBody(w: string, q: char)
    decreases |w|
  {
    || w == []
    || (w[0] != q && w[0] != '\\' && QuotedBody(w[1..], q))
    || (|w| >= 2 && w[0] == '\\' && w[1] != '\n' && QuotedBody(w[2..], q))
  }

  /** Scans the body of a single- or double-quoted literal from `j` and yields the end of its
      closing quote. The greedy loop with backtracking is deterministic here: every point it
      could back up to holds a character that is not the quote. */
  function QuotedClose(s: string, j: nat, q: char): (r: Option<nat>)
    requires j <= |s|
    ensures r.Some? ==> j < r.value <= |s| && s[r.value - 1] == q && QuotedBody(s[j..r.value - 1], q)
    decreases |s| - j
  {
    if j == |s| then None
    else if s[j] == q then Some(j + 1)
    else if s[j] == '\\' then
      if j + 1 < |s| && s[j + 1] != '\n' then
        var r := QuotedClose(s, j + 2, q);
        if r.Some? then
          assert s[j..r.value - 1][2..] == s[j + 2..r.value - 1];
          r
        else None
      else None
    else
      var r := QuotedClose(s, j + 1, q);
      if r.Some? then
        assert s[j..r.value - 1][1..] == s[j + 1..r.value - 1];
        r
      else None
  }

  /** `s[k..e]` is a closed quoted literal without its prefix, as the four quoted
      alternatives describe it. */
  predicate QuotedSpan(s: string, k: nat, e: nat) {
    && k < e <= |s|
    && IsQuote(s[k])
    && ( || (k + 6 <= e && TripleAt(s, k, s[k]) && TripleAt(s, e - 3, s[k])
             && forall n :: k + 3 <= n < e - 3 ==> s[n] != '\n')
         || (k + 2 <= e && s[e - 1] == s[k] && QuotedBody(s[k + 1..e - 1], s[k])))
  }

  /** The quoted part of the first alternative at `k`: the triple-quoted form is tried
      first, and when it fails the one-quote form is tried at the same quote. */
  function LiteralAt(s: string, k: nat): (r: Option<nat>)
    requires k <= |s|
    ensures r.Some? ==> QuotedSpan(s, k, r.value)
  {
    if k < |s| && IsQuote(s[k]) then
      var q := s[k];
      var triple := if TripleAt(s, k, q) then TripleClose(s, k + 3, q) else None;
      if triple.Some? then triple else QuotedClose(s, k + 1, q)
    else None
  }

  /** `s[p..e]` is what the first alternative matches: prefix letters and a quoted literal. */
  predicate LiteralSpan(s: string, p: nat, e: nat) {
    p <= e <= |s| && PrefixEnd(s, p) < e && QuotedSpan(s, PrefixEnd(s, p), e)
  }

  /** One match of the pattern, and the capture `findall` reports for it. */
  datatype Match = Match(start: nat, end: nat, capture: string)

  /** The pattern matched at `p` exactly (the first alternative, then the second). Only the
      longest word run can be the identifier: a shorter one leaves a word character next, so
      `(?!\w)` fails; and when a `.` follows the longest run, `(?!\.)` rejects it, so there
      is no match at `p`. */
  function MatchAt(s: string, p: nat): (r: Option<Match>)
    requires p < |s|
    ensures r.Some? ==> r.value.start == p < r.value.end <= |s|
    ensures r.Some? && r.value.capture == "" ==> LiteralSpan(s, p, r.value.end)
    ensures r.Some? && r.value.capture != "" ==>
              BareIdentAt(s, p, r.value.end) && r.value.capture == s[p..r.value.end]
  {
    var k := PrefixEnd(s, p);
    match LiteralAt(s, k)
    case Some(e) => Some(Match(p, e, ""))
    case None =>
      if FreeBefore(s, p) && IsIdentStart(s[p]) then
        var e := WordEnd(s, p);
        if e < |s| && s[e] == '.' then None else Some(Match(p, e, s[p..e]))
      else None
  }

  /** All matches of a left-to-right search starting at `p`: the matches are in order, do
      not overlap, and each is a literal with an empty capture or a bare identifier that
      captures itself. */
  function Matches(s: string, p: nat): (r: seq<Match>)
    requires p <= |s|
    ensures forall k :: 0 <= k < |r| ==> p <= r[k].start < r[k].end <= |s|
    ensures forall k :: 0 <= k < |r| - 1 ==> r[k].end <= r[k + 1].start
    ensures forall k :: 0 <= k < |r| && r[k].capture == "" ==> LiteralSpan(s, r[k].start, r[k].end)
    ensures forall k :: 0 <= k < |r| && r[k].capture != "" ==>
              BareIdentAt(s, r[k].start, r[k].end) && r[k].capture == s[r[k].start..r[k].end]
    decreases |s| - p
  {
    if p == |s| then []
    else
      match MatchAt(s, p)
      case Some(m) =>
        var rest := Matches(s, m.end);
        PrependMatch(s, p, m, rest);
        [m] + rest
      case None => Matches(s, p + 1)
  }

  /** A match at `p` followed by the matches of the search from its end keeps the order and
      the shape of the matches. */
  lemma PrependMatch(s: string, p: nat, m: Match, rest: seq<Match>)
    requires m.start == p < m.end <= |s|
    requires m.capture == "" ==> LiteralSpan(s, p, m.end)
    requires m.capture != "" ==> BareIdentAt(s, p, m.end) && m.capture == s[p..m.end]
    requires forall k :: 0 <= k < |rest| ==> m.end <= rest[k].start < rest[k].end <= |s|
    requires forall k :: 0 <= k < |rest| - 1 ==> rest[k].end <= rest[k + 1].start
    requires forall k :: 0 <= k < |rest| && rest[k].capture == "" ==> LiteralSpan(s, rest[k].start, rest[k].end)
    requires forall k :: 0 <= k < |rest| && rest[k].capture != "" ==>
               BareIdentAt(s, rest[k].start, rest[k].end) && rest[k].capture == s[rest[k].start..rest[k].end]
    ensures var r := [m] + rest;
              && (forall k :: 0 <= k < |r| ==> p <= r[k].start < r[k].end <= |s|)
              && (forall k :: 0 <= k < |r| - 1 ==> r[k].end <= r[k + 1].start)
              && (forall k :: 0 <= k < |r| && r[k].capture == "" ==> LiteralSpan(s, r[k].start, r[k].end))
              && (forall k :: 0 <= k < |r| && r[k].capture != "" ==>
                    BareIdentAt(s, r[k].start, r[k].end) && r[k].capture == s[r[k].start..r[k].end])
  {
    var r := [m] + rest;
    assert forall k :: 0 < k < |r| ==> r[k] == rest[k - 1];
  }

  /** `pattern.findall(s)`: the capture of every match, in order. */
  function FindAll(s: string): (r: seq<string>)
    ensures |r| == |Matches(s, 0)|
    ensures forall k :: 0 <= k < |r| ==> r[k] == "" || IsIdentifier(r[k])
  {
    var ms := Matches(s, 0);
    seq(|ms|, k requires 0 <= k < |ms| => ms[k].capture)
  }
}
