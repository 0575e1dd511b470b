/** What the tokenizer promises about the names it reports (validator.py:86, 111). */
module ScannerLemmas {
  import opened Wrappers
  import opened Scanner

  /** Every non-empty token is an identifier that stands alone in the annotation: not
      preceded by a word character or `.`, not followed by `.` or a word character. */
  lemma TokensAreBareIdentifiers(s: string, t: string)
    requires t in FindAll(s) && t != ""
    ensures IsIdentifier(t)
    ensures exists i :: BareTokenAt(s, i, t)
  {
    var k :| 0 <= k < |FindAll(s)| && FindAll(s)[k] == t;
    var m := Matches(s, 0)[k];
    assert m.capture == t;
    CaptureIsBareToken(s, m);
  }

  /** The capture of a bare-identifier match is a token standing alone at the match. */
  lemma CaptureIsBareToken(s: string, m: Match)
    requires m.capture != "" && BareIdentAt(s, m.start, m.end) && m.capture == s[m.start..m.end]
    ensures IsIdentifier(m.capture) && BareTokenAt(s, m.start, m.capture)
  {
  }

  /** A match captures "" exactly when it is a string literal. */
  lemma EmptyCaptureIsLiteral(s: string, k: nat)
    requires k < |Matches(s, 0)|
    ensures Matches(s, 0)[k].capture == "" <==>
              LiteralSpan(s, Matches(s, 0)[k].start, Matches(s, 0)[k].end)
  {
    var m := Matches(s, 0)[k];
    if m.capture != "" {
      BareIdentNotLiteral(s, m.start, m.end);
    }
  }

  /** A bare identifier is not a literal: its prefix-letter run ends on a word character,
      not on a quote. */
  lemma BareIdentNotLiteral(s: string, p: nat, e: nat)
    requires BareIdentAt(s, p, e)
    ensures !LiteralSpan(s, p, e)
  {
    var j := PrefixEnd(s, p);
    if j < e {
      assert s[j] == s[p..e][j - p];
    }
  }

  /** An identifier scanned on its own yields exactly itself: re-tokenizing a candidate name
      never splits it. */
  lemma {:induction false} IdentifierRescansToItself(t: string)
    requires IsIdentifier(t)
    ensures Matches(t, 0) == [Match(0, |t|, t)]
    ensures FindAll(t) == [t]
  {
    var k := PrefixEnd(t, 0);
    assert k < |t| ==> !IsQuote(t[k]);
    assert LiteralAt(t, k) == None;
    assert WordEnd(t, 0) == |t|;
    assert t[0..|t|] == t;
    assert MatchAt(t, 0) == Some(Match(0, |t|, t));
    assert Matches(t, |t|) == [];
  }

  predicate QuoteFree(s: string) {
    forall k :: 0 <= k < |s| ==> !IsQuote(s[k])
  }

  /** The search from `p` passes through `q`: every match of the search from `q` on is also a
      match of the search from `p`. */
  ghost predicate PassesThrough(s: string, p: nat, q: nat)
    requires p <= q <= |s|
  {
    forall m :: m in Matches(s, q) ==> m in Matches(s, p)
  }

  /** The search passes through the end of a stretch without quotes that ends on a character
      other than a word character: no match that starts in the stretch reaches past it. */
  lemma {:induction false} QuoteFreeStretch(s: string, p: nat, q: nat)
    requires p <= q <= |s|
    requires forall k :: p <= k < q ==> !IsQuote(s[k])
    requires p == q || !IsWordChar(s[q - 1])
    ensures PassesThrough(s, p, q)
    decreases q - p
  {
    if p < q {
      var n := StretchStep(s, p, q);
      QuoteFreeStretch(s, n, q);
      PassesTrans(s, p, n, q);
    }
  }

  /** One step of the search inside such a stretch moves to a position `n` no further than its
      end, passing through it. */
  lemma StretchStep(s: string, p: nat, q: nat) returns (n: nat)
    requires p < q <= |s|
    requires forall k :: p <= k < q ==> !IsQuote(s[k])
    requires !IsWordChar(s[q - 1])
    ensures p < n <= q
    ensures PassesThrough(s, p, n)
  {
    n := SearchStep(s, p);
    if MatchAt(s, p).Some? {
      MatchInStretch(s, p, q);
    }
  }

  /** One step of the search: past the match at `p`, or past one character where nothing
      matches. */
  lemma SearchStep(s: string, p: nat) returns (n: nat)
    requires p < |s|
    ensures p < n <= |s| && PassesThrough(s, p, n)
    ensures MatchAt(s, p).Some? ==> n == MatchAt(s, p).value.end
    ensures MatchAt(s, p).None? ==> n == p + 1
  {
    if MatchAt(s, p).Some? {
      var m := MatchAt(s, p).value;
      MatchPasses(s, p, m);
      n := m.end;
    } else {
      NoMatchPasses(s, p);
      n := p + 1;
    }
  }

  /** A match that starts inside such a stretch ends before its end. */
  lemma MatchInStretch(s: string, p: nat, q: nat)
    requires p < q <= |s|
    requires forall k :: p <= k < q ==> !IsQuote(s[k])
    requires !IsWordChar(s[q - 1])
    requires MatchAt(s, p).Some?
    ensures MatchAt(s, p).value.end < q
  {
    RunsStopBefore(s, p, q);
    IdentMatchAt(s, p);
  }

  /** The search passes through the end of a match it finds. */
  lemma MatchPasses(s: string, p: nat, m: Match)
    requires p < |s| && MatchAt(s, p) == Some(m)
    ensures PassesThrough(s, p, m.end)
  {
    MatchFound(s, p, m);
  }

  /** The search passes through the next position where nothing matches. */
  lemma NoMatchPasses(s: string, p: nat)
    requires p < |s| && MatchAt(s, p) == None
    ensures PassesThrough(s, p, p + 1)
  {
    NoMatchAt(s, p);
  }

  /** The prefix-letter run and the word run from `p` both stop before a character at `q - 1`
      that is not a word character. */
  lemma RunsStopBefore(s: string, p: nat, q: nat)
    requires p < q <= |s| && !IsWordChar(s[q - 1])
    ensures PrefixEnd(s, p) < q && WordEnd(s, p) < q
  {
  }

  /** Where no literal follows the prefix letters at `p`, only the identifier alternative can
      match: an identifier with no word character or `.` before it, taken to the end of its
      word, and not followed by `.`. */
  lemma IdentMatchAt(s: string, p: nat)
    requires p < |s| && LiteralAt(s, PrefixEnd(s, p)) == None
    ensures MatchAt(s, p) ==
              if FreeBefore(s, p) && IsIdentStart(s[p]) && !(WordEnd(s, p) < |s| && s[WordEnd(s, p)] == '.')
              then Some(Match(p, WordEnd(s, p), s[p..WordEnd(s, p)]))
              else None
  {
  }

  /** A bare identifier whose prefix letters open no literal is the match at its position. */
  lemma BareIdentMatched(s: string, i: nat)
    requires i < |s| && BareIdentAt(s, i, WordEnd(s, i)) && LiteralAt(s, PrefixEnd(s, i)) == None
    ensures Match(i, WordEnd(s, i), s[i..WordEnd(s, i)]) in Matches(s, i)
  {
    IdentMatchAt(s, i);
    MatchFound(s, i, Match(i, WordEnd(s, i), s[i..WordEnd(s, i)]));
  }

  /** The search from `p` reaches a bare identifier at `i` when no quote lies between them and
      the identifier's own prefix letters open no literal. The last condition matters: in
      `b"x"` the `b` is a bare identifier but belongs to the literal. */
  lemma SearchReaches(s: string, p: nat, i: nat)
    requires p <= i < |s| && BareIdentAt(s, i, WordEnd(s, i)) && LiteralAt(s, PrefixEnd(s, i)) == None
    requires forall k :: p <= k < i ==> !IsQuote(s[k])
    ensures Match(i, WordEnd(s, i), s[i..WordEnd(s, i)]) in Matches(s, p)
  {
    QuoteFreeStretch(s, p, i);
    BareIdentMatched(s, i);
  }

  /** Where the pattern matches, the match is the first of the search and the search goes
      on from its end. */
  lemma MatchFound(s: string, p: nat, m: Match)
    requires p < |s| && MatchAt(s, p) == Some(m)
    ensures Matches(s, p) == [m] + Matches(s, m.end)
  {
  }

  /** In text without quotes no match is a literal, so every token is non-empty. */
  lemma QuoteFreeHasNoEmptyToken(s: string)
    requires QuoteFree(s)
    ensures "" !in FindAll(s)
  {
  }

  /** A bare occurrence of `t` is found by the search when the text has no quotes. */
  lemma QuoteFreeFindsOccurrence(s: string, i: nat, t: string)
    requires QuoteFree(s) && BareTokenAt(s, i, t)
    ensures t in FindAll(s)
  {
    assert LiteralAt(s, PrefixEnd(s, i)) == None by {
      var k := PrefixEnd(s, i);
      assert k < |s| ==> !IsQuote(s[k]);
    }
    PassedTokenFound(s, 0, i, t);
  }

  /** Once the search from the start has passed through `p`, a bare occurrence of `t` after
      `p` with no quote in between is a token, provided its prefix letters open no literal.
      With the lemmas below on literals this covers annotations that hold string literals. */
  lemma PassedTokenFound(s: string, p: nat, i: nat, t: string)
    requires p <= i && BareTokenAt(s, i, t) && LiteralAt(s, PrefixEnd(s, i)) == None
    requires forall k :: p <= k < i ==> !IsQuote(s[k])
    requires PassesThrough(s, 0, p)
    ensures t in FindAll(s)
  {
    var e := WordEnd(s, i);
    assert e == i + |t| by {
      assert forall n :: i <= n < i + |t| ==> s[n] == t[n - i];
    }
    assert s[i..e] == t;
    SearchReaches(s, p, i);
    TokenOfMatch(s, Match(i, e, t));
  }

  /** The capture of a match of the whole search is a token. */
  lemma TokenOfMatch(s: string, m: Match)
    requires m in Matches(s, 0)
    ensures m.capture in FindAll(s)
  {
    var k :| 0 <= k < |Matches(s, 0)| && Matches(s, 0)[k] == m;
    assert FindAll(s)[k] == m.capture;
  }

  /** Passing through is transitive. */
  lemma PassesTrans(s: string, p: nat, q: nat, r: nat)
    requires p <= q <= r <= |s| && PassesThrough(s, p, q) && PassesThrough(s, q, r)
    ensures PassesThrough(s, p, r)
  {
  }

  /** In text without quotes the tokens are exactly the bare identifiers of the text. */
  lemma QuoteFreeTokens(s: string, t: string)
    requires QuoteFree(s)
    ensures t in FindAll(s) <==> exists i :: BareTokenAt(s, i, t)
  {
    if t in FindAll(s) {
      QuoteFreeHasNoEmptyToken(s);
      TokensAreBareIdentifiers(s, t);
    }
    if exists i :: BareTokenAt(s, i, t) {
      var i: nat :| BareTokenAt(s, i, t);
      QuoteFreeFindsOccurrence(s, i, t);
    }
  }

  /** The scan of a one-quote literal body that follows the grammar stops at the quote right
      after the body. */
  lemma {:induction false} QuotedCloseAfterBody(s: string, j: nat, e: nat, q: char)
    requires IsQuote(q) && j <= e < |s| && QuotedBody(s[j..e], q) && s[e] == q
    ensures QuotedClose(s, j, q) == Some(e + 1)
    decreases e - j
  {
    if j < e {
      var d := QuotedBodyStep(s, j, e, q);
      QuotedCloseAfterBody(s, j + d, e, q);
    }
  }

  /** The first item of a body that follows the grammar, an ordinary character or an
      escape of length `d`, is what the scan moves past first. */
  lemma QuotedBodyStep(s: string, j: nat, e: nat, q: char) returns (d: nat)
    requires IsQuote(q) && j < e <= |s| && QuotedBody(s[j..e], q)
    ensures 0 < d <= e - j && QuotedBody(s[j + d..e], q)
    ensures QuotedClose(s, j, q) == QuotedClose(s, j + d, q)
  {
    var w := s[j..e];
    assert s[j] == w[0];
    if w[0] != q && w[0] != '\\' && QuotedBody(w[1..], q) {
      d := 1;
      QuotedCloseSkip(s, j, q);
    } else {
      assert s[j + 1] == w[1];
      d := 2;
      QuotedCloseEscape(s, j, q);
    }
    assert s[j + d..e] == w[d..];
  }

  /** The scan moves past an ordinary character of the body. */
  lemma QuotedCloseSkip(s: string, j: nat, q: char)
    requires j < |s| && s[j] != q && s[j] != '\\'
    ensures QuotedClose(s, j, q) == QuotedClose(s, j + 1, q)
  {
  }

  /** The scan moves past an escape: a backslash and the character after it. */
  lemma QuotedCloseEscape(s: string, j: nat, q: char)
    requires j + 1 < |s| && IsQuote(q) && s[j] == '\\' && s[j + 1] != '\n'
    ensures QuotedClose(s, j, q) == QuotedClose(s, j + 2, q)
  {
  }

  /** When the search reaches a prefixed one-quote literal — prefix letters `s[p..k]`, the
      quote at `k`, a body `s[k + 1..e - 1]` that follows the grammar, and the closing quote
      at `e - 1` — the whole literal is one match with an empty capture and the search
      resumes after its closing quote: no character inside the literal, escapes included,
      starts a token. The literal must not open with three quotes, which would make it a
      triple-quoted one. */
  lemma QuotedLiteralHidden(s: string, p: nat, k: nat, e: nat)
    requires p <= k && k + 2 <= e <= |s|
    requires forall n :: p <= n < k ==> IsPrefixLetter(s[n])
    requires IsQuote(s[k]) && QuotedBody(s[k + 1..e - 1], s[k]) && s[e - 1] == s[k]
    requires !(e == k + 2 && e < |s| && s[e] == s[k])
    ensures Matches(s, p) == [Match(p, e, "")] + Matches(s, e)
  {
    PrefixEndIsRun(s, p, k);
    QuotedLiteralAt(s, k, e);
    LiteralMatchAt(s, p, k, e);
  }

  /** The search passes through a prefixed one-quote literal it reaches. */
  lemma QuotedLiteralPasses(s: string, p: nat, k: nat, e: nat)
    requires p <= k && k + 2 <= e <= |s|
    requires forall n :: p <= n < k ==> IsPrefixLetter(s[n])
    requires IsQuote(s[k]) && QuotedBody(s[k + 1..e - 1], s[k]) && s[e - 1] == s[k]
    requires !(e == k + 2 && e < |s| && s[e] == s[k])
    ensures PassesThrough(s, p, e)
  {
    QuotedLiteralHidden(s, p, k, e);
  }

  /** A one-quote literal whose body follows the grammar, and which does not open with three
      quotes, is the literal at its quote. */
  lemma QuotedLiteralAt(s: string, k: nat, e: nat)
    requires k + 2 <= e <= |s|
    requires IsQuote(s[k]) && QuotedBody(s[k + 1..e - 1], s[k]) && s[e - 1] == s[k]
    requires !(e == k + 2 && e < |s| && s[e] == s[k])
    ensures LiteralAt(s, k) == Some(e)
  {
    var q := s[k];
    assert !TripleAt(s, k, q) by {
      NoTripleBeforeBody(s, k, e);
    }
    assert QuotedClose(s, k + 1, q) == Some(e) by {
      QuotedCloseAfterBody(s, k + 1, e - 1, q);
    }
    OneQuoteLiteralAt(s, k, q, e);
  }

  /** A body that follows the grammar does not start with the quote. */
  lemma NoTripleBeforeBody(s: string, k: nat, e: nat)
    requires k + 2 <= e <= |s|
    requires IsQuote(s[k]) && QuotedBody(s[k + 1..e - 1], s[k]) && s[e - 1] == s[k]
    requires !(e == k + 2 && e < |s| && s[e] == s[k])
    ensures !TripleAt(s, k, s[k])
  {
    if k + 2 < e {
      assert s[k + 1] == s[k + 1..e - 1][0];
    }
  }

  /** Without three opening quotes, the one-quote form decides the literal at `k`. */
  lemma OneQuoteLiteralAt(s: string, k: nat, q: char, e: nat)
    requires k < |s| && s[k] == q && IsQuote(q) && !TripleAt(s, k, q)
    requires QuotedClose(s, k + 1, q) == Some(e)
    ensures LiteralAt(s, k) == Some(e)
  {
  }

  /** The longest run of prefix letters from `p` ends at `k` when `s[p..k]` are prefix
      letters and `s[k]` is not one. */
  lemma {:induction false} PrefixEndIsRun(s: string, p: nat, k: nat)
    requires p <= k < |s|
    requires forall n :: p <= n < k ==> IsPrefixLetter(s[n])
    requires !IsPrefixLetter(s[k])
    ensures PrefixEnd(s, p) == k
    decreases k - p
  {
    if p < k {
      PrefixEndIsRun(s, p + 1, k);
    }
  }

  /** The longest run of word characters from `p` ends at `k` when `s[p..k]` are word
      characters and `s[k]` is not one. */
  lemma {:induction false} WordEndIsRun(s: string, p: nat, k: nat)
    requires p <= k < |s|
    requires forall n :: p <= n < k ==> IsWordChar(s[n])
    requires !IsWordChar(s[k])
    ensures WordEnd(s, p) == k
    decreases k - p
  {
    if p < k {
      WordEndIsRun(s, p + 1, k);
    }
  }

  /** A triple-quoted body for the quote `q`: no newline, and the first closing triple of
      `w + qqq` is the one after `w`. */
  predicate TripleBody(w: string, q: char) {
    && (forall n :: 0 <= n < |w| ==> w[n] != '\n')
    && (forall n :: 0 <= n < |w| ==> !TripleAt(w + [q, q, q], n, q))
  }

  /** The lazy search for the closing triple quote, over a body that satisfies TripleBody. */
  lemma {:induction false} TripleCloseAfterBody(s: string, j: nat, w: string, q: char, n: nat)
    requires TripleBody(w, q) && n <= |w|
    requires j + |w| + 3 <= |s| && s[j..j + |w| + 3] == w + [q, q, q]
    ensures TripleClose(s, j + n, q) == Some(j + |w| + 3)
    decreases |w| - n
  {
    var x := w + [q, q, q];
    assert forall m :: 0 <= m < |x| ==> s[j + m] == x[m];
    if n == |w| {
      assert TripleAt(s, j + n, q);
    } else {
      assert !TripleAt(x, n, q);
      assert !TripleAt(s, j + n, q);
      assert s[j + n] == w[n];
      TripleCloseAfterBody(s, j, w, q, n + 1);
    }
  }

  /** When the search reaches a prefixed triple-quoted literal — prefix letters `s[p..k]`,
      three quotes `q` at `k`, a body `w` on one line, and the first closing triple — the
      whole literal is one match with an empty capture and the search resumes after it. */
  lemma TripleLiteralHidden(s: string, p: nat, k: nat, q: char, w: string)
    requires p <= k && k + |w| + 6 <= |s|
    requires forall n :: p <= n < k ==> IsPrefixLetter(s[n])
    requires IsQuote(q) && TripleAt(s, k, q) && TripleBody(w, q)
    requires s[k + 3..k + |w| + 6] == w + [q, q, q]
    ensures Matches(s, p) == [Match(p, k + |w| + 6, "")] + Matches(s, k + |w| + 6)
  {
    PrefixEndIsRun(s, p, k);
    TripleLiteralAt(s, k, q, w);
    LiteralMatchAt(s, p, k, k + |w| + 6);
  }

  /** The search passes through a prefixed triple-quoted literal it reaches. */
  lemma TripleLiteralPasses(s: string, p: nat, k: nat, q: char, w: string)
    requires p <= k && k + |w| + 6 <= |s|
    requires forall n :: p <= n < k ==> IsPrefixLetter(s[n])
    requires IsQuote(q) && TripleAt(s, k, q) && TripleBody(w, q)
    requires s[k + 3..k + |w| + 6] == w + [q, q, q]
    ensures PassesThrough(s, p, k + |w| + 6)
  {
    TripleLiteralHidden(s, p, k, q, w);
  }

  /** A triple-quoted literal whose body satisfies TripleBody is the literal at its quote. */
  lemma TripleLiteralAt(s: string, k: nat, q: char, w: string)
    requires k + |w| + 6 <= |s|
    requires IsQuote(q) && TripleAt(s, k, q) && TripleBody(w, q)
    requires s[k + 3..k + |w| + 6] == w + [q, q, q]
    ensures LiteralAt(s, k) == Some(k + |w| + 6)
  {
    TripleCloseAfterBody(s, k + 3, w, q, 0);
  }

  /** A literal after the prefix letters that start at `p` is the match at `p`, and the
      search goes on after it. */
  lemma LiteralMatchAt(s: string, p: nat, k: nat, e: nat)
    requires p < |s| && PrefixEnd(s, p) == k && k <= |s| && LiteralAt(s, k) == Some(e)
    ensures Matches(s, p) == [Match(p, e, "")] + Matches(s, e)
  {
    assert MatchAt(s, p) == Some(Match(p, e, ""));
    MatchFound(s, p, Match(p, e, ""));
  }

  /** A quote that opens no closed literal hides nothing: the search moves past the quote
      alone and goes on scanning what follows it. */
  lemma UnclosedQuoteSkipped(s: string, p: nat)
    requires p < |s| && IsQuote(s[p]) && LiteralAt(s, p) == None
    ensures Matches(s, p) == Matches(s, p + 1)
  {
    assert MatchAt(s, p) == None by {
      assert PrefixEnd(s, p) == p;
    }
    NoMatchAt(s, p);
  }

  /** Where the pattern does not match, the search moves on by one character. */
  lemma NoMatchAt(s: string, p: nat)
    requires p < |s| && MatchAt(s, p) == None
    ensures Matches(s, p) == Matches(s, p + 1)
  {
  }
}
