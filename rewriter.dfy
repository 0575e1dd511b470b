/**
  The whole-word substitution of `validate_names` (validator.py:173-175):
  `re.sub(rf"(?<!\.)(?<!\w){re.escape(name)}\b", repl, text)` for an identifier `name`.

  A site is an occurrence of `name` that is not preceded by `.` or a word character and is
  followed by a word boundary; since the last character of an identifier is a word
  character, the boundary means "followed by a non-word character or the end". Unlike the
  tokenizer, the pattern does not refuse a following `.`, so `int` in `int.real` is a site.
  `re.escape` leaves an identifier unchanged.
*/
module Rewriter {
  import opened Scanner

  /** `name` occurs at `p` as a substitution site. */
  predicate SiteAt(text: string, p: nat, name: string) {
    && p + |name| <= |text|
    && text[p..p + |name|] == name
    && FreeBefore(text, p)
    && (p + |name| == |text| || !IsWordChar(text[p + |name|]))
  }

  /** No site of `name` starts in `[p, q)`. */
  predicate NoSiteIn(text: string, name: string, p: nat, q: nat) {
    forall k :: p <= k < q ==> !SiteAt(text, k, name)
  }

  /** The left-to-right substitution from position `p` on: a site is replaced by `repl` and
      the search resumes after it; any other character is copied. */
  function SubFrom(text: string, name: string, repl: string, p: nat): string
    requires IsIdentifier(name) && p <= |text|
    decreases |text| - p
  {
    if p == |text| then ""
    else if SiteAt(text, p, name) then repl + SubFrom(text, name, repl, p + |name|)
    else [text[p]] + SubFrom(text, name, repl, p + 1)
  }

  /** `re.sub` of the site pattern of `name` by `repl` over the whole of `text`. */
  function Substitute(text: string, name: string, repl: string): string
    requires IsIdentifier(name)
  {
    SubFrom(text, name, repl, 0)
  }

  /** The replacement text of `validate_names`: `origin.name` for a non-empty origin, the
      name itself for an empty one (validator.py:165-171). */
  function Qualified(origin: string, name: string): string
  {
    if origin != "" then origin + "." + name else name
  }

  /** One step of the rewrite at a site. */
  lemma SubFromSiteStep(text: string, name: string, repl: string, p: nat)
    requires IsIdentifier(name) && p < |text| && SiteAt(text, p, name)
    ensures p + |name| <= |text|
    ensures SubFrom(text, name, repl, p) == repl + SubFrom(text, name, repl, p + |name|)
  {
  }

  /** One step of the rewrite at a character that starts no site. */
  lemma SubFromCopyStep(text: string, name: string, repl: string, p: nat)
    requires IsIdentifier(name) && p < |text| && !SiteAt(text, p, name)
    ensures SubFrom(text, name, repl, p) == [text[p]] + SubFrom(text, name, repl, p + 1)
  {
  }

  /** Sites never overlap: inside a site every position is preceded by a word character. */
  lemma SitesDisjoint(text: string, name: string, p: nat, k: nat)
    requires IsIdentifier(name) && SiteAt(text, p, name) && p < k < p + |name|
    ensures !SiteAt(text, k, name)
  {
    assert text[k - 1] == text[p..p + |name|][k - 1 - p];
  }

  lemma SliceCons(text: string, p: nat, q: nat, rest: string)
    requires p < q <= |text|
    ensures [text[p]] + (text[p + 1..q] + rest) == text[p..q] + rest
  {
    assert text[p..q] == [text[p]] + text[p + 1..q];
  }

  /** Everything up to the next site is copied unchanged. */
  lemma {:induction false} SubCopiesUpTo(text: string, name: string, repl: string, p: nat, q: nat)
    requires IsIdentifier(name) && p <= q <= |text| && NoSiteIn(text, name, p, q)
    ensures SubFrom(text, name, repl, p) == text[p..q] + SubFrom(text, name, repl, q)
    decreases q - p
  {
    if p < q {
      var rest := SubFrom(text, name, repl, q);
      assert SubFrom(text, name, repl, p) == [text[p]] + SubFrom(text, name, repl, p + 1) by {
        SubFromCopyStep(text, name, repl, p);
      }
      assert SubFrom(text, name, repl, p + 1) == text[p + 1..q] + rest by {
        SubCopiesUpTo(text, name, repl, p + 1, q);
      }
      SliceCons(text, p, q, rest);
    }
  }

  /** A text without a site of the name is left unchanged. */
  lemma SubstituteWithoutSite(text: string, name: string, repl: string)
    requires IsIdentifier(name) && NoSiteIn(text, name, 0, |text|)
    ensures Substitute(text, name, repl) == text
  {
    SubCopiesUpTo(text, name, repl, 0, |text|);
  }

  /** The rewrite of `text` is the text before its first site, then `repl`, then the rewrite
      of the rest: sites are replaced and nothing else changes. */
  lemma SubstituteFirstSite(text: string, name: string, repl: string, q: nat)
    requires IsIdentifier(name) && SiteAt(text, q, name) && NoSiteIn(text, name, 0, q)
    ensures Substitute(text, name, repl) == text[..q] + repl + SubFrom(text, name, repl, q + |name|)
  {
    SubCopiesUpTo(text, name, repl, 0, q);
  }

  /** Replacing every site of a name by the name itself leaves the text as it was: this is
      the rewrite `validate_names` makes for a name with an empty origin. */
  lemma {:induction false} SubFromIdentity(text: string, name: string, p: nat)
    requires IsIdentifier(name) && p <= |text|
    ensures SubFrom(text, name, name, p) == text[p..]
    decreases |text| - p
  {
    if p < |text| {
      var q := if SiteAt(text, p, name) then p + |name| else p + 1;
      assert q <= |text| && SubFrom(text, name, name, p) == text[p..q] + SubFrom(text, name, name, q) by {
        if SiteAt(text, p, name) {
          SubFromSiteStep(text, name, name, p);
        } else {
          SubFromCopyStep(text, name, name, p);
          assert text[p..p + 1] == [text[p]];
        }
      }
      SubFromIdentity(text, name, q);
      SliceSplit(text, p, q);
    }
  }

  lemma SliceSplit(text: string, p: nat, q: nat)
    requires p <= q <= |text|
    ensures text[p..q] + text[q..] == text[p..]
  {
  }

  lemma SubstituteIdentity(text: string, name: string)
    requires IsIdentifier(name)
    ensures Substitute(text, name, name) == text
  {
    SubFromIdentity(text, name, 0);
  }

  /** `text` ends in a character that is neither a word character nor `.`: no site runs
      across its end, and a site may start right after it. */
  predicate EndsAtBoundary(text: string) {
    |text| > 0 && !IsWordChar(text[|text| - 1]) && text[|text| - 1] != '.'
  }

  lemma SiteInLeft(a: string, b: string, name: string, k: nat)
    requires IsIdentifier(name) && EndsAtBoundary(a) && k < |a|
    ensures SiteAt(a + b, k, name) <==> SiteAt(a, k, name)
  {
    var ab := a + b;
    if SiteAt(ab, k, name) {
      assert forall n :: k <= n < k + |name| ==> ab[n] == ab[k..k + |name|][n - k];
      assert ab[|a| - 1] == a[|a| - 1];
      assert ab[k..k + |name|] == a[k..k + |name|];
      assert ab[k + |name|] == a[k + |name|];
    }
    if SiteAt(a, k, name) {
      assert forall n :: k <= n < k + |name| ==> a[n] == a[k..k + |name|][n - k];
      assert ab[k..k + |name|] == a[k..k + |name|];
      assert ab[k + |name|] == a[k + |name|];
    }
  }

  lemma SiteInRight(a: string, b: string, name: string, k: nat)
    requires IsIdentifier(name) && EndsAtBoundary(a) && k <= |b|
    ensures SiteAt(a + b, |a| + k, name) <==> SiteAt(b, k, name)
  {
    var ab := a + b;
    if k + |name| <= |b| {
      assert ab[|a| + k..|a| + k + |name|] == b[k..k + |name|];
    }
    if k > 0 {
      assert ab[|a| + k - 1] == b[k - 1];
    }
    if k + |name| < |b| {
      assert ab[|a| + k + |name|] == b[k + |name|];
    }
  }

  /** A site of `b` is a site after `a` in `a + b`, and is rewritten there too. */
  lemma SubFromRightSite(a: string, b: string, name: string, repl: string, k: nat, n: nat)
    requires IsIdentifier(name) && EndsAtBoundary(a) && k < |b| && SiteAt(b, k, name)
    requires n == k + |name|
    ensures n <= |b|
    ensures SubFrom(a + b, name, repl, |a| + k) == repl + SubFrom(a + b, name, repl, |a| + n)
    ensures SubFrom(b, name, repl, k) == repl + SubFrom(b, name, repl, n)
  {
    assert SiteAt(a + b, |a| + k, name) by {
      SiteInRight(a, b, name, k);
    }
    SubFromSiteStep(a + b, name, repl, |a| + k);
    assert |a| + k + |name| == |a| + n;
    SubFromSiteStep(b, name, repl, k);
  }

  /** A character of `b` that starts no site is copied after `a` in `a + b` too. */
  lemma SubFromRightCopy(a: string, b: string, name: string, repl: string, k: nat, n: nat)
    requires IsIdentifier(name) && EndsAtBoundary(a) && k < |b| && !SiteAt(b, k, name)
    requires n == k + 1
    ensures SubFrom(a + b, name, repl, |a| + k) == [b[k]] + SubFrom(a + b, name, repl, |a| + n)
    ensures SubFrom(b, name, repl, k) == [b[k]] + SubFrom(b, name, repl, n)
  {
    assert !SiteAt(a + b, |a| + k, name) by {
      SiteInRight(a, b, name, k);
    }
    assert (a + b)[|a| + k] == b[k];
    SubFromCopyStep(a + b, name, repl, |a| + k);
    assert |a| + k + 1 == |a| + n;
    SubFromCopyStep(b, name, repl, k);
  }

  /** The next step of the rewrite is the same in `b` and after `a` in `a + b`. */
  lemma SubFromRightStep(a: string, b: string, name: string, repl: string, k: nat) returns (n: nat, head: string)
    requires IsIdentifier(name) && EndsAtBoundary(a) && k < |b|
    ensures k < n <= |b|
    ensures SubFrom(a + b, name, repl, |a| + k) == head + SubFrom(a + b, name, repl, |a| + n)
    ensures SubFrom(b, name, repl, k) == head + SubFrom(b, name, repl, n)
  {
    if SiteAt(b, k, name) {
      n, head := k + |name|, repl;
      SubFromRightSite(a, b, name, repl, k, n);
    } else {
      n, head := k + 1, [b[k]];
      SubFromRightCopy(a, b, name, repl, k, n);
    }
  }

  lemma {:induction false} SubFromRight(a: string, b: string, name: string, repl: string, k: nat)
    requires IsIdentifier(name) && EndsAtBoundary(a) && k <= |b|
    ensures SubFrom(a + b, name, repl, |a| + k) == SubFrom(b, name, repl, k)
    decreases |b| - k
  {
    if k < |b| {
      var n, head := SubFromRightStep(a, b, name, repl, k);
      SubFromRight(a, b, name, repl, n);
    }
  }

  /** The next step of the rewrite is the same in `a` and in `a + b`, up to the boundary. */
  lemma SubFromLeftStep(a: string, b: string, name: string, repl: string, p: nat) returns (q: nat, head: string)
    requires IsIdentifier(name) && EndsAtBoundary(a) && p < |a|
    ensures p < q <= |a|
    ensures SubFrom(a + b, name, repl, p) == head + SubFrom(a + b, name, repl, q)
    ensures SubFrom(a, name, repl, p) == head + SubFrom(a, name, repl, q)
  {
    if SiteAt(a, p, name) {
      q, head := p + |name|, repl;
      SubFromLeftSite(a, b, name, repl, p, q);
    } else {
      q, head := p + 1, [a[p]];
      SubFromLeftCopy(a, b, name, repl, p, q);
    }
  }

  /** A site of `a` is a site of `a + b` too, and is rewritten there. */
  lemma SubFromLeftSite(a: string, b: string, name: string, repl: string, p: nat, q: nat)
    requires IsIdentifier(name) && EndsAtBoundary(a) && p < |a| && SiteAt(a, p, name)
    requires q == p + |name|
    ensures q <= |a|
    ensures SubFrom(a + b, name, repl, p) == repl + SubFrom(a + b, name, repl, q)
    ensures SubFrom(a, name, repl, p) == repl + SubFrom(a, name, repl, q)
  {
    assert SiteAt(a + b, p, name) by {
      SiteInLeft(a, b, name, p);
    }
    SubFromSiteStep(a + b, name, repl, p);
    SubFromSiteStep(a, name, repl, p);
  }

  /** A character of `a` that starts no site is copied in `a + b` too. */
  lemma SubFromLeftCopy(a: string, b: string, name: string, repl: string, p: nat, q: nat)
    requires IsIdentifier(name) && EndsAtBoundary(a) && p < |a| && !SiteAt(a, p, name)
    requires q == p + 1
    ensures SubFrom(a + b, name, repl, p) == [a[p]] + SubFrom(a + b, name, repl, q)
    ensures SubFrom(a, name, repl, p) == [a[p]] + SubFrom(a, name, repl, q)
  {
    assert !SiteAt(a + b, p, name) by {
      SiteInLeft(a, b, name, p);
    }
    assert (a + b)[p] == a[p];
    SubFromCopyStep(a + b, name, repl, p);
    SubFromCopyStep(a, name, repl, p);
  }

  lemma {:induction false} SubFromLeft(a: string, b: string, name: string, repl: string, p: nat)
    requires IsIdentifier(name) && EndsAtBoundary(a) && p <= |a|
    ensures SubFrom(a + b, name, repl, p) == SubFrom(a, name, repl, p) + Substitute(b, name, repl)
    decreases |a| - p
  {
    if p == |a| {
      SubFromRight(a, b, name, repl, 0);
    } else {
      var q, head := SubFromLeftStep(a, b, name, repl, p);
      SubFromLeft(a, b, name, repl, q);
      var rest := Substitute(b, name, repl);
      assert head + (SubFrom(a, name, repl, q) + rest) == (head + SubFrom(a, name, repl, q)) + rest;
    }
  }

  /** The rewrite of two texts joined at a boundary is the join of their rewrites. */
  lemma SubstituteConcat(a: string, b: string, name: string, repl: string)
    requires IsIdentifier(name) && EndsAtBoundary(a)
    ensures Substitute(a + b, name, repl) == Substitute(a, name, repl) + Substitute(b, name, repl)
  {
    SubFromLeft(a, b, name, repl, 0);
  }

  /** A text that opens with the name, then a character that ends the word, and whose
      other characters, but the last, are word characters or `.`, has exactly one site:
      the name at the start. */
  lemma SubstituteLeadingName(name: string, repl: string, tail: string)
    requires IsIdentifier(name) && tail != [] && !IsWordChar(tail[0])
    requires forall k :: 0 <= k < |tail| - 1 ==> IsWordChar(tail[k]) || tail[k] == '.'
    ensures Substitute(name + tail, name, repl) == repl + tail
  {
    var text := name + tail;
    assert SiteAt(text, 0, name) by {
      assert text[0..|name|] == name;
      assert text[|name|] == tail[0];
    }
    SubFromSiteStep(text, name, repl, 0);
    assert NoSiteIn(text, name, |name|, |text|) by {
      forall k | |name| <= k < |text|
        ensures !FreeBefore(text, k)
      {
        if k == |name| {
          assert text[k - 1] == name[|name| - 1];
        } else {
          assert text[k - 1] == tail[k - 1 - |name|];
        }
      }
    }
    SubCopiesUpTo(text, name, repl, |name|, |text|);
    assert text[|name|..|text|] == tail;
  }

  /** A text without the first letter of the name has no site, so it is left unchanged. */
  lemma SubstituteWithoutInitial(text: string, name: string, repl: string)
    requires IsIdentifier(name) && name[0] !in text
    ensures Substitute(text, name, repl) == text
  {
    forall k | 0 <= k < |text| ensures !SiteAt(text, k, name) {
      assert text[k] in text;
      if k + |name| <= |text| {
        assert text[k..k + |name|][0] == text[k];
      }
    }
    SubstituteWithoutSite(text, name, repl);
  }
}
