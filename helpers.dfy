/**
 * The string utilities of the site (src/utils/helpers.ts): text truncation,
 * URL slugs, the e-mail and Peruvian mobile-number validators and the
 * conditional CSS class joiner `cn`.
 *
 * Strings are sequences of Unicode scalar values.  JavaScript's `\s` and
 * `trim()` are modelled by the predicate IsSpace; the Unicode case mapping
 * and NFD normalisation that `slugify` starts with are a parameter (Fold).
 */
module Helpers {

  // ---------------------------------------------------------------------
  // Characters
  // ---------------------------------------------------------------------

  /** The characters JavaScript's `\s` and `String.prototype.trim` treat as
      white space: ECMAScript's WhiteSpace code points (tab, vertical tab,
      form feed, the byte order mark and every Space_Separator: U+0020,
      U+00A0, U+1680, U+2000..U+200A, U+202F, U+205F, U+3000) and its
      LineTerminator code points (LF, CR, U+2028, U+2029). */
  const Whitespace: set<char> := {
    '\t', '\U{000B}', '\U{000C}', '\U{FEFF}',
    ' ', '\U{00A0}', '\U{1680}',
    '\U{2000}', '\U{2001}', '\U{2002}', '\U{2003}', '\U{2004}', '\U{2005}',
    '\U{2006}', '\U{2007}', '\U{2008}', '\U{2009}', '\U{200A}',
    '\U{202F}', '\U{205F}', '\U{3000}',
    '\n', '\r', '\U{2028}', '\U{2029}'
  }

  predicate IsSpace(c: char) { c in Whitespace }

  predicate NotSpace(c: char) { !IsSpace(c) }

  predicate AllSpace(s: string) {
    forall k :: 0 <= k < |s| ==> IsSpace(s[k])
  }

  predicate NoSpace(s: string) {
    forall k :: 0 <= k < |s| ==> !IsSpace(s[k])
  }

  /** `\d`: an ASCII decimal digit. */
  predicate IsDigit(c: char) { '0' <= c <= '9' }

  predicate AllDigits(s: string) {
    forall k :: 0 <= k < |s| ==> IsDigit(s[k])
  }

  // ---------------------------------------------------------------------
  // Filtering (the global `replace(..., '')` of a character class)
  // ---------------------------------------------------------------------

  /** The characters of `s` that satisfy `keep`, in their original order. */
  function Filter(s: string, keep: char -> bool): (r: string)
    ensures |r| <= |s|
    ensures forall k :: 0 <= k < |r| ==> keep(r[k])
  {
    if s == [] then [] else (if keep(s[0]) then [s[0]] else []) + Filter(s[1..], keep)
  }

  lemma {:induction false} FilterConcat(a: string, b: string, keep: char -> bool)
    ensures Filter(a + b, keep) == Filter(a, keep) + Filter(b, keep)
  {
    if a == [] {
      assert a + b == b;
    } else {
      assert (a + b)[1..] == a[1..] + b;
      FilterConcat(a[1..], b, keep);
    }
  }

  /** Filtering removes nothing exactly when every character is kept. */
  lemma {:induction false} FilterIdentity(s: string, keep: char -> bool)
    ensures Filter(s, keep) == s <==> (forall k :: 0 <= k < |s| ==> keep(s[k]))
  {
    if s != [] {
      FilterIdentity(s[1..], keep);
      if !keep(s[0]) {
        assert |Filter(s, keep)| < |s|;
      }
    }
  }

  /** Filtering keeps nothing exactly when no character is kept. */
  lemma {:induction false} FilterEmpty(s: string, keep: char -> bool)
    ensures Filter(s, keep) == [] <==> (forall k :: 0 <= k < |s| ==> !keep(s[k]))
  {
    if s != [] {
      FilterEmpty(s[1..], keep);
      if keep(s[0]) {
        assert Filter(s, keep)[0] == s[0];
      }
    }
  }

  // ---------------------------------------------------------------------
  // trim() and truncateText (helpers.ts:21-24)
  // ---------------------------------------------------------------------

  /** Every character of s[lo..hi] is white space. */
  predicate SpacesBetween(s: string, lo: nat, hi: nat)
    requires lo <= hi <= |s|
  {
    forall k :: lo <= k < hi ==> IsSpace(s[k])
  }

  /** The first index in [from, hi) that is not white space, or hi. */
  function SkipSpaces(s: string, from: nat, hi: nat): (i: nat)
    requires from <= hi <= |s|
    ensures from <= i <= hi
    ensures SpacesBetween(s, from, i)
    ensures i < hi ==> !IsSpace(s[i])
    decreases hi - from
  {
    if from < hi && IsSpace(s[from]) then SkipSpaces(s, from + 1, hi) else from
  }

  /** The end of s[lo..hi] once its trailing white space is dropped. */
  function SkipSpacesBack(s: string, lo: nat, hi: nat): (j: nat)
    requires lo <= hi <= |s|
    ensures lo <= j <= hi
    ensures SpacesBetween(s, j, hi)
    ensures j > lo ==> !IsSpace(s[j - 1])
    decreases hi
  {
    if lo < hi && IsSpace(s[hi - 1]) then SkipSpacesBack(s, lo, hi - 1) else hi
  }

  /** `String.prototype.trim`: the longest white-space prefix and suffix go. */
  function Trim(s: string): (r: string)
    ensures |r| <= |s|
    ensures r == [] || (!IsSpace(r[0]) && !IsSpace(r[|r| - 1]))
  {
    var i := SkipSpaces(s, 0, |s|);
    s[i..SkipSpacesBack(s, i, |s|)]
  }

  /** What trim() keeps is one piece of the text, and what it removes is
      white space, from the two ends only. */
  lemma {:induction false} TrimShape(s: string)
    ensures var r := Trim(s);
            exists i :: 0 <= i <= |s| - |r| && r == s[i..i + |r|]
                        && SpacesBetween(s, 0, i) && SpacesBetween(s, i + |r|, |s|)
  {
    var i := SkipSpaces(s, 0, |s|);
    var j := SkipSpacesBack(s, i, |s|);
    assert Trim(s) == s[i..j];
    assert 0 <= i <= |s| - (j - i) && s[i..j] == s[i..i + (j - i)];
  }

  /** The end index `text.slice(0, end)` cuts at: a negative end counts back
      from the end of the text, and the index is clamped to [0, len]. */
  function SliceEnd(len: nat, end: int): (e: nat)
    ensures e <= len
  {
    if end < 0 then (if len + end < 0 then 0 else len + end)
    else if end < len then end
    else len
  }

  const Ellipsis: string := "..."

  /** `truncateText(text, maxLength)`. */
  function TruncateText(text: string, maxLength: int): (r: string)
    ensures |text| <= maxLength ==> r == text
    ensures |text| > maxLength ==> |r| >= 3 && r[|r| - 3..] == Ellipsis
    ensures |text| > maxLength && maxLength >= 0 ==> |r| <= maxLength + 3
    ensures |text| > maxLength && maxLength < 0 ==> |r| <= |text| + 3
  {
    if |text| <= maxLength then text
    else Trim(text[..SliceEnd(|text|, maxLength)]) + Ellipsis
  }

  /** What a truncated text keeps in front of the ellipsis: a piece of the
      text's first `SliceEnd(|text|, maxLength)` characters (its first
      `maxLength` when that is not negative), cut only at white space, and
      with no white space at either end. */
  lemma {:induction false} TruncateKeepsTrimmedPrefix(text: string, maxLength: int)
    requires |text| > maxLength
    ensures var r := TruncateText(text, maxLength);
            var kept := r[..|r| - 3];
            var e := SliceEnd(|text|, maxLength);
            && (maxLength >= 0 ==> e == maxLength)
            && (kept == [] || (!IsSpace(kept[0]) && !IsSpace(kept[|kept| - 1])))
            && exists i :: 0 <= i <= e - |kept| && kept == text[i..i + |kept|]
                           && SpacesBetween(text, 0, i) && SpacesBetween(text, i + |kept|, e)
  {
    var e := SliceEnd(|text|, maxLength);
    var r := TruncateText(text, maxLength);
    assert r == Trim(text[..e]) + Ellipsis;
    assert r[..|r| - 3] == Trim(text[..e]);
    TrimmedPrefixShape(text, e);
  }

  lemma {:induction false} TrimmedPrefixShape(text: string, e: nat)
    requires e <= |text|
    ensures var kept := Trim(text[..e]);
            exists i :: 0 <= i <= e - |kept| && kept == text[i..i + |kept|]
                        && SpacesBetween(text, 0, i) && SpacesBetween(text, i + |kept|, e)
  {
    var p := text[..e];
    var i := SkipSpaces(p, 0, e);
    var j := SkipSpacesBack(p, i, e);
    assert Trim(p) == p[i..j];
    assert p[i..j] == text[i..j] by {
      assert i <= j <= e;
      forall k | 0 <= k < j - i ensures p[i..j][k] == text[i..j][k] { assert p[i + k] == text[i + k]; }
    }
    assert SpacesBetween(text, 0, i) by {
      forall k | 0 <= k < i ensures IsSpace(text[k]) { assert text[k] == p[k]; }
    }
    assert SpacesBetween(text, j, e) by {
      forall k | j <= k < e ensures IsSpace(text[k]) { assert text[k] == p[k]; }
    }
    assert text[i..j] == text[i..i + (j - i)];
  }

  // ---------------------------------------------------------------------
  // slugify (helpers.ts:29-36)
  // ---------------------------------------------------------------------

  /** `s.toLowerCase().normalize('NFD')`: Unicode case mapping and canonical
      decomposition are tables this model does not contain, so slugify takes
      them as a parameter. */
  type Fold = string -> string

  /** The combining diacritical marks U+0300..U+036F that slugify deletes. */
  predicate IsCombiningMark(c: char) { '\U{0300}' <= c <= '\U{036F}' }

  predicate NotCombiningMark(c: char) { !IsCombiningMark(c) }

  /** The character class [a-z0-9]. */
  predicate IsSlugChar(c: char) { 'a' <= c <= 'z' || '0' <= c <= '9' }

  /** `.replace(/[\u0300-\u036f]/g, '')` */
  function StripMarks(s: string): (r: string)
    ensures forall k :: 0 <= k < |r| ==> !IsCombiningMark(r[k])
  {
    Filter(s, NotCombiningMark)
  }

  /** `s` without its longest prefix of characters outside [a-z0-9]. */
  function DropRun(s: string): (r: string)
    ensures |r| <= |s| && r == s[|s| - |r|..]
    ensures forall k :: 0 <= k < |s| - |r| ==> !IsSlugChar(s[k])
    ensures r == [] || IsSlugChar(r[0])
  {
    if s != [] && !IsSlugChar(s[0]) then
      var r := DropRun(s[1..]);
      assert forall k :: 1 <= k < |s| ==> s[k] == s[1..][k - 1];
      r
    else s
  }

  /** Every character is in [a-z0-9-]. */
  predicate SlugAlphabet(s: string) {
    forall k :: 0 <= k < |s| ==> IsSlugChar(s[k]) || s[k] == '-'
  }

  /** No two adjacent hyphens. */
  predicate NoDoubleHyphen(s: string) {
    forall k :: 0 < k < |s| ==> !(s[k - 1] == '-' && s[k] == '-')
  }

  /** The shape of every slug: [a-z0-9-] only, no "--", and no hyphen at
      either end. */
  predicate IsSlug(s: string) {
    && SlugAlphabet(s)
    && NoDoubleHyphen(s)
    && (s != [] ==> s[0] != '-' && s[|s| - 1] != '-')
  }

  /** `.replace(/[^a-z0-9]+/g, '-')`: every maximal run of characters
      outside [a-z0-9] becomes a single hyphen. */
  function CollapseRuns(s: string): (r: string)
    ensures SlugAlphabet(r) && NoDoubleHyphen(r)
    ensures r == [] <==> s == []
    ensures r != [] ==> (r[0] == '-' <==> !IsSlugChar(s[0]))
    decreases |s|
  {
    if s == [] then []
    else if IsSlugChar(s[0]) then [s[0]] + CollapseRuns(s[1..])
    else "-" + CollapseRuns(DropRun(s[1..]))
  }

  /** `.replace(/(^-|-$)/g, '')`: one hyphen is taken off the front and one
      off the back; a lone "-" is consumed by the first alternative. */
  function StripEdgeHyphens(s: string): (r: string)
    ensures SlugAlphabet(s) && NoDoubleHyphen(s) ==> IsSlug(r)
  {
    var t := if s != [] && s[0] == '-' then s[1..] else s;
    assert SlugAlphabet(s) && NoDoubleHyphen(s) ==> |t| >= 2 ==> t[0] != '-' by {
      if s != [] && s[0] == '-' && |t| >= 2 { assert t[0] == s[1]; }
    }
    assert SlugAlphabet(s) && NoDoubleHyphen(s) ==> SlugAlphabet(t) && NoDoubleHyphen(t);
    if t != [] && t[|t| - 1] == '-' then t[..|t| - 1] else t
  }

  /** `slugify(text)`, with `fold` standing for `toLowerCase().normalize('NFD')`. */
  function Slugify(fold: Fold, text: string): (r: string)
    ensures IsSlug(r)
  {
    StripEdgeHyphens(CollapseRuns(StripMarks(fold(text))))
  }

  /** The letters and digits of a string, in order. */
  function Alnums(s: string): (r: string) { Filter(s, IsSlugChar) }

  lemma {:induction false} CollapseKeepsAlnums(s: string)
    ensures Alnums(CollapseRuns(s)) == Alnums(s)
    decreases |s|
  {
    if s == [] {
    } else if IsSlugChar(s[0]) {
      assert s == [s[0]] + s[1..];
      FilterConcat([s[0]], CollapseRuns(s[1..]), IsSlugChar);
      FilterConcat([s[0]], s[1..], IsSlugChar);
      CollapseKeepsAlnums(s[1..]);
    } else {
      var rest := s[1..];
      var d := DropRun(rest);
      FilterConcat("-", CollapseRuns(d), IsSlugChar);
      CollapseKeepsAlnums(d);
      DropRunKeepsAlnums(rest);
      assert s == [s[0]] + rest;
      FilterConcat([s[0]], rest, IsSlugChar);
    }
  }

  lemma {:induction false} DropRunKeepsAlnums(s: string)
    ensures Alnums(DropRun(s)) == Alnums(s)
  {
    if s != [] && !IsSlugChar(s[0]) {
      DropRunKeepsAlnums(s[1..]);
    }
  }

  lemma {:induction false} StripEdgesKeepsAlnums(c: string)
    ensures Alnums(StripEdgeHyphens(c)) == Alnums(c)
  {
    var t := if c != [] && c[0] == '-' then c[1..] else c;
    if c != [] && c[0] == '-' {
      assert c == "-" + t;
      FilterConcat("-", t, IsSlugChar);
    }
    if t != [] && t[|t| - 1] == '-' {
      assert t == t[..|t| - 1] + "-";
      FilterConcat(t[..|t| - 1], "-", IsSlugChar);
    }
  }

  /** slugify keeps every letter and digit the folded, mark-free text has,
      in order, and adds none. */
  lemma {:induction false} SlugifyKeepsAlnums(fold: Fold, text: string)
    ensures Alnums(Slugify(fold, text)) == Alnums(StripMarks(fold(text)))
  {
    var m := StripMarks(fold(text));
    var c := CollapseRuns(m);
    assert Slugify(fold, text) == StripEdgeHyphens(c);
    StripEdgesKeepsAlnums(c);
    CollapseKeepsAlnums(m);
  }

  /** slugify yields "" exactly when the folded, mark-free text has no
      letter or digit. */
  lemma {:induction false} SlugifyEmptyIff(fold: Fold, text: string)
    ensures Slugify(fold, text) == [] <==> Alnums(StripMarks(fold(text))) == []
  {
    var r := Slugify(fold, text);
    SlugifyKeepsAlnums(fold, text);
    FilterEmpty(r, IsSlugChar);
    if r != [] {
      assert IsSlugChar(r[0]);
    }
  }

  lemma {:induction false} CollapseFixesSlugText(s: string)
    requires SlugAlphabet(s) && NoDoubleHyphen(s)
    ensures CollapseRuns(s) == s
    decreases |s|
  {
    if s != [] {
      var rest := s[1..];
      assert NoDoubleHyphen(rest) by {
        forall k | 0 < k < |rest| ensures !(rest[k - 1] == '-' && rest[k] == '-') {
          assert rest[k - 1] == s[k] && rest[k] == s[k + 1];
        }
      }
      CollapseFixesSlugText(rest);
      if !IsSlugChar(s[0]) {
        assert rest == [] || rest[0] == s[1];
        assert DropRun(rest) == rest;
      }
    }
  }

  /** A slug passes through every step after the fold unchanged. */
  lemma {:induction false} SlugStepsFixSlugs(s: string)
    requires IsSlug(s)
    ensures StripMarks(s) == s
    ensures CollapseRuns(s) == s
    ensures StripEdgeHyphens(s) == s
  {
    FilterIdentity(s, NotCombiningMark);
    CollapseFixesSlugText(s);
  }

  /** slugify is idempotent whenever the fold leaves its output alone, as
      lower-casing and NFD do for every string over [a-z0-9-]. */
  lemma {:induction false} SlugifyIdempotent(fold: Fold, text: string)
    requires fold(Slugify(fold, text)) == Slugify(fold, text)
    ensures Slugify(fold, Slugify(fold, text)) == Slugify(fold, text)
  {
    SlugStepsFixSlugs(Slugify(fold, text));
  }

  /** Lower-casing restricted to ASCII: 'A'..'Z' become 'a'..'z'. */
  function LowerChar(c: char): (d: char)
    ensures 'A' <= c <= 'Z' ==> 'a' <= d <= 'z'
    ensures !('A' <= c <= 'Z') ==> d == c
  {
    if 'A' <= c <= 'Z' then (c as int + 32) as char else c
  }

  /** The fold for ASCII text: NFD leaves ASCII unchanged, so only case
      mapping remains. */
  function AsciiLower(s: string): (r: string)
    ensures |r| == |s| && forall k :: 0 <= k < |s| ==> r[k] == LowerChar(s[k])
  {
    if s == [] then [] else [LowerChar(s[0])] + AsciiLower(s[1..])
  }

  /** Lower-casing leaves text over [a-z0-9-] unchanged. */
  lemma AsciiLowerFixesSlugText(s: string)
    requires SlugAlphabet(s)
    ensures AsciiLower(s) == s
  {
  }

  /** On ASCII text slugify is idempotent. */
  lemma {:induction false} SlugifyAsciiIdempotent(text: string)
    ensures Slugify(AsciiLower, Slugify(AsciiLower, text)) == Slugify(AsciiLower, text)
  {
    AsciiLowerFixesSlugText(Slugify(AsciiLower, text));
    SlugifyIdempotent(AsciiLower, text);
  }

  /** Characters outside [a-z0-9] in front of a text that is empty or
      starts with a letter or digit are exactly the run DropRun removes. */
  lemma {:induction false} DropRunPrefix(g: string, b: string)
    requires forall k :: 0 <= k < |g| ==> !IsSlugChar(g[k])
    requires b == [] || IsSlugChar(b[0])
    ensures DropRun(g + b) == b
    decreases |g|
  {
    if g == [] {
      assert g + b == b;
    } else {
      assert (g + b)[1..] == g[1..] + b;
      DropRunPrefix(g[1..], b);
    }
  }

  /** When the text contains a letter or digit before `r`, dropping the
      leading run does not reach `r`. */
  lemma {:induction false} DropRunConcat(x: string, r: string)
    requires x != [] && IsSlugChar(x[|x| - 1])
    ensures DropRun(x + r) == DropRun(x) + r
    ensures DropRun(x) != [] && DropRun(x)[|DropRun(x)| - 1] == x[|x| - 1]
    decreases |x|
  {
    if !IsSlugChar(x[0]) {
      assert (x + r)[1..] == x[1..] + r;
      DropRunConcat(x[1..], r);
    }
  }

  /** Collapsing distributes over a cut made right after a letter or
      digit. */
  lemma {:induction false} CollapseConcat(a: string, r: string)
    requires a == [] || IsSlugChar(a[|a| - 1])
    ensures CollapseRuns(a + r) == CollapseRuns(a) + CollapseRuns(r)
    decreases |a|
  {
    if a == [] {
      assert a + r == r;
    } else if IsSlugChar(a[0]) {
      assert (a + r)[1..] == a[1..] + r;
      CollapseConcat(a[1..], r);
      ConcatAssoc([a[0]], CollapseRuns(a[1..]), CollapseRuns(r));
    } else {
      var d := DropRun(a[1..]);
      assert (a + r)[1..] == a[1..] + r;
      DropRunConcat(a[1..], r);
      CollapseConcat(d, r);
      ConcatAssoc("-", CollapseRuns(d), CollapseRuns(r));
    }
  }

  /** Every maximal run of characters outside [a-z0-9] becomes exactly one
      hyphen, in its place: between a part that ends with a letter or digit
      and a part that starts with one, a non-empty run collapses to "-"
      whatever it holds. */
  lemma {:induction false} CollapseSplit(a: string, g: string, b: string)
    requires a == [] || IsSlugChar(a[|a| - 1])
    requires g != [] && forall k :: 0 <= k < |g| ==> !IsSlugChar(g[k])
    requires b == [] || IsSlugChar(b[0])
    ensures CollapseRuns(a + g + b) == CollapseRuns(a) + "-" + CollapseRuns(b)
  {
    assert a + g + b == a + (g + b);
    CollapseConcat(a, g + b);
    CollapseGap(g, b);
    ConcatAssoc(CollapseRuns(a), "-", CollapseRuns(b));
  }

  lemma ConcatAssoc(x: string, y: string, z: string)
    ensures x + (y + z) == x + y + z
  {
  }

  /** A run of other characters in front of a letter or digit (or at the
      end) collapses to one hyphen. */
  lemma CollapseGap(g: string, b: string)
    requires g != [] && forall k :: 0 <= k < |g| ==> !IsSlugChar(g[k])
    requires b == [] || IsSlugChar(b[0])
    ensures CollapseRuns(g + b) == "-" + CollapseRuns(b)
  {
    assert (g + b)[0] == g[0];
    assert (g + b)[1..] == g[1..] + b;
    DropRunPrefix(g[1..], b);
  }

  /** Two words over [a-z0-9] separated by any non-empty run of other
      characters (spaces, punctuation) give the two words joined by one
      hyphen: "hello, world" becomes "hello-world". */
  lemma {:induction false} SlugifyTwoWords(fold: Fold, text: string, w1: string, g: string, w2: string)
    requires w1 != [] && forall k :: 0 <= k < |w1| ==> IsSlugChar(w1[k])
    requires w2 != [] && forall k :: 0 <= k < |w2| ==> IsSlugChar(w2[k])
    requires g != [] && forall k :: 0 <= k < |g| ==> !IsSlugChar(g[k])
    requires StripMarks(fold(text)) == w1 + g + w2
    ensures Slugify(fold, text) == w1 + "-" + w2
  {
    CollapseTwoWords(w1, g, w2);
    var c := w1 + "-" + w2;
    assert c[0] == w1[0] && c[|c| - 1] == w2[|w2| - 1];
    StripEdgesNoop(c);
  }

  /** The collapsing step alone on two words and the run between them. */
  lemma CollapseTwoWords(w1: string, g: string, w2: string)
    requires w1 != [] && forall k :: 0 <= k < |w1| ==> IsSlugChar(w1[k])
    requires w2 != [] && forall k :: 0 <= k < |w2| ==> IsSlugChar(w2[k])
    requires g != [] && forall k :: 0 <= k < |g| ==> !IsSlugChar(g[k])
    ensures CollapseRuns(w1 + g + w2) == w1 + "-" + w2
  {
    CollapseSplit(w1, g, w2);
    CollapseFixesSlugText(w1);
    CollapseFixesSlugText(w2);
  }

  /** The last step takes at most one hyphen off each end and leaves the
      middle as it is. */
  lemma StripEdgesShape(c: string)
    ensures exists p, q :: (p == "" || p == "-") && (q == "" || q == "-")
                           && c == p + StripEdgeHyphens(c) + q
  {
    var t := if c != [] && c[0] == '-' then c[1..] else c;
    var p := if c != [] && c[0] == '-' then "-" else "";
    var q := if t != [] && t[|t| - 1] == '-' then "-" else "";
    assert c == p + t;
    assert t == StripEdgeHyphens(c) + q;
    assert c == p + StripEdgeHyphens(c) + q;
  }

  /** slugify is the collapsed text with at most one hyphen removed from
      each end; with `CollapseSplit` and `CollapseFixesSlugText`, which fix
      the collapsed text, and `IsSlug`, which says no hyphen is left at
      either end, this fixes the slug of every input. */
  lemma SlugifyStripsOnlyEdges(fold: Fold, text: string)
    ensures var c := CollapseRuns(StripMarks(fold(text)));
            exists p, q :: (p == "" || p == "-") && (q == "" || q == "-")
                           && c == p + Slugify(fold, text) + q
  {
    var c := CollapseRuns(StripMarks(fold(text)));
    assert Slugify(fold, text) == StripEdgeHyphens(c);
    StripEdgesShape(c);
  }

  /** A text with no hyphen at either end loses nothing to the last step. */
  lemma StripEdgesNoop(c: string)
    requires c == [] || (c[0] != '-' && c[|c| - 1] != '-')
    ensures StripEdgeHyphens(c) == c
  {
  }

  // ---------------------------------------------------------------------
  // isValidEmail (helpers.ts:41-44)
  // ---------------------------------------------------------------------

  /** The class [^\s@]. */
  predicate EmailChar(c: char) { !IsSpace(c) && c != '@' }

  /** [^\s@]+ */
  predicate EmailRun(s: string) {
    |s| > 0 && forall k :: 0 <= k < |s| ==> EmailChar(s[k])
  }

  /** The strings `/^[^\s@]+@[^\s@]+\.[^\s@]+$/` matches: some split into a
      run, "@", a run, ".", a run. */
  ghost predicate EmailPatternMatches(e: string) {
    exists i, j :: 0 < i && i + 1 < j < |e| - 1 && e[i] == '@' && e[j] == '.'
                   && EmailRun(e[..i]) && EmailRun(e[i + 1..j]) && EmailRun(e[j + 1..])
  }

  /** The number of occurrences of `c` in `s`. */
  function Count(s: string, c: char): (n: nat)
    ensures n <= |s|
  {
    if s == [] then 0 else (if s[0] == c then 1 else 0) + Count(s[1..], c)
  }

  lemma {:induction false} CountConcat(a: string, b: string, c: char)
    ensures Count(a + b, c) == Count(a, c) + Count(b, c)
  {
    if a == [] {
      assert a + b == b;
    } else {
      assert (a + b)[1..] == a[1..] + b;
      CountConcat(a[1..], b, c);
    }
  }

  lemma {:induction false} CountZero(s: string, c: char)
    ensures Count(s, c) == 0 <==> forall k :: 0 <= k < |s| ==> s[k] != c
  {
    if s != [] {
      CountZero(s[1..], c);
      assert forall k :: 1 <= k < |s| ==> s[k] == s[1..][k - 1];
    }
  }

  /** Once `c` is at `i`, a second occurrence makes the count at least two. */
  lemma {:induction false} CountOne(s: string, c: char, i: nat, m: nat)
    requires i < |s| && m < |s| && s[i] == c && s[m] == c && Count(s, c) == 1
    ensures i == m
  {
    if i != m {
      var lo, hi := if i < m then i else m, if i < m then m else i;
      assert s == s[..hi] + s[hi..];
      CountConcat(s[..hi], s[hi..], c);
      assert s[..hi][lo] == c && s[hi..][0] == c;
      CountZero(s[..hi], c);
    }
  }

  /** The index of the first `c` in `s`, or |s| when there is none. */
  function FirstIndex(s: string, c: char): (i: nat)
    ensures i <= |s|
    ensures i < |s| ==> s[i] == c
    ensures forall k :: 0 <= k < i ==> s[k] != c
  {
    if s == [] then 0 else if s[0] == c then 0 else 1 + FirstIndex(s[1..], c)
  }

  /** A '.' that is neither the first nor the last character. */
  predicate HasInnerDot(d: string) {
    exists k :: 0 < k < |d| - 1 && d[k] == '.'
  }

  /** `isValidEmail(email)`: no white space, exactly one '@', something
      before it, and a '.' after it that is neither the first nor the last
      character of the part after the '@'. */
  function IsValidEmail(e: string): (valid: bool) {
    var at := FirstIndex(e, '@');
    && NoSpace(e)
    && Count(e, '@') == 1
    && 0 < at < |e|
    && HasInnerDot(e[at + 1..])
  }

  /** The explicit check accepts exactly what the regular expression
      matches. */
  lemma {:induction false} IsValidEmailMatchesPattern(e: string)
    ensures IsValidEmail(e) <==> EmailPatternMatches(e)
  {
    if IsValidEmail(e) { ValidEmailMatchesPattern(e); }
    if EmailPatternMatches(e) {
      var i, j :| 0 < i && i + 1 < j < |e| - 1 && e[i] == '@' && e[j] == '.'
                  && EmailRun(e[..i]) && EmailRun(e[i + 1..j]) && EmailRun(e[j + 1..]);
      PatternSplitIsValidEmail(e, i, j);
    }
  }

  lemma {:induction false} ValidEmailMatchesPattern(e: string)
    requires IsValidEmail(e)
    ensures EmailPatternMatches(e)
  {
    var at := FirstIndex(e, '@');
    var d := e[at + 1..];
    var k :| 0 < k < |d| - 1 && d[k] == '.';
    var j := at + 1 + k;
    assert e[j] == '.';
    forall m | 0 <= m < |e| && m != at ensures EmailChar(e[m]) {
      if e[m] == '@' { CountOne(e, '@', at, m); }
    }
    assert EmailRun(e[..at]);
    assert EmailRun(e[at + 1..j]);
    assert EmailRun(e[j + 1..]);
  }

  lemma {:induction false} PatternSplitIsValidEmail(e: string, i: nat, j: nat)
    requires 0 < i && i + 1 < j < |e| - 1 && e[i] == '@' && e[j] == '.'
    requires EmailRun(e[..i]) && EmailRun(e[i + 1..j]) && EmailRun(e[j + 1..])
    ensures IsValidEmail(e)
  {
    forall m | 0 <= m < |e| && m != i ensures EmailChar(e[m]) {
      if m < i {
        assert e[m] == e[..i][m];
      } else if m < j {
        assert e[m] == e[i + 1..j][m - i - 1];
      } else if j < m {
        assert e[m] == e[j + 1..][m - j - 1];
      }
    }
    CountExactlyAt(e, '@', i);
    assert e[i + 1..][j - i - 1] == '.';
  }

  /** A character that occurs only at `i` occurs once. */
  lemma {:induction false} CountExactlyAt(s: string, c: char, i: nat)
    requires i < |s| && s[i] == c
    requires forall m :: 0 <= m < |s| && m != i ==> s[m] != c
    ensures Count(s, c) == 1
  {
    assert s == s[..i] + ([s[i]] + s[i + 1..]);
    CountConcat(s[..i], [s[i]] + s[i + 1..], c);
    CountConcat([s[i]], s[i + 1..], c);
    CountZero(s[..i], c);
    CountZero(s[i + 1..], c);
  }

  // ---------------------------------------------------------------------
  // isValidPhone (helpers.ts:49-52)
  // ---------------------------------------------------------------------

  /** `phone.replace(/\s/g, '')` */
  function RemoveSpaces(s: string): (r: string)
    ensures NoSpace(r)
  {
    Filter(s, NotSpace)
  }

  /** The strings `/^(\+51)?9\d{8}$/` matches: the optional country code,
      then '9', then exactly eight digits. */
  ghost predicate PhonePatternMatches(s: string) {
    exists prefix: string, digits: string ::
      && (prefix == "" || prefix == "+51")
      && |digits| == 8 && AllDigits(digits)
      && s == prefix + "9" + digits
  }

  /** `isValidPhone(phone)`: with white space removed, nine characters
      "9dddddddd" or twelve characters "+519dddddddd". */
  function IsValidPhone(phone: string): (valid: bool) {
    var s := RemoveSpaces(phone);
    || (|s| == 9 && s[0] == '9' && AllDigits(s[1..]))
    || (|s| == 12 && s[..4] == "+519" && AllDigits(s[4..]))
  }

  /** The explicit check accepts exactly what the regular expression matches
      on the text with its white space removed. */
  lemma {:induction false} IsValidPhoneMatchesPattern(phone: string)
    ensures IsValidPhone(phone) <==> PhonePatternMatches(RemoveSpaces(phone))
  {
    var s := RemoveSpaces(phone);
    if |s| == 9 && s[0] == '9' && AllDigits(s[1..]) {
      assert s == "" + "9" + s[1..];
    }
    if |s| == 12 && s[..4] == "+519" && AllDigits(s[4..]) {
      assert s == "+51" + "9" + s[4..];
    }
    if PhonePatternMatches(s) {
      var prefix: string, digits: string :|
        && (prefix == "" || prefix == "+51")
        && |digits| == 8 && AllDigits(digits)
        && s == prefix + "9" + digits;
      if prefix == "" {
        assert s[1..] == digits;
      } else {
        assert s[..4] == "+519";
        assert s[4..] == digits;
      }
    }
  }

  /** White space anywhere in the input does not change the verdict. */
  lemma {:induction false} PhoneIgnoresSpaces(a: string, w: string, b: string)
    requires AllSpace(w)
    ensures IsValidPhone(a + w + b) == IsValidPhone(a + b)
  {
    FilterConcat(a + w, b, NotSpace);
    FilterConcat(a, w, NotSpace);
    FilterConcat(a, b, NotSpace);
    FilterEmpty(w, NotSpace);
    assert RemoveSpaces(a + w + b) == RemoveSpaces(a) + [] + RemoveSpaces(b);
    assert RemoveSpaces(a + w + b) == RemoveSpaces(a + b);
  }

  // ---------------------------------------------------------------------
  // cn (helpers.ts:88-90)
  // ---------------------------------------------------------------------

  /** An argument of `cn`: a class string, or one of the other values its
      parameter type admits. */
  datatype ClassArg = Class(name: string) | Undefined | Null | False

  /** `Boolean(arg)`: only a non-empty string is truthy. */
  predicate Truthy(a: ClassArg) { a.Class? && a.name != "" }

  /** `classes.filter(Boolean)`: the non-empty class strings, in order. */
  function KeptClasses(args: seq<ClassArg>): (r: seq<string>)
    ensures |r| <= |args|
    ensures forall k :: 0 <= k < |r| ==> r[k] != ""
    ensures forall x :: x in r <==> x != "" && Class(x) in args
  {
    if args == [] then []
    else
      var rest := KeptClasses(args[1..]);
      assert args == [args[0]] + args[1..];
      (if Truthy(args[0]) then [args[0].name] else []) + rest
  }

  /** `parts.join(sep)` */
  function Join(parts: seq<string>, sep: string): (r: string)
  {
    if parts == [] then ""
    else if |parts| == 1 then parts[0]
    else parts[0] + sep + Join(parts[1..], sep)
  }

  /** `cn(...classes)` */
  function Cn(args: seq<ClassArg>): (r: string) {
    Join(KeptClasses(args), " ")
  }

  /** `s.split(sep)` for a one-character separator: the pieces between the
      separators, so "" gives [""]. */
  function Split(s: string, sep: char): (r: seq<string>)
    ensures |r| >= 1
    ensures forall k :: 0 <= k < |r| ==> sep !in r[k]
    decreases |s|
  {
    var i := FirstIndex(s, sep);
    if i == |s| then [s] else [s[..i]] + Split(s[i + 1..], sep)
  }

  lemma {:induction false} KeptClassesConcat(xs: seq<ClassArg>, ys: seq<ClassArg>)
    ensures KeptClasses(xs + ys) == KeptClasses(xs) + KeptClasses(ys)
  {
    if xs == [] {
      assert xs + ys == ys;
    } else {
      assert (xs + ys)[1..] == xs[1..] + ys;
      KeptClassesConcat(xs[1..], ys);
    }
  }

  lemma {:induction false} JoinConcat(a: seq<string>, b: seq<string>, sep: string)
    requires a != [] && b != []
    ensures Join(a + b, sep) == Join(a, sep) + sep + Join(b, sep)
  {
    if |a| > 1 {
      assert (a + b)[1..] == a[1..] + b;
      JoinConcat(a[1..], b, sep);
    }
  }

  /** `cn` of two argument lists is the two results joined by one space,
      the space left out when either side is empty. */
  lemma {:induction false} CnConcat(xs: seq<ClassArg>, ys: seq<ClassArg>)
    ensures Cn(xs + ys) == if Cn(xs) == "" then Cn(ys)
                           else if Cn(ys) == "" then Cn(xs)
                           else Cn(xs) + " " + Cn(ys)
  {
    KeptClassesConcat(xs, ys);
    var a, b := KeptClasses(xs), KeptClasses(ys);
    CnEmptyIff(xs);
    CnEmptyIff(ys);
    if a == [] {
      assert a + b == b;
    } else if b == [] {
      assert a + b == a;
    } else {
      JoinConcat(a, b, " ");
    }
  }

  /** A single class string is returned as it is. */
  lemma CnSingleton(a: string)
    requires a != ""
    ensures Cn([Class(a)]) == a
  {
  }

  /** A falsy argument anywhere contributes nothing. */
  lemma {:induction false} CnDropsFalsy(xs: seq<ClassArg>, a: ClassArg, ys: seq<ClassArg>)
    requires !Truthy(a)
    ensures Cn(xs + [a] + ys) == Cn(xs + ys)
  {
    KeptClassesConcat(xs + [a], ys);
    KeptClassesConcat(xs, [a]);
    KeptClassesConcat(xs, ys);
    assert KeptClasses([a]) == [];
    assert KeptClasses(xs) + [] == KeptClasses(xs);
  }

  /** `cn` is "" exactly when no argument is a non-empty string. */
  lemma {:induction false} CnEmptyIff(args: seq<ClassArg>)
    ensures Cn(args) == "" <==> KeptClasses(args) == []
    ensures KeptClasses(args) == [] <==> forall k :: 0 <= k < |args| ==> !Truthy(args[k])
  {
    var parts := KeptClasses(args);
    if |parts| > 1 {
      assert |Join(parts, " ")| >= |parts[0]| + 1;
    }
    KeptClassesEmpty(args);
  }

  lemma {:induction false} KeptClassesEmpty(args: seq<ClassArg>)
    ensures KeptClasses(args) == [] <==> forall k :: 0 <= k < |args| ==> !Truthy(args[k])
  {
    if args != [] {
      KeptClassesEmpty(args[1..]);
      assert forall k :: 1 <= k < |args| ==> args[k] == args[1..][k - 1];
    }
  }

  lemma {:induction false} SplitJoin(parts: seq<string>, sep: char)
    requires parts != []
    requires forall k :: 0 <= k < |parts| ==> sep !in parts[k]
    ensures Split(Join(parts, [sep]), sep) == parts
  {
    var p := parts[0];
    if |parts| == 1 {
      assert FirstIndex(p, sep) == |p|;
    } else {
      var rest := Join(parts[1..], [sep]);
      var s := p + [sep] + rest;
      assert FirstIndex(s, sep) == |p| by {
        assert s[|p|] == sep;
        assert forall k :: 0 <= k < |p| ==> s[k] == p[k];
      }
      assert s[..|p|] == p;
      assert s[|p| + 1..] == rest;
      SplitJoin(parts[1..], sep);
      assert parts == [p] + parts[1..];
    }
  }

  /** When no class string holds a space, splitting the result on spaces
      gives back exactly the kept classes, in their original order. */
  lemma {:induction false} CnSplitRoundTrip(args: seq<ClassArg>)
    requires forall k :: 0 <= k < |args| && args[k].Class? ==> ' ' !in args[k].name
    requires KeptClasses(args) != []
    ensures Split(Cn(args), ' ') == KeptClasses(args)
  {
    KeptClassesNames(args);
    SplitJoin(KeptClasses(args), ' ');
  }

  lemma {:induction false} KeptClassesNames(args: seq<ClassArg>)
    requires forall k :: 0 <= k < |args| && args[k].Class? ==> ' ' !in args[k].name
    ensures forall k :: 0 <= k < |KeptClasses(args)| ==> ' ' !in KeptClasses(args)[k]
  {
    if args != [] {
      assert forall k :: 1 <= k < |args| ==> args[k] == args[1..][k - 1];
      KeptClassesNames(args[1..]);
    }
  }
}
