/** The canonical link tag: the match of
    `<link[^>]+rel=["']canonical["'][^>]*>` under `re.IGNORECASE`, the
    leftmost-match search of `canonical_re.search`, and the replace-all of
    `canonical_re.sub` with a fixed replacement text.

    A match that starts at index `q` of a text depends only on the text from
    `q` on, so the pattern is stated on a string `u` standing for that
    suffix. Since `[^>]` never crosses a '>', a match from "<link" always
    ends at the first '>' after it, whichever "rel=...canonical..." inside
    it the engine settles on. */
module CanonicalTag {
  import opened Text

  const LinkOpen := "<link"
  const RelAttr := "rel="
  const CanonicalWord := "canonical"

  /** Number of characters in `rel="canonical"`. */
  const RelLength := 15

  predicate IsQuote(c: char)
  {
    c == '"' || c == '\''
  }

  /** `rel=["']canonical["']` at index `r` of `u`, case-insensitively. */
  predicate RelCanonicalAt(u: string, r: nat)
  {
    && r + RelLength <= |u|
    && MatchesAt(u, r, RelAttr)
    && IsQuote(u[r + 4])
    && MatchesAt(u, r + 5, CanonicalWord)
    && IsQuote(u[r + 14])
  }

  /** `u[..n]` is a string of the pattern's language: "<link", at least one
      character other than '>', the `rel` attribute, characters other than
      '>' and a closing '>'. */
  predicate InPattern(u: string, n: nat)
  {
    && 0 < n <= |u|
    && MatchesAt(u, 0, LinkOpen)
    && u[n - 1] == '>'
    && (forall k :: |LinkOpen| <= k < n - 1 ==> u[k] != '>')
    && exists r :: |LinkOpen| < r && r + RelLength <= n - 1 && RelCanonicalAt(u, r)
  }

  /** `rel=["']canonical["']` at some index `r` of `u` with `lo <= r`, ending
      by `hi`: the search of the engine for the attribute inside the tag. */
  predicate RelCanonicalIn(u: string, lo: nat, hi: nat)
    decreases hi - lo
  {
    lo + RelLength <= hi && (RelCanonicalAt(u, lo) || RelCanonicalIn(u, lo + 1, hi))
  }

  lemma {:induction false} RelCanonicalInIff(u: string, lo: nat, hi: nat)
    ensures RelCanonicalIn(u, lo, hi) <==> exists r :: lo <= r && r + RelLength <= hi && RelCanonicalAt(u, r)
    decreases hi - lo
  {
    if lo + RelLength <= hi {
      RelCanonicalInIff(u, lo + 1, hi);
      if RelCanonicalAt(u, lo) {
        assert lo <= lo && lo + RelLength <= hi && RelCanonicalAt(u, lo);
      }
    }
  }

  /** Length of the match of the pattern at the start of `u`, if any
      (`CanonAtExact` shows it is the only prefix in the language). */
  function CanonAt(u: string): (r: Option<nat>)
    ensures r.Some? ==> 0 < r.value <= |u|
  {
    if !MatchesAt(u, 0, LinkOpen) then None
    else match FirstFrom(u, |LinkOpen|, '>')
      case None => None
      case Some(g) =>
        if RelCanonicalIn(u, |LinkOpen| + 1, g) then Some(g + 1) else None
  }

  /** What `CanonAt` finds is a prefix in the pattern's language. */
  lemma CanonAtSound(u: string)
    requires CanonAt(u).Some?
    ensures InPattern(u, CanonAt(u).value)
  {
    RelCanonicalInIff(u, |LinkOpen| + 1, FirstFrom(u, |LinkOpen|, '>').value);
  }

  /** The pattern matches at most one prefix of `u`, and `CanonAt` finds it. */
  lemma CanonAtExact(u: string, n: nat)
    requires InPattern(u, n)
    ensures CanonAt(u) == Some(n)
  {
    var r :| |LinkOpen| < r && r + RelLength <= n - 1 && RelCanonicalAt(u, r);
    assert FirstFrom(u, |LinkOpen|, '>') == Some(n - 1);
    RelCanonicalInIff(u, |LinkOpen| + 1, n - 1);
  }

  /** The part of a text a match covers. */
  datatype Span = Span(start: nat, end: nat)

  /** `canonical_re.search(s, from)`: the match at the smallest index at or
      after `from` where there is one. */
  function FindCanon(s: string, from: nat): (r: Option<Span>)
    ensures r.Some? ==> from <= r.value.start < r.value.end <= |s|
    ensures r.Some? ==> CanonAt(s[r.value.start..]) == Some(r.value.end - r.value.start)
    decreases |s| - from
  {
    if from + |LinkOpen| > |s| then None
    else match CanonAt(s[from..])
      case Some(n) => Some(Span(from, from + n))
      case None => FindCanon(s, from + 1)
  }

  /** `canonical_re.sub(tag, s)`: every match, left to right and without
      overlap, replaced by `tag`. */
  function Substitute(s: string, tag: string): string
    decreases |s|
  {
    match FindCanon(s, 0)
    case None => s
    case Some(sp) => s[..sp.start] + tag + Substitute(s[sp.end..], tag)
  }

  /** The texts of the successive matches `canonical_re.sub` replaces (what
      `canonical_re.findall` would list). */
  function MatchTexts(s: string): seq<string>
    decreases |s|
  {
    match FindCanon(s, 0)
    case None => []
    case Some(sp) => [s[sp.start..sp.end]] + MatchTexts(s[sp.end..])
  }

  /** The texts around the matches: the text before each match, then what
      follows the last one. */
  function Gaps(s: string): seq<string>
    decreases |s|
  {
    match FindCanon(s, 0)
    case None => [s]
    case Some(sp) => [s[..sp.start]] + Gaps(s[sp.end..])
  }

  /** The text made of the gaps `gs` with the matches `ms` between them. */
  function Interleave(gs: seq<string>, ms: seq<string>): string
    requires |gs| == |ms| + 1
    decreases |ms|
  {
    if ms == [] then gs[0] else gs[0] + ms[0] + Interleave(gs[1..], ms[1..])
  }

  /** `n` copies of `tag`. */
  function Repeat(tag: string, n: nat): (ts: seq<string>)
    ensures |ts| == n
    ensures AllAre(ts, tag)
  {
    if n == 0 then [] else [tag] + Repeat(tag, n - 1)
  }

  /** The whole of `tag` is one canonical link tag. */
  predicate IsCanonicalTag(tag: string)
  {
    InPattern(tag, |tag|)
  }

  // ---------------------------------------------------------------------
  // How a match reacts to the text around it.

  lemma RelCanonicalPrefix(x: string, y: string, r: nat)
    requires r + RelLength <= |x|
    ensures RelCanonicalAt(x + y, r) <==> RelCanonicalAt(x, r)
  {
    MatchesAtPrefix(x, y, r, RelAttr);
    MatchesAtPrefix(x, y, r + 5, CanonicalWord);
  }

  lemma RelCanonicalSuffix(x: string, y: string, r: nat)
    ensures RelCanonicalAt(x + y, |x| + r) <==> RelCanonicalAt(y, r)
  {
    MatchesAtSuffix(x, y, r, RelAttr);
    MatchesAtSuffix(x, y, r + 5, CanonicalWord);
  }

  /** Whether `u[..n]` is in the pattern's language depends on `u[..n]` only. */
  lemma InPatternPrefix(x: string, y: string, n: nat)
    requires n <= |x|
    ensures InPattern(x + y, n) <==> InPattern(x, n)
  {
    if InPattern(x + y, n) {
      var r :| |LinkOpen| < r && r + RelLength <= n - 1 && RelCanonicalAt(x + y, r);
      RelCanonicalPrefix(x, y, r);
      MatchesAtPrefix(x, y, 0, LinkOpen);
      assert forall k :: 0 <= k < n ==> (x + y)[k] == x[k];
      assert RelCanonicalAt(x, r);
    }
    if InPattern(x, n) {
      var r :| |LinkOpen| < r && r + RelLength <= n - 1 && RelCanonicalAt(x, r);
      RelCanonicalPrefix(x, y, r);
      MatchesAtPrefix(x, y, 0, LinkOpen);
      assert forall k :: 0 <= k < n ==> (x + y)[k] == x[k];
      assert RelCanonicalAt(x + y, r);
    }
  }

  /** A canonical tag matches at the start of any text that begins with it,
      and the match is the tag itself. */
  lemma TagMatchesFirst(tag: string, y: string)
    requires IsCanonicalTag(tag)
    ensures CanonAt(tag + y) == Some(|tag|)
  {
    InPatternPrefix(tag, y, |tag|);
    CanonAtExact(tag + y, |tag|);
  }

  /** Once `x` holds a '>' past its "<link", a match at the start of `x + y`
      ends inside `x`, so what follows `x` does not matter. */
  lemma CanonAtLocal(x: string, y: string, y': string)
    requires FirstFrom(x, |LinkOpen|, '>').Some?
    ensures CanonAt(x + y) == CanonAt(x + y')
  {
    var g := FirstFrom(x, |LinkOpen|, '>').value;
    var a := CanonAt(x + y);
    var b := CanonAt(x + y');
    if a.Some? {
      CanonAtSound(x + y);
      assert (x + y)[g] == '>';
      InPatternPrefix(x, y, a.value);
      InPatternPrefix(x, y', a.value);
      CanonAtExact(x + y', a.value);
    }
    if b.Some? {
      CanonAtSound(x + y');
      assert (x + y')[g] == '>';
      InPatternPrefix(x, y', b.value);
      InPatternPrefix(x, y, b.value);
      CanonAtExact(x + y, b.value);
    }
  }

  /** A '>' is never one of the five characters that match "<link". */
  lemma NoCloseInLinkOpen(u: string, k: nat)
    requires MatchesAt(u, 0, LinkOpen)
    requires k < |LinkOpen|
    ensures u[k] != '>'
  {
    assert Fold(u[k]) == LinkOpen[k];
  }

  /** An unclosed "<link" in `x` followed by a text `v` that opens with a
      match: the match at the start of `x + v` runs through `x` into `v` and
      ends where the match of `v` ends. */
  lemma CanonAtExtend(x: string, v: string)
    requires MatchesAt(x + v, 0, LinkOpen)
    requires FirstFrom(x, |LinkOpen|, '>').None?
    requires CanonAt(v).Some?
    ensures CanonAt(x + v) == Some(|x| + CanonAt(v).value)
  {
    CanonAtSound(v);
    InPatternExtend(x, v, CanonAt(v).value);
    CanonAtExact(x + v, |x| + CanonAt(v).value);
  }

  lemma InPatternExtend(x: string, v: string, l: nat)
    requires MatchesAt(x + v, 0, LinkOpen)
    requires forall k :: |LinkOpen| <= k < |x| ==> x[k] != '>'
    requires InPattern(v, l)
    ensures InPattern(x + v, |x| + l)
  {
    var u := x + v;
    var r :| |LinkOpen| < r && r + RelLength <= l - 1 && RelCanonicalAt(v, r);
    RelCanonicalSuffix(x, v, r);
    forall k | |LinkOpen| <= k < |x| + l - 1
      ensures u[k] != '>'
    {
      if k >= |x| {
        if k - |x| < |LinkOpen| {
          NoCloseInLinkOpen(v, k - |x|);
        }
      }
    }
    assert u[|x| + l - 1] == v[l - 1];
    assert |LinkOpen| < |x| + r && |x| + r + RelLength <= |x| + l - 1 && RelCanonicalAt(u, |x| + r);
  }

  /** A "<link" cannot start inside a nonempty `x` shorter than itself and
      run on into `v` when `v` starts with '<' or a line break. */
  lemma NoLinkStraddle(x: string, v: string)
    requires 0 < |x| < |LinkOpen|
    requires v != [] && (v[0] == '<' || v[0] == '\n')
    ensures !MatchesAt(x + v, 0, LinkOpen)
  {
    assert (x + v)[|x|] == v[0];
    assert Fold(v[0]) != LinkOpen[|x|];
  }

  /** Where a text `x + v` has no match inside `x` and `v` opens with a
      match, replacing `v` by text starting with '<' or a line break creates
      no match inside `x` either. */
  lemma GapStaysClear(x: string, v: string, w: string, q: nat)
    requires q < |x|
    requires CanonAt((x + v)[q..]).None?
    requires CanonAt(v).Some?
    requires w != [] && (w[0] == '<' || w[0] == '\n')
    ensures CanonAt((x + w)[q..]).None?
  {
    var x' := x[q..];
    assert (x + v)[q..] == x' + v;
    assert (x + w)[q..] == x' + w;
    if |x'| < |LinkOpen| {
      NoLinkStraddle(x', w);
    } else if !MatchesAt(x', 0, LinkOpen) {
      MatchesAtPrefix(x', w, 0, LinkOpen);
    } else if FirstFrom(x', |LinkOpen|, '>').Some? {
      CanonAtLocal(x', v, w);
    } else {
      MatchesAtPrefix(x', v, 0, LinkOpen);
      CanonAtExtend(x', v);
      assert false;
    }
  }

  /** No match starts between `from` and the match `FindCanon` finds, nor
      anywhere from `from` on when it finds none. */
  lemma {:induction false} FindCanonLeftmost(s: string, from: nat, q: nat)
    requires from <= q <= |s|
    requires FindCanon(s, from).Some? ==> q < FindCanon(s, from).value.start
    ensures CanonAt(s[q..]).None?
    decreases |s| - from
  {
    if from + |LinkOpen| > |s| {
      assert !MatchesAt(s[q..], 0, LinkOpen);
    } else if from < q && CanonAt(s[from..]).None? {
      FindCanonLeftmost(s, from + 1, q);
    }
  }

  /** The leftmost match is recognised from its defining properties. */
  lemma {:induction false} FindCanonIs(s: string, from: nat, st: nat, n: nat)
    requires from <= st <= |s|
    requires CanonAt(s[st..]) == Some(n)
    requires forall q :: from <= q < st ==> CanonAt(s[q..]).None?
    ensures FindCanon(s, from) == Some(Span(st, st + n))
    decreases st - from
  {
    if from < st {
      assert CanonAt(s[from..]).None?;
      FindCanonIs(s, from + 1, st, n);
    }
  }

  /** A canonical tag begins with '<'. */
  lemma TagStartsWithBracket(tag: string)
    requires IsCanonicalTag(tag)
    ensures tag != [] && tag[0] == '<'
  {
    assert Fold(tag[0]) == LinkOpen[0];
    FoldFixesPunctuation(tag[0], '<');
  }

  // ---------------------------------------------------------------------
  // Replace-all.

  /** Every text of `ts` is `tag`. */
  predicate AllAre(ts: seq<string>, tag: string)
  {
    forall i :: 0 <= i < |ts| ==> ts[i] == tag
  }

  lemma AllAreCons(tag: string, ts: seq<string>)
    requires AllAre(ts, tag)
    ensures AllAre([tag] + ts, tag)
  {
  }

  lemma SubstituteStep(s: string, tag: string, sp: Span)
    requires FindCanon(s, 0) == Some(sp)
    ensures Substitute(s, tag) == s[..sp.start] + tag + Substitute(s[sp.end..], tag)
  {
  }

  lemma MatchTextsStep(s: string, sp: Span)
    requires FindCanon(s, 0) == Some(sp)
    ensures MatchTexts(s) == [s[sp.start..sp.end]] + MatchTexts(s[sp.end..])
  {
  }

  lemma MatchTextsTagged(t: string, sp: Span, tag: string, rest: string)
    requires FindCanon(t, 0) == Some(sp)
    requires t[sp.start..sp.end] == tag
    requires t[sp.end..] == rest
    ensures MatchTexts(t) == [tag] + MatchTexts(rest)
  {
    MatchTextsStep(t, sp);
  }

  lemma ConcatSlices(x: string, tag: string, rest: string)
    ensures (x + (tag + rest))[|x|..|x| + |tag|] == tag
    ensures (x + (tag + rest))[|x| + |tag|..] == rest
  {
  }

  lemma SubstituteSplit(s: string, tag: string, sp: Span)
    requires FindCanon(s, 0) == Some(sp)
    ensures Substitute(s, tag) == s[..sp.start] + (tag + Substitute(s[sp.end..], tag))
  {
    SubstituteStep(s, tag, sp);
  }

  /** Before the first match there is none, and the text from the first
      match on opens with it. */
  lemma FirstMatchGap(s: string, sp: Span)
    requires FindCanon(s, 0) == Some(sp)
    ensures forall q :: 0 <= q < sp.start ==> CanonAt((s[..sp.start] + s[sp.start..])[q..]).None?
    ensures CanonAt(s[sp.start..]).Some?
  {
    assert s[..sp.start] + s[sp.start..] == s;
    forall q | 0 <= q < sp.start
      ensures CanonAt(s[q..]).None?
    {
      FindCanonLeftmost(s, 0, q);
    }
  }

  /** The tag put in place of the first match is the first match of the
      new text. */
  lemma TagFirstAfterGap(x: string, v: string, tag: string, rest: string, t: string)
    requires IsCanonicalTag(tag)
    requires forall q :: 0 <= q < |x| ==> CanonAt((x + v)[q..]).None?
    requires CanonAt(v).Some?
    requires t == x + (tag + rest)
    ensures FindCanon(t, 0) == Some(Span(|x|, |x| + |tag|))
  {
    var w := tag + rest;
    TagStartsWithBracket(tag);
    forall q | 0 <= q < |x|
      ensures CanonAt(t[q..]).None?
    {
      GapStaysClear(x, v, w, q);
    }
    assert t[|x|..] == w;
    TagMatchesFirst(tag, rest);
    assert CanonAt(t[|x|..]) == Some(|tag|);
    FindCanonIs(t, 0, |x|, |tag|);
  }

  /** In the text where the tag has replaced the first match, the tag is
      the first match. */
  lemma TagReplacesFirst(s: string, sp: Span, tag: string, rest: string, t: string)
    requires IsCanonicalTag(tag)
    requires FindCanon(s, 0) == Some(sp)
    requires t == s[..sp.start] + (tag + rest)
    ensures FindCanon(t, 0) == Some(Span(sp.start, sp.start + |tag|))
  {
    FirstMatchGap(s, sp);
    assert |s[..sp.start]| == sp.start;
    TagFirstAfterGap(s[..sp.start], s[sp.start..], tag, rest, t);
  }

  /** One step of the replace-all: the first match of the result is the
      tag that replaced the first match of the original. */
  lemma SubstituteFirstMatch(s: string, tag: string, sp: Span)
    requires IsCanonicalTag(tag)
    requires FindCanon(s, 0) == Some(sp)
    ensures MatchTexts(Substitute(s, tag)) == [tag] + MatchTexts(Substitute(s[sp.end..], tag))
  {
    SubstituteSplit(s, tag, sp);
    TagInPlaceOfFirst(s, sp, tag, Substitute(s[sp.end..], tag), Substitute(s, tag));
  }

  /** The matches of a text in which the tag has replaced the first match
      of `s`: the tag, then those of what follows it. */
  lemma TagInPlaceOfFirst(s: string, sp: Span, tag: string, rest: string, t: string)
    requires IsCanonicalTag(tag)
    requires FindCanon(s, 0) == Some(sp)
    requires t == s[..sp.start] + (tag + rest)
    ensures MatchTexts(t) == [tag] + MatchTexts(rest)
  {
    TagReplacesFirst(s, sp, tag, rest, t);
    ConcatSlices(s[..sp.start], tag, rest);
    assert |s[..sp.start]| == sp.start;
    assert sp.start + |tag| <= |t|;
    var sp' := Span(sp.start, sp.start + |tag|);
    assert FindCanon(t, 0) == Some(sp');
    assert t[sp'.start..sp'.end] == tag;
    assert t[sp'.end..] == rest;
    MatchTextsTagged(t, sp', tag, rest);
  }

  /** After the substitution, the matches are exactly the inserted tags:
      as many as there were matches before, each of them the tag. */
  lemma {:induction false} SubstituteLeavesOnlyTags(s: string, tag: string)
    requires IsCanonicalTag(tag)
    ensures |MatchTexts(Substitute(s, tag))| == |MatchTexts(s)|
    ensures AllAre(MatchTexts(Substitute(s, tag)), tag)
    decreases |s|
  {
    var f := FindCanon(s, 0);
    if f.Some? {
      SubstituteFirstMatch(s, tag, f.value);
      MatchTextsStep(s, f.value);
      SubstituteLeavesOnlyTags(s[f.value.end..], tag);
      AllAreCons(tag, MatchTexts(Substitute(s[f.value.end..], tag)));
    }
  }

  lemma AllAreSplit(tag: string, t: string, ts: seq<string>)
    requires AllAre([t] + ts, tag)
    ensures t == tag && AllAre(ts, tag)
  {
    assert ([t] + ts)[0] == t;
    assert forall i :: 0 <= i < |ts| ==> ([t] + ts)[i + 1] == ts[i];
  }

  lemma Reassemble(s: string, i: nat, j: nat)
    requires i <= j <= |s|
    ensures s[..i] + (s[i..j] + s[j..]) == s
  {
  }

  /** A text whose every match already is the tag is left as it is. */
  lemma {:induction false} SubstituteFixesTags(s: string, tag: string)
    requires AllAre(MatchTexts(s), tag)
    ensures Substitute(s, tag) == s
    decreases |s|
  {
    var f := FindCanon(s, 0);
    if f.Some? {
      var sp := f.value;
      MatchTextsStep(s, sp);
      AllAreSplit(tag, s[sp.start..sp.end], MatchTexts(s[sp.end..]));
      SubstituteFixesTags(s[sp.end..], tag);
      SubstituteSplit(s, tag, sp);
      Reassemble(s, sp.start, sp.end);
    }
  }

  /** Replacing every canonical tag by the same canonical tag twice gives
      what replacing once gives. */
  lemma SubstituteIdempotent(s: string, tag: string)
    requires IsCanonicalTag(tag)
    ensures Substitute(Substitute(s, tag), tag) == Substitute(s, tag)
  {
    SubstituteLeavesOnlyTags(s, tag);
    SubstituteFixesTags(Substitute(s, tag), tag);
  }

  // ---------------------------------------------------------------------
  // What the replace-all keeps.

  lemma GapsStep(s: string, sp: Span)
    requires FindCanon(s, 0) == Some(sp)
    ensures Gaps(s) == [s[..sp.start]] + Gaps(s[sp.end..])
  {
  }

  /** A text is its gaps with its matches between them. */
  lemma {:induction false} GapsAndMatchesRebuild(s: string)
    ensures |Gaps(s)| == |MatchTexts(s)| + 1
    ensures Interleave(Gaps(s), MatchTexts(s)) == s
    decreases |s|
  {
    var f := FindCanon(s, 0);
    if f.Some? {
      var sp := f.value;
      GapsStep(s, sp);
      MatchTextsStep(s, sp);
      GapsAndMatchesRebuild(s[sp.end..]);
      var gs, ms := Gaps(s), MatchTexts(s);
      assert gs[0] == s[..sp.start] && gs[1..] == Gaps(s[sp.end..]);
      assert ms[0] == s[sp.start..sp.end] && ms[1..] == MatchTexts(s[sp.end..]);
      Reassemble(s, sp.start, sp.end);
    }
  }

  /** `re.sub` with any replacement text, canonical tag or not: the gaps of
      `s`, with `tag` in place of each of its matches. */
  lemma {:induction false} SubstituteIsInterleave(s: string, tag: string)
    ensures |Gaps(s)| == |MatchTexts(s)| + 1
    ensures Substitute(s, tag) == Interleave(Gaps(s), Repeat(tag, |MatchTexts(s)|))
    decreases |s|
  {
    GapsAndMatchesRebuild(s);
    var f := FindCanon(s, 0);
    if f.Some? {
      var sp := f.value;
      var rest := s[sp.end..];
      SubstituteSplit(s, tag, sp);
      GapsStep(s, sp);
      MatchTextsStep(s, sp);
      SubstituteIsInterleave(rest, tag);
      var gs, rs := Gaps(s), Repeat(tag, |MatchTexts(s)|);
      assert gs[0] == s[..sp.start] && gs[1..] == Gaps(rest);
      assert rs[0] == tag && rs[1..] == Repeat(tag, |MatchTexts(rest)|);
    }
  }

  /** In the text where the tag has replaced the first match of `s`, the
      first gap is that of `s` and the others are those of `rest`. */
  lemma GapsInPlaceOfFirst(s: string, sp: Span, tag: string, rest: string, t: string)
    requires IsCanonicalTag(tag)
    requires FindCanon(s, 0) == Some(sp)
    requires t == s[..sp.start] + (tag + rest)
    ensures Gaps(t) == [s[..sp.start]] + Gaps(rest)
  {
    TagReplacesFirst(s, sp, tag, rest, t);
    ConcatSlices(s[..sp.start], tag, rest);
    assert |s[..sp.start]| == sp.start;
    var sp' := Span(sp.start, sp.start + |tag|);
    assert FindCanon(t, 0) == Some(sp');
    assert t[..sp'.start] == s[..sp.start];
    assert t[sp'.end..] == rest;
    GapsStep(t, sp');
  }

  /** The replace-all keeps the text before, between and after the matches
      exactly as it was. */
  lemma {:induction false} SubstituteKeepsGaps(s: string, tag: string)
    requires IsCanonicalTag(tag)
    ensures Gaps(Substitute(s, tag)) == Gaps(s)
    decreases |s|
  {
    var f := FindCanon(s, 0);
    if f.Some? {
      var sp := f.value;
      SubstituteSplit(s, tag, sp);
      GapsInPlaceOfFirst(s, sp, tag, Substitute(s[sp.end..], tag), Substitute(s, tag));
      SubstituteKeepsGaps(s[sp.end..], tag);
      GapsStep(s, sp);
    }
  }

  // ---------------------------------------------------------------------
  // Appending a tag to a text that has no match.

  /** Every "<link" of `s` is closed by a later '>'. */
  predicate NoDanglingLink(s: string)
  {
    forall q :: 0 <= q < |s| && MatchesAt(s, q, LinkOpen) ==> FirstFrom(s, q + |LinkOpen|, '>').Some?
  }

  /** No match starts at index `q` of `s + w` (`q` inside `s`) when `s` has
      no match and no unclosed "<link", and `w` starts with a line break. */
  lemma NoMatchBeforeAppended(s: string, w: string, q: nat)
    requires FindCanon(s, 0).None?
    requires NoDanglingLink(s)
    requires w != [] && w[0] == '\n'
    requires q < |s|
    ensures CanonAt((s + w)[q..]).None?
  {
    FindCanonLeftmost(s, 0, q);
    LinkClosedAt(s, q);
    DropConcat(s, w, q);
    NoMatchAppended(s[q..], w);
  }

  /** In a text with no unclosed "<link", the suffix from `q` has none at
      its start either. */
  lemma LinkClosedAt(s: string, q: nat)
    requires NoDanglingLink(s)
    requires q < |s|
    ensures MatchesAt(s[q..], 0, LinkOpen) ==> FirstFrom(s[q..], |LinkOpen|, '>').Some?
  {
    MatchesAtDrop(s, q, 0, LinkOpen);
    FirstFromDrop(s, q, |LinkOpen|, '>');
  }

  /** The same, for the match at the start of one suffix `x` of `s`. */
  lemma NoMatchAppended(x: string, w: string)
    requires x != []
    requires CanonAt(x).None?
    requires MatchesAt(x, 0, LinkOpen) ==> FirstFrom(x, |LinkOpen|, '>').Some?
    requires w != [] && w[0] == '\n'
    ensures CanonAt(x + w).None?
  {
    if |x| < |LinkOpen| {
      NoLinkStraddle(x, w);
    } else if !MatchesAt(x, 0, LinkOpen) {
      MatchesAtPrefix(x, w, 0, LinkOpen);
    } else {
      CanonAtLocal(x, w, []);
      assert x + [] == x;
    }
  }

  /** No match starts at a character other than '<'. */
  lemma NoMatchWithoutBracket(u: string)
    requires u != [] && u[0] != '<'
    ensures CanonAt(u).None?
  {
    FoldFixesPunctuation(u[0], '<');
    assert Fold(u[0]) != LinkOpen[0];
  }

  /** No match starts before the appended tag. */
  lemma NoMatchBeforeTag(s: string, pad: string, rest: string, q: nat)
    requires FindCanon(s, 0).None?
    requires NoDanglingLink(s)
    requires pad != [] && pad[0] == '\n'
    requires forall i :: 0 <= i < |pad| ==> pad[i] != '<'
    requires q < |s| + |pad|
    ensures CanonAt((s + (pad + rest))[q..]).None?
  {
    var t := s + (pad + rest);
    if q < |s| {
      NoMatchBeforeAppended(s, pad + rest, q);
    } else {
      assert t[q..][0] == pad[q - |s|];
      NoMatchWithoutBracket(t[q..]);
    }
  }

  /** The text of the matches of `s + (pad + (tag + tail))`, where `s` has
      no match and no unclosed "<link", `pad` starts with a line break and
      holds no '<', and `tail` has no match: the appended tag alone. */
  lemma AppendedTagIsOnlyMatch(s: string, pad: string, tag: string, tail: string)
    requires FindCanon(s, 0).None?
    requires NoDanglingLink(s)
    requires pad != [] && pad[0] == '\n'
    requires forall i :: 0 <= i < |pad| ==> pad[i] != '<'
    requires IsCanonicalTag(tag)
    requires FindCanon(tail, 0).None?
    ensures MatchTexts(s + (pad + (tag + tail))) == [tag]
  {
    var t := s + (pad + (tag + tail));
    var sp := AppendedTagFirst(s, pad, tag, tail, t);
    OnlyMatch(t, sp, tag, tail);
  }

  /** A text whose leftmost match is `tag`, followed by a text without a
      match, has `tag` as its only match. */
  lemma OnlyMatch(t: string, sp: Span, tag: string, tail: string)
    requires FindCanon(t, 0) == Some(sp)
    requires t[sp.start..sp.end] == tag
    requires t[sp.end..] == tail
    requires FindCanon(tail, 0).None?
    ensures MatchTexts(t) == [tag]
  {
    MatchTextsTagged(t, sp, tag, tail);
  }

  /** Under the same conditions, the appended tag is the leftmost match. */
  lemma AppendedTagFirst(s: string, pad: string, tag: string, tail: string, t: string) returns (sp: Span)
    requires t == s + (pad + (tag + tail))
    requires FindCanon(s, 0).None?
    requires NoDanglingLink(s)
    requires pad != [] && pad[0] == '\n'
    requires forall i :: 0 <= i < |pad| ==> pad[i] != '<'
    requires IsCanonicalTag(tag)
    ensures sp == Span(|s| + |pad|, |s| + |pad| + |tag|)
    ensures FindCanon(t, 0) == Some(sp)
    ensures sp.end <= |t| && t[sp.start..sp.end] == tag && t[sp.end..] == tail
  {
    var st := |s| + |pad|;
    sp := Span(st, st + |tag|);
    forall q | 0 <= q < st
      ensures CanonAt(t[q..]).None?
    {
      NoMatchBeforeTag(s, pad, tag + tail, q);
    }
    TagAtOffset(s + pad, tag, tail, t);
    TagMatchesFirst(tag, tail);
    assert CanonAt(t[st..]) == Some(|tag|);
    FindCanonIs(t, 0, st, |tag|);
  }

  lemma TagAtOffset(x: string, tag: string, tail: string, t: string)
    requires t == x + (tag + tail)
    ensures t[|x|..] == tag + tail
    ensures t[|x|..|x| + |tag|] == tag
    ensures t[|x| + |tag|..] == tail
  {
  }

  /** An unclosed "<link" of `s` opens a match that runs on into the
      appended tag. */
  lemma DanglingLinkMatches(s: string, pad: string, tag: string, tail: string, q: nat)
    requires q < |s| && MatchesAt(s, q, LinkOpen)
    requires FirstFrom(s, q + |LinkOpen|, '>').None?
    requires forall i :: 0 <= i < |pad| ==> pad[i] != '>'
    requires IsCanonicalTag(tag)
    ensures CanonAt((s + (pad + (tag + tail)))[q..]).Some?
  {
    var x := s[q..] + pad;
    var v := tag + tail;
    DropConcat(s, pad + v, q);
    assert s[q..] + (pad + v) == x + v;
    MatchesAtDrop(s, q, 0, LinkOpen);
    MatchesAtPrefix(s[q..], pad + v, 0, LinkOpen);
    FirstFromDrop(s, q, |LinkOpen|, '>');
    assert forall k :: |LinkOpen| <= k < |x| ==> x[k] != '>';
    TagMatchesFirst(tag, tail);
    CanonAtExtend(x, v);
  }

  /** A match that runs on past `s` cannot end before the appended tag
      does. */
  lemma DanglingMatchNotShort(s: string, pad: string, tag: string, tail: string, t: string, st: nat)
    requires t == s + (pad + (tag + tail))
    requires st < |s|
    requires CanonAt(t[st..]).Some?
    requires st + CanonAt(t[st..]).value > |s|
    requires forall i :: 0 <= i < |pad| ==> pad[i] != '>'
    requires IsCanonicalTag(tag)
    ensures st + CanonAt(t[st..]).value >= |s| + |pad| + |tag|
  {
    var l := CanonAt(t[st..]).value;
    var i := st + l - 1;
    CanonAtSound(t[st..]);
    assert t[i] == '>' by {
      assert t[st..][l - 1] == t[i];
    }
    assert i >= |s| + |pad|;
    assert i >= |s| + |pad| + |tag| - 1 by {
      if i < |s| + |pad| + |tag| - 1 {
        CloseOnlyAtTagEnd(s + pad, tag, tail, t, i - |s| - |pad|);
      }
    }
  }

  /** A match that ends inside `s` would be a match of `s`. */
  lemma MatchEndsInside(s: string, w: string, t: string, st: nat)
    requires t == s + w
    requires FindCanon(s, 0).None?
    requires st < |s|
    requires CanonAt(t[st..]).Some?
    ensures st + CanonAt(t[st..]).value > |s|
  {
    var l := CanonAt(t[st..]).value;
    DropConcat(s, w, st);
    FindCanonLeftmost(s, 0, st);
    if st + l <= |s| {
      CanonAtSound(t[st..]);
      InPatternPrefix(s[st..], w, l);
      CanonAtExact(s[st..], l);
    }
  }

  /** Inside `x + (tag + tail)`, the characters of the tag before its last are
      not '>' . */
  lemma CloseOnlyAtTagEnd(x: string, tag: string, tail: string, t: string, j: nat)
    requires t == x + (tag + tail)
    requires IsCanonicalTag(tag)
    requires j < |tag| - 1
    ensures t[|x| + j] != '>'
  {
    assert t[|x| + j] == tag[j];
    if j < |LinkOpen| {
      NoCloseInLinkOpen(tag, j);
    }
  }

  /** A match that starts inside `s` cannot run past the appended tag, whose
      last character is '>'. */
  lemma DanglingMatchNotLong(s: string, pad: string, tag: string, tail: string, t: string, st: nat)
    requires t == s + (pad + (tag + tail))
    requires st < |s|
    requires CanonAt(t[st..]).Some?
    requires IsCanonicalTag(tag)
    ensures st + CanonAt(t[st..]).value <= |s| + |pad| + |tag|
  {
    var e := |s| + |pad| + |tag| - 1;
    CanonAtSound(t[st..]);
    assert t[e] == tag[|tag| - 1];
    assert t[st..][e - st] == t[e];
  }

  /** Appending the tag to a text with no match but an unclosed "<link"
      does not leave a text that the replace-all keeps: the first match of
      the result starts at that "<link" or before and swallows the
      appended tag, so replacing it shortens the text. */
  lemma AppendedTagAfterDanglingLink(s: string, pad: string, tag: string, tail: string)
    requires FindCanon(s, 0).None?
    requires !NoDanglingLink(s)
    requires forall i :: 0 <= i < |pad| ==> pad[i] != '>'
    requires IsCanonicalTag(tag)
    requires FindCanon(tail, 0).None?
    ensures |Substitute(s + (pad + (tag + tail)), tag)| < |s + (pad + (tag + tail))|
  {
    var t := s + (pad + (tag + tail));
    DanglingFirstMatch(s, pad, tag, tail, t);
    TagAtOffset(s + pad, tag, tail, t);
    ReplaceShortens(t, tag, FindCanon(t, 0).value, tail);
  }

  /** Replacing a first match longer than the tag, after which no match
      follows, shortens the text. */
  lemma ReplaceShortens(t: string, tag: string, sp: Span, tail: string)
    requires FindCanon(t, 0) == Some(sp)
    requires t[sp.end..] == tail
    requires FindCanon(tail, 0).None?
    requires sp.start + |tag| < sp.end
    ensures |Substitute(t, tag)| < |t|
  {
    SubstituteSplit(t, tag, sp);
    assert Substitute(tail, tag) == tail;
  }

  /** The first match of `s + (pad + (tag + tail))` starts inside `s` and
      ends with the tag. */
  lemma DanglingFirstMatch(s: string, pad: string, tag: string, tail: string, t: string)
    requires t == s + (pad + (tag + tail))
    requires FindCanon(s, 0).None?
    requires !NoDanglingLink(s)
    requires forall i :: 0 <= i < |pad| ==> pad[i] != '>'
    requires IsCanonicalTag(tag)
    ensures FindCanon(t, 0).Some?
    ensures FindCanon(t, 0).value.start < |s|
    ensures FindCanon(t, 0).value.end == |s| + |pad| + |tag|
  {
    var q :| 0 <= q < |s| && MatchesAt(s, q, LinkOpen) && FirstFrom(s, q + |LinkOpen|, '>').None?;
    DanglingLinkMatches(s, pad, tag, tail, q);
    var r := FindCanon(t, 0);
    if r.None? || q < r.value.start {
      FindCanonLeftmost(t, 0, q);
    }
    var sp := r.value;
    MatchEndsInside(s, pad + (tag + tail), t, sp.start);
    DanglingMatchNotShort(s, pad, tag, tail, t, sp.start);
    DanglingMatchNotLong(s, pad, tag, tail, t, sp.start);
  }
}
