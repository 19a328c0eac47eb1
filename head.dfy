/** The head section of a page: the match of
    `(<head[^>]*>)(.*?)(</head>)` under `re.IGNORECASE | re.DOTALL`, found by
    `re.search`, and the splice that puts new inner text between its
    markers. The pattern is written out by hand: "<head" starts group 1,
    which ends at the first '>' after it (so "<header ...>" opens it too);
    group 2 is the shortest text up to the first "</head>" after that. */
module HeadSection {
  import opened Text

  const HeadOpen := "<head"
  const HeadClose := "</head>"

  /** A match starting at `start`; group 2 runs from `innerStart` (just
      after the '>' ending group 1) to `innerEnd`, where "</head>" begins. */
  datatype HeadMatch = HeadMatch(start: nat, innerStart: nat, innerEnd: nat)

  /** `m` splits `s[m.start..m.innerEnd + 7]` into the three groups of the
      pattern: group 1 is "<head", then characters other than '>', then '>';
      group 3 is "</head>"; both case-insensitive. */
  predicate Groups(s: string, m: HeadMatch)
  {
    && MatchesAt(s, m.start, HeadOpen)
    && m.start + |HeadOpen| < m.innerStart <= m.innerEnd
    && MatchesAt(s, m.innerEnd, HeadClose)
    && s[m.innerStart - 1] == '>'
    && (forall k :: m.start + |HeadOpen| <= k < m.innerStart - 1 ==> s[k] != '>')
  }

  /** The match the regular expression engine reports when it tries index
      `q`: group 1 has no choice, and the lazy group 2 is the shortest. */
  function HeadAt(s: string, q: nat): (r: Option<HeadMatch>)
    ensures r.Some? ==> r.value.start == q && Groups(s, r.value)
  {
    if !MatchesAt(s, q, HeadOpen) then None
    else match FirstFrom(s, q + |HeadOpen|, '>')
      case None => None
      case Some(g) =>
        match FindFrom(s, g + 1, HeadClose)
        case None => None
        case Some(c) => Some(HeadMatch(q, g + 1, c))
  }

  /** `head_section_re.search(s)` started at index `from`: the match at the
      smallest index where there is one. */
  function SearchHead(s: string, from: nat): (r: Option<HeadMatch>)
    ensures r.Some? ==> from <= r.value.start && HeadAt(s, r.value.start) == r
    decreases |s| - from
  {
    if from + |HeadOpen| > |s| then None
    else match HeadAt(s, from)
      case Some(m) => Some(m)
      case None => SearchHead(s, from + 1)
  }

  /** Whenever the groups can be laid out from `q`, the engine reports a
      match there, with the same group 1 and the shortest group 2. */
  lemma HeadAtShortest(s: string, m: HeadMatch)
    requires Groups(s, m)
    ensures HeadAt(s, m.start).Some?
    ensures HeadAt(s, m.start).value.innerStart == m.innerStart
    ensures HeadAt(s, m.start).value.innerEnd <= m.innerEnd
  {
    assert s[m.innerStart - 1] == '>';
  }

  /** The search reports the leftmost match: no index between `from` and
      the reported start (or at all, when there is none) has a match. */
  lemma {:induction false} SearchHeadLeftmost(s: string, from: nat, q: nat)
    requires from <= q
    requires SearchHead(s, from).Some? ==> q < SearchHead(s, from).value.start
    ensures HeadAt(s, q).None?
    decreases |s| - from
  {
    if from + |HeadOpen| > |s| {
      assert !MatchesAt(s, q, HeadOpen);
    } else if HeadAt(s, from).None? && from < q {
      SearchHeadLeftmost(s, from + 1, q);
    }
  }

  /** A match at `m.start` with none before it is the one the search
      reports. */
  lemma SearchHeadFinds(s: string, from: nat, m: HeadMatch)
    requires from <= m.start
    requires HeadAt(s, m.start) == Some(m)
    requires forall q :: from <= q < m.start ==> HeadAt(s, q).None?
    ensures SearchHead(s, from) == Some(m)
  {
    var r := SearchHead(s, from);
    if r.None? || m.start < r.value.start {
      SearchHeadLeftmost(s, from, m.start);
    }
  }

  /** The text with `inner` in place of the head section's group 2: the
      `text[:m.start(2)] + new_head_content + text[m.end(2):]` splice. */
  function Splice(s: string, m: HeadMatch, inner: string): string
    requires m.innerStart <= m.innerEnd <= |s|
  {
    s[..m.innerStart] + inner + s[m.innerEnd..]
  }

  /** No "</head>" (in any case) anywhere in `s`. */
  ghost predicate CloseFree(s: string)
  {
    forall k :: !MatchesAt(s, k, HeadClose)
  }

  // ---------------------------------------------------------------------

  /** A match at the leftmost index begins at the first "<head" of the
      text: an earlier "<head" would see the same '>' and the same
      "</head>" and match first. */
  lemma NoOpenBeforeMatch(s: string, m: HeadMatch, q: nat)
    requires SearchHead(s, 0) == Some(m)
    requires q < m.start
    ensures !MatchesAt(s, q, HeadOpen)
  {
    SearchHeadLeftmost(s, 0, q);
    assert s[m.innerStart - 1] == '>';
  }

  /** A "</head>" cannot start inside `x` and run on into `y` when `y`
      starts with '<' or a line break: '<' occurs in "</head>" only at its
      start, and a line break not at all. */
  lemma CloseFreeBeforeOpenBracket(x: string, y: string, k: nat)
    requires CloseFree(x)
    requires y != [] && (y[0] == '<' || y[0] == '\n')
    requires k < |x|
    ensures !MatchesAt(x + y, k, HeadClose)
  {
    if k + |HeadClose| <= |x| {
      MatchesAtPrefix(x, y, k, HeadClose);
      assert !MatchesAt(x, k, HeadClose);
    } else if k + |HeadClose| <= |x + y| {
      var j := |x| - k;
      assert (x + y)[k + j] == y[0];
      assert Fold(y[0]) != HeadClose[j];
    }
  }

  /** Two texts without "</head>" joined before a '<' or a line break. */
  lemma CloseFreeJoinOpen(x: string, y: string)
    requires CloseFree(x) && CloseFree(y)
    requires y != [] && (y[0] == '<' || y[0] == '\n')
    ensures CloseFree(x + y)
  {
    forall k: nat
      ensures !MatchesAt(x + y, k, HeadClose)
    {
      if k < |x| {
        CloseFreeBeforeOpenBracket(x, y, k);
      } else {
        MatchesAtSuffix(x, y, k - |x|, HeadClose);
      }
    }
  }

  /** Two texts without "</head>" joined after a '>': in "</head>" a '>'
      comes only last. */
  lemma CloseFreeJoinClose(x: string, y: string)
    requires CloseFree(x) && CloseFree(y)
    requires x != [] && x[|x| - 1] == '>'
    ensures CloseFree(x + y)
  {
    forall k: nat
      ensures !MatchesAt(x + y, k, HeadClose)
    {
      if k + |HeadClose| <= |x| {
        MatchesAtPrefix(x, y, k, HeadClose);
      } else if k < |x| {
        if k + |HeadClose| <= |x + y| {
          var j := |x| - 1 - k;
          assert (x + y)[k + j] == '>';
          assert Fold('>') != HeadClose[j];
        }
      } else {
        MatchesAtSuffix(x, y, k - |x|, HeadClose);
      }
    }
  }

  /** A piece of a text without "</head>" has none either. */
  lemma CloseFreeSlice(s: string, i: nat, j: nat)
    requires CloseFree(s)
    requires i <= j <= |s|
    ensures CloseFree(s[i..j])
  {
    forall k: nat
      ensures !MatchesAt(s[i..j], k, HeadClose)
    {
      if k + |HeadClose| <= j - i {
        assert s[i..] == s[i..j] + s[j..];
        MatchesAtPrefix(s[i..j], s[j..], k, HeadClose);
        MatchesAtDrop(s, i, k, HeadClose);
      }
    }
  }

  /** Group 2 of the match holds no "</head>": the lazy `.*?` stops at the
      first one. */
  lemma InnerCloseFree(s: string, m: HeadMatch)
    requires SearchHead(s, 0) == Some(m)
    ensures m.innerStart <= m.innerEnd <= |s|
    ensures CloseFree(s[m.innerStart..m.innerEnd])
  {
    assert Groups(s, m);
    var inner := s[m.innerStart..m.innerEnd];
    forall k: nat
      ensures !MatchesAt(inner, k, HeadClose)
    {
      InnerHasNoCloseAt(s, m, k);
    }
  }

  lemma InnerHasNoCloseAt(s: string, m: HeadMatch, k: nat)
    requires HeadAt(s, m.start) == Some(m)
    ensures m.innerStart <= m.innerEnd <= |s|
    ensures !MatchesAt(s[m.innerStart..m.innerEnd], k, HeadClose)
  {
    var inner := s[m.innerStart..m.innerEnd];
    if k + |HeadClose| <= |inner| {
      assert inner[k..k + |HeadClose|] == s[m.innerStart + k..m.innerStart + k + |HeadClose|];
      MatchesAtAgree(inner, s, k, m.innerStart + k, HeadClose);
    }
  }

  /** Splicing inner text that holds no "</head>" back into the head
      section leaves the section where it was: the same opening at the same
      index, the same group 1, and group 2 exactly the new inner text. */
  lemma SpliceKeepsHead(s: string, m: HeadMatch, inner: string)
    requires SearchHead(s, 0) == Some(m)
    requires CloseFree(inner)
    ensures m.innerStart <= m.innerEnd <= |s|
    ensures SearchHead(Splice(s, m, inner), 0) ==
            Some(HeadMatch(m.start, m.innerStart, m.innerStart + |inner|))
  {
    var t := Splice(s, m, inner);
    forall q: nat | q < m.start
      ensures HeadAt(t, q).None?
    {
      NoOpenBeforeMatch(s, m, q);
      SpliceNoHeadBefore(s, m, inner, q);
    }
    assert Groups(s, m);
    SpliceHeadAt(s, m, inner);
    SearchHeadFinds(t, 0, HeadMatch(m.start, m.innerStart, m.innerStart + |inner|));
  }

  lemma SpliceNoHeadBefore(s: string, m: HeadMatch, inner: string, q: nat)
    requires m.innerStart <= m.innerEnd <= |s|
    requires q + |HeadOpen| <= m.innerStart
    requires !MatchesAt(s, q, HeadOpen)
    ensures HeadAt(Splice(s, m, inner), q).None?
  {
    var pre := s[..m.innerStart];
    assert s == pre + s[m.innerStart..];
    MatchesAtPrefix(pre, s[m.innerStart..], q, HeadOpen);
    MatchesAtPrefix(pre, inner + s[m.innerEnd..], q, HeadOpen);
    assert Splice(s, m, inner) == pre + (inner + s[m.innerEnd..]);
  }

  lemma SpliceGroups(s: string, m: HeadMatch, inner: string)
    requires Groups(s, m)
    ensures m.innerStart <= m.innerEnd <= |s|
    ensures Groups(Splice(s, m, inner), HeadMatch(m.start, m.innerStart, m.innerStart + |inner|))
  {
    var t := Splice(s, m, inner);
    var m' := HeadMatch(m.start, m.innerStart, m.innerStart + |inner|);
    assert t[m.start..m.start + |HeadOpen|] == s[m.start..m.start + |HeadOpen|];
    MatchesAtAgree(t, s, m.start, m.start, HeadOpen);
    assert t[m'.innerEnd..m'.innerEnd + |HeadClose|] == s[m.innerEnd..m.innerEnd + |HeadClose|];
    MatchesAtAgree(t, s, m'.innerEnd, m.innerEnd, HeadClose);
    assert forall k :: m.start + |HeadOpen| <= k < m.innerStart ==> t[k] == s[k];
  }

  lemma SpliceHeadAt(s: string, m: HeadMatch, inner: string)
    requires Groups(s, m)
    requires CloseFree(inner)
    ensures m.innerStart <= m.innerEnd <= |s|
    ensures HeadAt(Splice(s, m, inner), m.start) == Some(HeadMatch(m.start, m.innerStart, m.innerStart + |inner|))
  {
    var t := Splice(s, m, inner);
    var rest := s[m.innerEnd..];
    var m' := HeadMatch(m.start, m.innerStart, m.innerStart + |inner|);
    SpliceGroups(s, m, inner);
    HeadAtShortest(t, m');
    var r := HeadAt(t, m.start);
    assert r.Some? && r.value.innerStart == m.innerStart && r.value.innerEnd <= m'.innerEnd;
    if r.value.innerEnd < m'.innerEnd {
      var k := r.value.innerEnd - m.innerStart;
      assert rest[0] == '<' by {
        assert Fold(rest[0]) == HeadClose[0];
      }
      CloseFreeBeforeOpenBracket(inner, rest, k);
      assert false;
    }
  }
}
