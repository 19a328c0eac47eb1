/** What `process_file` does to the text of one page: find the head
    section, build the new canonical tag, replace every existing canonical
    tag in the head section by it (UPDATE) or append it on a line of its own
    at the end of the head section (ADD), and splice the result back. */
module Upsert {
  import opened Text
  import opened HeadSection
  import opened CanonicalTag

  /** The text of the new tag before and after the URL. */
  const TagOpen := "<link rel=\"canonical\" href=\""
  const TagClose := "\" />"

  /** What the ADD branch puts before and after the tag. */
  const Indent := "\n    "
  const LineEnd := "\n"

  /** `new_tag`: the canonical link tag for `url`. */
  function NewTag(url: string): (tag: string)
    ensures |tag| == |TagOpen| + |url| + |TagClose|
    ensures tag[..|TagOpen|] == TagOpen
    ensures tag[|TagOpen|..|TagOpen| + |url|] == url
    ensures tag[|TagOpen| + |url|..] == TagClose
  {
    TagOpen + url + TagClose
  }

  /** A URL that cannot end the tag early: it holds no '>'. */
  predicate SafeUrl(url: string)
  {
    forall i :: 0 <= i < |url| ==> url[i] != '>'
  }

  /** The new head content: every canonical tag replaced by `tag` when the
      old content has one, otherwise the old content with `tag` appended on
      an indented line. */
  function NewHeadContent(inner: string, tag: string): string
  {
    if FindCanon(inner, 0).Some? then Substitute(inner, tag)
    else inner + (Indent + (tag + LineEnd))
  }

  /** Group 2 of a head match. */
  function HeadContent(text: string, m: HeadMatch): string
    requires m.innerStart <= m.innerEnd <= |text|
  {
    text[m.innerStart..m.innerEnd]
  }

  /** What `process_file` decides for a page: no head section (it returns
      False and writes nothing), or the new text and whether an existing tag
      was updated (UPDATE) rather than a new one added (ADD). */
  datatype Outcome = Skipped | Rewritten(text: string, updated: bool)

  /** The text transformation of `process_file` for a page whose canonical
      URL is `url`. */
  function ProcessText(text: string, url: string): (r: Outcome)
    ensures r.Skipped? <==> SearchHead(text, 0).None?
    ensures r.Rewritten? ==>
              var m := SearchHead(text, 0).value;
              && m.innerStart <= m.innerEnd <= |text|
              && (r.updated <==> FindCanon(HeadContent(text, m), 0).Some?)
              && var next := NewHeadContent(HeadContent(text, m), NewTag(url));
                 && |r.text| == m.innerStart + |next| + (|text| - m.innerEnd)
                 && r.text[..m.innerStart] == text[..m.innerStart]
                 && r.text[m.innerStart..m.innerStart + |next|] == next
                 && r.text[m.innerStart + |next|..] == text[m.innerEnd..]
  {
    match SearchHead(text, 0)
    case None => Skipped
    case Some(m) =>
      assert Groups(text, m);
      var inner := HeadContent(text, m);
      var newText := Splice(text, m, NewHeadContent(inner, NewTag(url)));
      Rewritten(newText, FindCanon(inner, 0).Some?)
  }

  // ---------------------------------------------------------------------
  // The new tag.

  lemma NewTagChar(url: string, k: nat)
    requires k < |NewTag(url)|
    ensures k < |TagOpen| ==> NewTag(url)[k] == TagOpen[k]
    ensures |TagOpen| <= k < |TagOpen| + |url| ==> NewTag(url)[k] == url[k - |TagOpen|]
    ensures |TagOpen| + |url| <= k ==> NewTag(url)[k] == TagClose[k - |TagOpen| - |url|]
  {
  }

  /** The new tag is one canonical link tag of its own, whatever follows it,
      as long as the URL holds no '>'. */
  lemma NewTagIsCanonical(url: string)
    requires forall i :: 0 <= i < |url| ==> url[i] != '>'
    ensures IsCanonicalTag(NewTag(url))
  {
    var tag := NewTag(url);
    TagOpenStarts(tag);
    forall k | |TagOpen| <= k < |tag| - 1
      ensures tag[k] != '>'
    {
      NewTagChar(url, k);
    }
    NewTagChar(url, |tag| - 1);
    assert RelCanonicalAt(tag, 6);
  }

  /** A text that opens with the fixed start of the new tag opens a
      canonical link tag: "<link", `rel="canonical"` at index 6, and no '>'
      before the URL. */
  lemma TagOpenStarts(tag: string)
    requires |TagOpen| <= |tag| && tag[..|TagOpen|] == TagOpen
    ensures MatchesAt(tag, 0, LinkOpen)
    ensures RelCanonicalAt(tag, 6)
    ensures forall k :: |LinkOpen| <= k < |TagOpen| ==> tag[k] != '>'
  {
    forall k | 0 <= k < |TagOpen|
      ensures tag[k] == TagOpen[k]
    {
      assert tag[..|TagOpen|][k] == tag[k];
    }
    forall k | 0 <= k < |LinkOpen|
      ensures Fold(tag[k]) == LinkOpen[k]
    {
    }
    forall k | 0 <= k < |RelAttr|
      ensures Fold(tag[6 + k]) == RelAttr[k]
    {
    }
    forall k | 0 <= k < |CanonicalWord|
      ensures Fold(tag[11 + k]) == CanonicalWord[k]
    {
    }
  }

  /** For a URL without '>', the only '>' of the new tag is its last
      character. */
  lemma NoGtBeforeEnd(url: string)
    requires SafeUrl(url)
    ensures forall e :: 0 <= e < |NewTag(url)| - 1 ==> NewTag(url)[e] != '>'
  {
    var tag := NewTag(url);
    TagOpenStarts(tag);
    forall e | 0 <= e < |tag| - 1
      ensures tag[e] != '>'
    {
      if e < |LinkOpen| {
        assert Fold(tag[e]) == LinkOpen[e];
        FoldFixesPunctuation(tag[e], '>');
      } else if e >= |TagOpen| {
        NewTagChar(url, e);
      }
    }
  }

  /** The new tag holds no "</head>" when the URL holds no '>': a "</head>"
      ends in '>', the tag's only '>' is its last character, and the one
      before it is '/', not 'd'. */
  lemma NewTagCloseFree(url: string)
    requires SafeUrl(url)
    ensures CloseFree(NewTag(url))
  {
    var tag := NewTag(url);
    NoGtBeforeEnd(url);
    forall k: nat
      ensures !MatchesAt(tag, k, HeadClose)
    {
      if k + |HeadClose| <= |tag| {
        var e := k + 6;
        FoldFixesPunctuation(tag[e], '>');
        if e == |tag| - 1 {
          NewTagChar(url, e - 1);
          assert tag[e - 1] == '/';
          assert Fold(tag[k + 5]) != HeadClose[5];
        } else {
          assert Fold(tag[k + 6]) != HeadClose[6];
        }
      }
    }
  }

  // ---------------------------------------------------------------------
  // The new head content holds no "</head>".

  /** Replacing canonical tags by a tag without "</head>" adds none. */
  lemma {:induction false} SubstituteCloseFree(s: string, tag: string)
    requires CloseFree(s) && CloseFree(tag)
    requires IsCanonicalTag(tag)
    ensures CloseFree(Substitute(s, tag))
    decreases |s|
  {
    var f := FindCanon(s, 0);
    if f.Some? {
      var sp := f.value;
      CloseFreeSlice(s, 0, sp.start);
      CloseFreeSlice(s, sp.end, |s|);
      assert s[0..sp.start] == s[..sp.start] && s[sp.end..|s|] == s[sp.end..];
      SubstituteCloseFree(s[sp.end..], tag);
      CloseFreeJoinClose(tag, Substitute(s[sp.end..], tag));
      TagStartsWithBracket(tag);
      CloseFreeJoinOpen(s[..sp.start], tag + Substitute(s[sp.end..], tag));
      SubstituteSplit(s, tag, sp);
    }
  }

  /** The new head content holds no "</head>" when the old one holds none
      and the URL holds no '>'. */
  lemma NewHeadContentCloseFree(inner: string, url: string)
    requires CloseFree(inner)
    requires SafeUrl(url)
    ensures CloseFree(NewHeadContent(inner, NewTag(url)))
  {
    var tag := NewTag(url);
    NewTagIsCanonical(url);
    NewTagCloseFree(url);
    if FindCanon(inner, 0).Some? {
      SubstituteCloseFree(inner, tag);
    } else {
      assert CloseFree(LineEnd) && CloseFree(Indent);
      CloseFreeJoinClose(tag, LineEnd);
      TagStartsWithBracket(tag);
      CloseFreeJoinOpen(Indent, tag + LineEnd);
      CloseFreeJoinOpen(inner, Indent + (tag + LineEnd));
    }
  }

  // ---------------------------------------------------------------------
  // The rewritten page.

  /** A page is skipped exactly when no index of it starts a head section. */
  lemma SkippedIffNoHead(text: string, url: string)
    ensures ProcessText(text, url).Skipped? <==> forall q: nat :: HeadAt(text, q).None?
  {
    var h := SearchHead(text, 0);
    if h.Some? {
      assert HeadAt(text, h.value.start).Some?;
    } else {
      forall q: nat
        ensures HeadAt(text, q).None?
      {
        SearchHeadLeftmost(text, 0, q);
      }
    }
  }

  lemma ProcessTextRewrites(text: string, url: string)
    requires SearchHead(text, 0).Some?
    ensures Groups(text, SearchHead(text, 0).value)
    ensures var m := SearchHead(text, 0).value;
            var inner := HeadContent(text, m);
            ProcessText(text, url) ==
              Rewritten(Splice(text, m, NewHeadContent(inner, NewTag(url))), FindCanon(inner, 0).Some?)
  {
  }

  /** Group 2 of the spliced text is the content that was spliced in. */
  lemma SplicedContent(s: string, m: HeadMatch, inner: string)
    requires m.innerStart <= m.innerEnd <= |s|
    ensures Splice(s, m, inner)[m.innerStart..m.innerStart + |inner|] == inner
  {
  }

  /** Splicing a head section's own content back changes nothing. */
  lemma SpliceSame(s: string, m: HeadMatch)
    requires m.innerStart <= m.innerEnd <= |s|
    ensures Splice(s, m, HeadContent(s, m)) == s
  {
  }

  /** After the rewrite the page's head section starts where it did, and
      its content is the new head content. */
  lemma ProcessKeepsHead(text: string, url: string, m: HeadMatch, next: string)
    requires SafeUrl(url)
    requires SearchHead(text, 0) == Some(m)
    requires m.innerStart <= m.innerEnd <= |text|
    requires next == NewHeadContent(HeadContent(text, m), NewTag(url))
    ensures ProcessText(text, url).Rewritten?
    ensures SearchHead(ProcessText(text, url).text, 0) == Some(HeadMatch(m.start, m.innerStart, m.innerStart + |next|))
    ensures m.innerStart + |next| <= |ProcessText(text, url).text|
    ensures HeadContent(ProcessText(text, url).text, HeadMatch(m.start, m.innerStart, m.innerStart + |next|)) == next
  {
    ProcessTextRewrites(text, url);
    InnerCloseFree(text, m);
    NewHeadContentCloseFree(HeadContent(text, m), url);
    RewrittenHead(text, m, next, ProcessText(text, url).text);
  }

  lemma RewrittenHead(text: string, m: HeadMatch, next: string, r: string)
    requires SearchHead(text, 0) == Some(m)
    requires CloseFree(next)
    requires m.innerStart <= m.innerEnd <= |text|
    requires r == Splice(text, m, next)
    ensures SearchHead(r, 0) == Some(HeadMatch(m.start, m.innerStart, m.innerStart + |next|))
    ensures m.innerStart + |next| <= |r|
    ensures HeadContent(r, HeadMatch(m.start, m.innerStart, m.innerStart + |next|)) == next
  {
    SpliceKeepsHead(text, m, next);
    SplicedContent(text, m, next);
  }

  // ---------------------------------------------------------------------
  // The canonical tags of the new head content.

  /** There is a match exactly when the list of matches is not empty. */
  lemma MatchTextsEmptyIffNoMatch(s: string)
    ensures |MatchTexts(s)| > 0 <==> FindCanon(s, 0).Some?
  {
  }

  /** UPDATE, for any URL: the new head content is the old one's text
      around its canonical matches, with the new tag in place of each. */
  lemma UpdateContent(text: string, url: string, m: HeadMatch, next: string)
    requires SearchHead(text, 0) == Some(m)
    requires m.innerStart <= m.innerEnd <= |text|
    requires FindCanon(HeadContent(text, m), 0).Some?
    requires next == NewHeadContent(HeadContent(text, m), NewTag(url))
    ensures ProcessText(text, url).Rewritten? && ProcessText(text, url).updated
    ensures var inner := HeadContent(text, m);
            && |Gaps(inner)| == |MatchTexts(inner)| + 1
            && next == Interleave(Gaps(inner), Repeat(NewTag(url), |MatchTexts(inner)|))
  {
    SubstituteIsInterleave(HeadContent(text, m), NewTag(url));
  }

  /** ADD, for any URL and any old head content without a canonical match:
      the old content, then the new tag on an indented line of its own. */
  lemma AddContent(text: string, url: string, m: HeadMatch, next: string)
    requires SearchHead(text, 0) == Some(m)
    requires m.innerStart <= m.innerEnd <= |text|
    requires FindCanon(HeadContent(text, m), 0).None?
    requires next == NewHeadContent(HeadContent(text, m), NewTag(url))
    ensures ProcessText(text, url).Rewritten? && !ProcessText(text, url).updated
    ensures next == HeadContent(text, m) + Indent + NewTag(url) + LineEnd
  {
    var inner, tag := HeadContent(text, m), NewTag(url);
    assert next == inner + (Indent + (tag + LineEnd));
    Regroup(inner, Indent, tag, LineEnd);
  }

  lemma Regroup(a: string, b: string, c: string, d: string)
    ensures a + (b + (c + d)) == a + b + c + d
  {
  }

  /** UPDATE: every canonical tag of the head section is replaced by the new
      tag, one for one, no other canonical tag appears, and the text around
      the tags is kept. */
  lemma UpdateReplacesEveryTag(text: string, url: string, m: HeadMatch, next: string)
    requires forall i :: 0 <= i < |url| ==> url[i] != '>'
    requires SearchHead(text, 0) == Some(m)
    requires m.innerStart <= m.innerEnd <= |text|
    requires FindCanon(HeadContent(text, m), 0).Some?
    requires next == NewHeadContent(HeadContent(text, m), NewTag(url))
    ensures ProcessText(text, url).Rewritten? && ProcessText(text, url).updated
    ensures |MatchTexts(next)| == |MatchTexts(HeadContent(text, m))|
    ensures AllAre(MatchTexts(next), NewTag(url))
    ensures Gaps(next) == Gaps(HeadContent(text, m))
  {
    NewTagIsCanonical(url);
    ReplacedContent(HeadContent(text, m), NewTag(url));
  }

  /** What the replace-all does to a head content with a canonical tag as
      the replacement. */
  lemma ReplacedContent(inner: string, tag: string)
    requires IsCanonicalTag(tag)
    ensures |MatchTexts(Substitute(inner, tag))| == |MatchTexts(inner)|
    ensures AllAre(MatchTexts(Substitute(inner, tag)), tag)
    ensures Gaps(Substitute(inner, tag)) == Gaps(inner)
  {
    SubstituteLeavesOnlyTags(inner, tag);
    SubstituteKeepsGaps(inner, tag);
  }

  /** ADD: the old head content is kept as it was and followed by the new
      tag, which is then its only canonical tag; this needs every "<link"
      of the old content to be closed by a '>'. */
  lemma AddAppendsTheTag(text: string, url: string, m: HeadMatch, next: string)
    requires forall i :: 0 <= i < |url| ==> url[i] != '>'
    requires SearchHead(text, 0) == Some(m)
    requires m.innerStart <= m.innerEnd <= |text|
    requires FindCanon(HeadContent(text, m), 0).None?
    requires NoDanglingLink(HeadContent(text, m))
    requires next == NewHeadContent(HeadContent(text, m), NewTag(url))
    ensures ProcessText(text, url).Rewritten? && !ProcessText(text, url).updated
    ensures next == HeadContent(text, m) + Indent + NewTag(url) + LineEnd
    ensures MatchTexts(next) == [NewTag(url)]
  {
    AddContent(text, url, m, next);
    NewTagIsCanonical(url);
    AppendedContentOnlyTag(HeadContent(text, m), NewTag(url));
  }

  /** The content ADD builds from a canonical tag has that tag as its only
      match. */
  lemma AppendedContentOnlyTag(inner: string, tag: string)
    requires IsCanonicalTag(tag)
    requires FindCanon(inner, 0).None? && NoDanglingLink(inner)
    ensures MatchTexts(NewHeadContent(inner, tag)) == [tag]
  {
    assert FindCanon(LineEnd, 0).None?;
    AppendedTagIsOnlyMatch(inner, Indent, tag, LineEnd);
  }

  // ---------------------------------------------------------------------
  // Running the script twice.

  /** A page whose head content has canonical tags, all of them the new
      tag, is rewritten to itself. */
  lemma SecondRunUnchanged(r: string, url: string, m: HeadMatch)
    requires SearchHead(r, 0) == Some(m)
    requires m.innerStart <= m.innerEnd <= |r|
    requires |MatchTexts(HeadContent(r, m))| > 0
    requires AllAre(MatchTexts(HeadContent(r, m)), NewTag(url))
    ensures ProcessText(r, url) == Rewritten(r, true)
  {
    ProcessTextRewrites(r, url);
    MatchTextsEmptyIffNoMatch(HeadContent(r, m));
    SubstituteFixesTags(HeadContent(r, m), NewTag(url));
    SpliceSame(r, m);
  }

  /** Running the rewrite on its own output changes nothing more, unless
      the page was an ADD whose head content had an unclosed "<link"
      (see `UnclosedLinkNotIdempotent`). The second run always reports an
      update. */
  lemma ProcessIdempotent(text: string, url: string, m: HeadMatch)
    requires SafeUrl(url)
    requires SearchHead(text, 0) == Some(m)
    requires m.innerStart <= m.innerEnd <= |text|
    requires FindCanon(HeadContent(text, m), 0).Some? || NoDanglingLink(HeadContent(text, m))
    ensures ProcessText(text, url).Rewritten?
    ensures ProcessText(ProcessText(text, url).text, url) == Rewritten(ProcessText(text, url).text, true)
  {
    var next := NewHeadContent(HeadContent(text, m), NewTag(url));
    NewContentTags(HeadContent(text, m), url);
    ProcessKeepsHead(text, url, m, next);
    SecondRunUnchanged(ProcessText(text, url).text, url, HeadMatch(m.start, m.innerStart, m.innerStart + |next|));
  }

  /** The new head content has at least one canonical tag, and all of them
      are the new tag. */
  lemma NewContentTags(inner: string, url: string)
    requires forall i :: 0 <= i < |url| ==> url[i] != '>'
    requires FindCanon(inner, 0).Some? || NoDanglingLink(inner)
    ensures |MatchTexts(NewHeadContent(inner, NewTag(url)))| > 0
    ensures AllAre(MatchTexts(NewHeadContent(inner, NewTag(url))), NewTag(url))
  {
    NewTagIsCanonical(url);
    if FindCanon(inner, 0).Some? {
      ReplacedContentTags(inner, NewTag(url));
    } else {
      AppendedContentTags(inner, NewTag(url));
    }
  }

  lemma ReplacedContentTags(inner: string, tag: string)
    requires IsCanonicalTag(tag)
    requires FindCanon(inner, 0).Some?
    ensures |MatchTexts(NewHeadContent(inner, tag))| > 0
    ensures AllAre(MatchTexts(NewHeadContent(inner, tag)), tag)
  {
    SubstituteLeavesOnlyTags(inner, tag);
    MatchTextsEmptyIffNoMatch(inner);
  }

  lemma AppendedContentTags(inner: string, tag: string)
    requires IsCanonicalTag(tag)
    requires FindCanon(inner, 0).None? && NoDanglingLink(inner)
    ensures |MatchTexts(NewHeadContent(inner, tag))| > 0
    ensures AllAre(MatchTexts(NewHeadContent(inner, tag)), tag)
  {
    AppendedContentOnlyTag(inner, tag);
  }

  /** An ADD page whose old head content has a "<link" that no '>' closes is
      rewritten again by a second run: the canonical match now starts at
      that "<link" and runs to the end of the tag appended by the first run,
      so the second run shortens the page. */
  lemma UnclosedLinkNotIdempotent(text: string, url: string, m: HeadMatch)
    requires SafeUrl(url)
    requires SearchHead(text, 0) == Some(m)
    requires m.innerStart <= m.innerEnd <= |text|
    requires FindCanon(HeadContent(text, m), 0).None?
    requires !NoDanglingLink(HeadContent(text, m))
    ensures ProcessText(text, url).Rewritten?
    ensures var r := ProcessText(text, url).text;
            ProcessText(r, url).Rewritten? && |ProcessText(r, url).text| < |r|
  {
    var next := NewHeadContent(HeadContent(text, m), NewTag(url));
    UnclosedLinkContent(HeadContent(text, m), url);
    ProcessKeepsHead(text, url, m, next);
    SecondRunShrinks(ProcessText(text, url).text, url, HeadMatch(m.start, m.innerStart, m.innerStart + |next|));
  }

  /** The new head content after an unclosed "<link" has a canonical match,
      and replacing its matches shortens it. */
  lemma UnclosedLinkContent(inner: string, url: string)
    requires forall i :: 0 <= i < |url| ==> url[i] != '>'
    requires FindCanon(inner, 0).None?
    requires !NoDanglingLink(inner)
    ensures FindCanon(NewHeadContent(inner, NewTag(url)), 0).Some?
    ensures |Substitute(NewHeadContent(inner, NewTag(url)), NewTag(url))| < |NewHeadContent(inner, NewTag(url))|
  {
    var tag := NewTag(url);
    var x := NewHeadContent(inner, tag);
    assert x == inner + (Indent + (tag + LineEnd));
    NewTagIsCanonical(url);
    assert FindCanon(LineEnd, 0).None?;
    DanglingFirstMatch(inner, Indent, tag, LineEnd, x);
    AppendedTagAfterDanglingLink(inner, Indent, tag, LineEnd);
  }

  /** A page whose head content has a match that the replace-all shortens is
      shortened by the rewrite. */
  lemma SecondRunShrinks(r: string, url: string, m: HeadMatch)
    requires SearchHead(r, 0) == Some(m)
    requires m.innerStart <= m.innerEnd <= |r|
    requires FindCanon(HeadContent(r, m), 0).Some?
    requires |Substitute(HeadContent(r, m), NewTag(url))| < |HeadContent(r, m)|
    ensures ProcessText(r, url).Rewritten?
    ensures |ProcessText(r, url).text| < |r|
  {
    ProcessTextRewrites(r, url);
  }
}
