# Canonical link tags for a static site, in Dafny

`add_canonical.py` walks a site's `.html` files. In each page that has a
head section it rewrites every `<link rel="canonical" href="...">` tag of
that section to point at the page's canonical URL, or adds one such tag if
the section has none. Pages without a head section are left alone. It works
in four steps:

1. It derives the page's canonical URL from its path relative to the site
   root (`make_canonical_url`).
2. It finds the page's head section with the regular expression
   `(<head[^>]*>)(.*?)(</head>)`.
3. It settles the tag:
   - If the head section already holds tags matching
     `<link[^>]+rel=["']canonical["'][^>]*>`, every one of them is replaced
     by the new tag (UPDATE).
   - If it holds none, the new tag is appended on an indented line at the
     end of the head section (ADD).
4. It saves the old text next to the page as `<page>.bak`, then writes the
   new text. `main` runs this over every page and counts the pages it
   rewrote.

The model has one module per part of the script:

- `Text` (text.dfy): the common pieces.
  - An `Option` type.
  - The case folding of `re.IGNORECASE` for the letters the patterns use.
  - Literal matching at an index, and "first index at or after" searches.
- `CanonicalUrl` (url.dfy): `make_canonical_url` as a composition of string
  functions. The base URL and the directory separator are parameters.
- `HeadSection` (head.dfy): the head-section pattern, the leftmost search,
  and the splice of new inner text.
- `CanonicalTag` (canonical_tag.dfy): the canonical-tag pattern, its
  leftmost search, and the replace-all of `re.sub`.
- `Upsert` (upsert.dfy): the text transformation of `process_file`, and
  what happens when the script runs twice.
- `Site` (site.dfy): the imperative part.
  - A `FileSystem` class whose `files` field maps paths to contents.
  - `ProcessFile` (`process_file`) and `Run` (`main`'s loop and counter).
  - Each method is proved against a specification function on maps
    (`Step`, `RunFiles` and `RunCount`).

The regular expressions are written out by hand for these three fixed
patterns. A canonical match starting at "<link" always ends at the first '>'
after it. This holds whichever `rel="canonical"` inside it the backtracking
engine settles on, because `[^>]` never crosses a '>'.

What the proofs show, in the script's terms:

- **URL.** Every URL is the base without trailing '/', followed by a path
  that starts with '/' and holds no "//".
  - An `index.html` page gives a URL ending in '/'.
  - A plain, clean path is kept as it is.
  - The suffix test also fires for `myindex.html`, which gives `/my/`.
  - The "/./" replacement is a single pass.
- **Head section.** Only the head section's inner text changes, as text:
  line endings and file identity are outside the model (see "Left out").
  For a URL without '>', the head section is found again in the
  same place, and its new content is exactly what was spliced in.
- **Rewrite.** The new page is the text up to group 2, then exactly the new
  head content, then the text from the end of group 2 on.
- **UPDATE.** For any URL, the new content is the old content's text
  around its canonical tags, with the new tag in place of each of them.
  For a URL without '>', the new tag is itself one canonical tag. There
  are then as many canonical tags afterwards as before, and every one of
  them is the new tag.
- **ADD.** For any URL, the new content is the old content followed by
  `"\n    " + tag + "\n"`. For a URL without '>', the new tag becomes the
  only canonical tag, if every "<link" of the old content is closed by a
  '>'.
- **Running twice.** Running the transformation on its own output changes
  nothing, and the second run reports an UPDATE. This holds when the URL
  holds no '>'.
  - It fails for an ADD page whose head section holds a "<link" that no '>'
    closes.
  - On that page, the second run's match starts at the unclosed "<link" and
    swallows the tag the first run appended, so the second run shortens the
    page (`UnclosedLinkNotIdempotent`).
- **Site.** A page without a head section is left alone and not counted.
  - A rewritten page's backup holds its old text.
  - No file other than the pages and their backups changes or appears.
  - The counter equals the number of pages with a head section, given that
    the walk lists distinct `.html` paths.

Where the code and its own comment disagree, the model follows the code:

- The comment on line 54 says the tag is inserted after the opening
  `<head>`. The code appends it at the end of the head section, just before
  `</head>`.
- The code replaces every canonical tag, not just the first.

## Model

| member | source | states |
|---|---|---|
| Text.Fold | add_canonical.py:18-20 | the case folding of `re.IGNORECASE` for the letters of the patterns; its contract is carried by `Text.FoldFixesPunctuation` |
| Text.FoldFixesPunctuation | add_canonical.py:18-20 | folding never changes the punctuation of a pattern: such a character is matched by itself alone |
| Text.FirstFrom | add_canonical.py:18-20 | the `[^>]*>` step: the reported index holds the character, no index between the start and it does, and with no report no index from the start on does |
| Text.FindFrom | add_canonical.py:20 | the lazy `.*?` before "</head>": the reported index starts a case-insensitive occurrence, none starts between the start and it, and with no report none starts from the start on |
| CanonicalUrl.MakeCanonicalUrl | add_canonical.py:22-36 | `make_canonical_url`; its contract is carried by `CanonicalUrlShape`, `IndexUrlEndsWithSlash`, `IndexUrl`, `PlainUrl`, `IndexSuffixInName` and `RootIndexUrl` |
| CanonicalUrl.UrlPath | add_canonical.py:24-35 | the URL path before the base is prepended; its contract is carried by the same lemmas as `MakeCanonicalUrl` |
| CanonicalUrl.RawPath | add_canonical.py:25-31 | the '/'-prefixed path before normalisation; its contract is carried by `IndexUrlEndsWithSlash`, `IndexUrl` and `PlainUrl` |
| CanonicalUrl.IndexDir | add_canonical.py:26-28 | the directory of an index page with one trailing '/'; its contract is carried by `IndexUrl`, `NamedIndexDir` and `RootIndexDir` |
| CanonicalUrl.EnsureTrailingSlash | add_canonical.py:27-28 | appends '/' unless the path ends in one; its contract is carried by `IndexUrlEndsWithSlash` and `IndexUrl` |
| CanonicalUrl.CollapseSlashes | add_canonical.py:33 | `re.sub(r"//+", "/")`; its contract is carried by `CollapseNoDoubleSlash`, `CollapseKeepsNonSlash`, `CollapseIdentity` and `CollapseUndouble` |
| CanonicalUrl.ReplaceDotSegments | add_canonical.py:35 | `replace("/./", "/")`; its contract is carried by `DotKeepsNoDoubleSlash`, `DotIdentity`, `DotReplacesFirst` and `DotSegmentSurvives` |
| CanonicalUrl.RStripSlash | add_canonical.py:36 | the result is the longest prefix of the base URL that does not end in '/'; everything it drops is '/' |
| CanonicalUrl.ReplaceChar | add_canonical.py:24 | same length; every separator becomes '/', every other character is kept |
| CanonicalUrl.CollapseNoDoubleSlash | add_canonical.py:33 | after collapsing runs of '/' no "//" is left |
| CanonicalUrl.CollapseKeepsNonSlash | add_canonical.py:33 | collapsing removes only '/' characters: the other characters stay, in order |
| CanonicalUrl.CollapseIdentity | add_canonical.py:33 | collapsing leaves a path without "//" unchanged |
| CanonicalUrl.CollapseUndouble | add_canonical.py:33 | a "//" anywhere collapses exactly as a single '/' does, so each run of '/' becomes one '/'; with `CollapseIdentity` this fixes the result on every input |
| CanonicalUrl.DotKeepsNoDoubleSlash | add_canonical.py:35 | replacing "/./" by "/" creates no "//" in a path that had none |
| CanonicalUrl.DotIdentity | add_canonical.py:35 | the replacement leaves a path without "/./" unchanged |
| CanonicalUrl.NormaliseClean | add_canonical.py:33-35 | both normalisation steps together leave a clean path (no "//", no "/./") unchanged |
| CanonicalUrl.CanonicalUrlShape | add_canonical.py:22-36 | every URL is the base with its trailing '/' stripped, followed by a non-empty path that starts with '/' and holds no "//" |
| CanonicalUrl.IndexUrlEndsWithSlash | add_canonical.py:25-28 | a path ending in "index.html" gives a URL ending in '/' |
| CanonicalUrl.IndexUrl | add_canonical.py:25-36 | for an "index.html" path with a clean directory part, the URL is the stripped base, then '/', the directory, and one trailing '/' |
| CanonicalUrl.PlainUrl | add_canonical.py:29-36 | a path not ending in "index.html" whose '/'-prefixed form is clean gives exactly base + "/" + path |
| CanonicalUrl.IndexSuffixInName | add_canonical.py:25-28 | "myindex.html"-style names count as an index: `<name>index.html` gives base + "/" + name + "/" |
| CanonicalUrl.RootIndexUrl | add_canonical.py:25-28 | the root "index.html" gives base + "/" |
| CanonicalUrl.DotReplacesFirst | add_canonical.py:35 | every "/./" is replaced wherever it stands: after a part in which none starts (and which does not end in "/."), the first one becomes "/" and the pass goes on after it; with `DotIdentity` this fixes the result on every input |
| CanonicalUrl.DotSegmentSurvives | add_canonical.py:35 | the "/./" replacement is one pass: a path starting "/././" (not followed by another "./") keeps a leading "/./" before the replacement of the rest, so the result still holds a "/./" |
| HeadSection.Groups | add_canonical.py:20 | the three groups of `(<head[^>]*>)(.*?)(</head>)` laid out at a match; its contract is carried by `HeadAt`, `HeadAtShortest` and `SearchHead` |
| HeadSection.Splice | add_canonical.py:58 | `text[:m.start(2)] + new_head_content + text[m.end(2):]`; its contract is carried by `SpliceKeepsHead` and `Upsert.ProcessText` |
| HeadSection.HeadAt | add_canonical.py:20 | a reported match at q lays out the three groups: "<head", non-'>' characters and '>', then group 2, then "</head>" |
| HeadSection.HeadAtShortest | add_canonical.py:20 | wherever the groups can be laid out from q a match is reported, with the same group 1 and the shortest group 2 (the lazy `.*?`) |
| HeadSection.SearchHead | add_canonical.py:40 | the search reports a match of the pattern at or after the start index |
| HeadSection.SearchHeadLeftmost | add_canonical.py:40 | no index before the reported match (no index at all when there is none) starts a match |
| HeadSection.SearchHeadFinds | add_canonical.py:40 | a match with none before it is the one the search reports |
| HeadSection.NoOpenBeforeMatch | add_canonical.py:40 | no "<head" occurs before the reported match |
| HeadSection.InnerCloseFree | add_canonical.py:20 | group 2 holds no "</head>" in any case |
| HeadSection.SpliceKeepsHead | add_canonical.py:58 | splicing inner text without "</head>" leaves the head section where it was, with group 2 exactly the new text |
| CanonicalTag.Substitute | add_canonical.py:51 | `canonical_re.sub`; its contract is carried by `SubstituteIsInterleave`, `SubstituteLeavesOnlyTags`, `SubstituteKeepsGaps`, `SubstituteFixesTags` and `SubstituteIdempotent` |
| CanonicalTag.MatchTexts | add_canonical.py:49-51 | the matches `canonical_re.sub` replaces, left to right; its contract is carried by `GapsAndMatchesRebuild` and `SubstituteLeavesOnlyTags` |
| CanonicalTag.Gaps | add_canonical.py:51 | the text around the matches; its contract is carried by `GapsAndMatchesRebuild` and `SubstituteKeepsGaps` |
| CanonicalTag.InPattern | add_canonical.py:19 | the words of `<link[^>]+rel=["']canonical["'][^>]*>`; its contract is carried by `CanonAtSound` and `CanonAtExact` |
| CanonicalTag.CanonAt | add_canonical.py:19 | a reported match is non-empty and lies within the text |
| CanonicalTag.CanonAtSound | add_canonical.py:19 | a reported match length n makes the first n characters a word of the pattern |
| CanonicalTag.CanonAtExact | add_canonical.py:19 | the pattern matches at most one prefix of a text, and that is the one reported |
| CanonicalTag.NoMatchWithoutBracket | add_canonical.py:19 | no match starts at a character other than '<' |
| CanonicalTag.FindCanon | add_canonical.py:49 | a reported span starts at or after the start index, and the pattern matches there with exactly the span's length |
| CanonicalTag.FindCanonLeftmost | add_canonical.py:49 | no index from the start index up to the reported match (up to the end of the text when none is reported) starts a match |
| CanonicalTag.SubstituteLeavesOnlyTags | add_canonical.py:51 | after `re.sub` with a canonical tag there are as many matches as before, and every match is the tag |
| CanonicalTag.SubstituteIsInterleave | add_canonical.py:51 | for any replacement text, the result is the text around the matches with the replacement in place of each match |
| CanonicalTag.Repeat | add_canonical.py:51 | `n` copies of the replacement: exactly `n` texts, each equal to it |
| CanonicalTag.SubstituteKeepsGaps | add_canonical.py:51 | the replace-all keeps the text before, between and after the matches exactly as it was |
| CanonicalTag.GapsAndMatchesRebuild | add_canonical.py:49-51 | a text is its gaps with its matches between them, so the gaps and the matches together determine it |
| CanonicalTag.SubstituteFixesTags | add_canonical.py:51 | `re.sub` leaves a text unchanged when every match already is the replacement |
| CanonicalTag.SubstituteIdempotent | add_canonical.py:51 | replacing twice gives what replacing once gives |
| CanonicalTag.AppendedTagIsOnlyMatch | add_canonical.py:55 | appending a tag after a line break to a text with no match and no unclosed "<link" leaves the tag as the only match |
| CanonicalTag.AppendedTagAfterDanglingLink | add_canonical.py:55 | appending a tag to a text with no match but an unclosed "<link" makes a text that the replace-all shortens |
| Upsert.HeadContent | add_canonical.py:44 | group 2 of the head match; its contract is carried by `Upsert.ProcessText` and `Upsert.ProcessKeepsHead` |
| Upsert.NewHeadContent | add_canonical.py:49-55 | the UPDATE or ADD content; its contract is carried by `UpdateReplacesEveryTag`, `AddAppendsTheTag` and `NewHeadContentCloseFree` |
| Upsert.NewTag | add_canonical.py:47 | the tag is `<link rel="canonical" href="`, the URL and `" />`, in that order |
| Upsert.NewTagIsCanonical | add_canonical.py:47 | for a URL without '>' the whole new tag is one match of the canonical pattern |
| Upsert.NoGtBeforeEnd | add_canonical.py:47 | for a URL without '>' the only '>' of the new tag is its last character |
| Upsert.NewTagCloseFree | add_canonical.py:47 | for a URL without '>' the new tag holds no "</head>": a "</head>" ends in '>', and the tag's only '>' follows '/', not 'd' |
| Upsert.NewHeadContentCloseFree | add_canonical.py:49-55 | for a URL without '>', the new head content holds no "</head>" when the old one holds none |
| Upsert.ProcessText | add_canonical.py:38-58 | skipped exactly when no head section is found; otherwise UPDATE exactly when the head content has a canonical match, and the new text is the text before group 2, then exactly the new head content, then the text from the end of group 2 on |
| Upsert.SkippedIffNoHead | add_canonical.py:40-43 | a page is skipped exactly when no index of it starts a head section |
| Upsert.ProcessKeepsHead | add_canonical.py:58 | for a URL without '>' the rewritten page has its head section at the same place, with the new head content as group 2 |
| Upsert.UpdateContent | add_canonical.py:49-52 | UPDATE for any URL: the new head content is the old one's text around its canonical matches, with the new tag in place of each |
| Upsert.AddContent | add_canonical.py:53-56 | ADD for any URL: the new head content is old + "\n    " + tag + "\n" |
| Upsert.UpdateReplacesEveryTag | add_canonical.py:49-52 | UPDATE: the new head content has as many canonical tags as the old one, all of them the new tag, and the same text around them |
| Upsert.AddAppendsTheTag | add_canonical.py:53-56 | ADD: the new content is old + "\n    " + tag + "\n", and the new tag is its only canonical tag |
| Upsert.SecondRunUnchanged | add_canonical.py:49-51 | a page whose canonical tags are all the new tag is rewritten to itself, as an UPDATE |
| Upsert.ProcessIdempotent | add_canonical.py:47-58 | for a URL without '>', running the transformation on its output gives the same text back, reported as an UPDATE, unless an ADD had an unclosed "<link" |
| Upsert.UnclosedLinkNotIdempotent | add_canonical.py:53-58 | an ADD page with an unclosed "<link" in its head content is shortened by a second run |
| Site.PageUrl | add_canonical.py:45-46 | the page's URL, from its path relative to the site root and the configured base and separator; its contract is carried by the `CanonicalUrl` lemmas and `StepEffect` |
| Site.Rewrites | add_canonical.py:40-63 | whether `process_file` returns true; its contract is carried by `StepEffect`, which states it holds exactly when the page has a head section, and by `FileSystem.ProcessFile` |
| Site.BackupPath | add_canonical.py:60 | the backup path is the page path followed by ".bak" |
| Site.BackupNotPage | add_canonical.py:60 | a backup path never equals an ".html" page path |
| Site.BackupInjective | add_canonical.py:60 | distinct pages have distinct backups |
| Site.Step | add_canonical.py:38-63 | processing a page removes no file |
| Site.StepEffect | add_canonical.py:38-63 | `process_file` returns true exactly when the page has a head section; then the page gets the new text and the backup the old text, the backup being the only file that can appear; otherwise nothing changes |
| Site.StepOther | add_canonical.py:60-62 | no file other than the page and its backup changes or appears |
| Site.FileSystem.ProcessFile | add_canonical.py:38-63 | the new file map and the return value are those of `Step` and `Rewrites` on the old map |
| Site.FileSystem.Visit | add_canonical.py:70-71 | one pass of the loop body takes the file map and the counter from those of `RunFiles` and `RunCount` on the pages before it to those on the pages up to and including it |
| Site.FileSystem.Run | add_canonical.py:65-73 | the file map and the counter after the loop are those of `RunFiles` and `RunCount` on the initial map |
| Site.RunFiles | add_canonical.py:69-72 | the run removes no file |
| Site.RunCount | add_canonical.py:69-72 | the counter never exceeds the number of pages |
| Site.RunFrame | add_canonical.py:69-72 | a file that is neither a listed page nor the backup of one keeps its content, and no such file appears |
| Site.RunCountsHeads | add_canonical.py:69-72 | for a walk of distinct ".html" paths, the counter equals the number of pages with a head section in the initial file system |
| Site.RunPerFile | add_canonical.py:59-72 | after the run each page with a head section holds its rewritten text and its backup its original text; a page without one, and its backup path, are as they were |
| Site.StepDone | add_canonical.py:59-63 | processing a page whose file and backup are as at the start leaves that page in its final state |
| Site.StepKeepsDone | add_canonical.py:70-71 | processing another page keeps a finished page in its final state |

## Left out

- File I/O is replaced by a map from paths to contents: `read_text`,
  `write_text`, UTF-8 decoding and errors, and the file metadata that
  `shutil.copy2` copies are not modelled.
- Site.FileSystem.ProcessFile requires the page to exist: `read_text` raises
  on a missing file, and the script does not catch the exception.
- `rglob("*.html")` is replaced by the walk's list of paths, given as a
  parameter. Its order, and directories whose names end in ".html", are not
  modelled.
- `os.path.relpath` is not modelled. Map keys are already paths relative to
  the site root.
- `os.sep` and `BASE_URL` are parameters (`Config`).
- `Path.with_suffix(path.suffix + ".bak")` is modelled as the path plus
  ".bak". The two are the same for every name ending in ".html".
- Console output (`print`) is not modelled.
- Line endings: `read_text` reads with universal newlines, turning "\r\n"
  and a lone "\r" into "\n". `write_text` turns every "\n" into the
  platform's line separator ("\r\n" on Windows). `shutil.copy2` copies the
  original bytes to the backup. The model gives the page and its backup the
  text as read, so "only the head section changes" and "the backup holds
  the old text" hold of decoded text, not of the bytes on disk.
- Aliasing: two paths that name one file (a symbolic link to a page)
  cannot be expressed by a map from paths to contents. With such a pair,
  the second visit reads the first one's output, and Site.RunPerFile's
  per-page claim does not hold for those pages.
- The replacement text of `re.sub` is a template: a backslash in the URL
  would be read as an escape. The model inserts the tag literally.
- `re.IGNORECASE` is modelled only for the letters in the three patterns:
  ASCII case, plus U+0130, U+0131 and U+212A, which Python folds to 'i' and
  'k'.
- Upsert.ProcessKeepsHead requires a URL without '>' (`SafeUrl`), as does
  Upsert.NewTagCloseFree. With a '>' in the URL the new tag can hold a
  "</head>" (an href of "</head>" does), and a later search would end the
  head section inside the tag.
- Upsert.UpdateReplacesEveryTag requires a URL without '>': such a '>'
  ends the new tag's own match early, so the tag is not one canonical
  match. `Upsert.UpdateContent` states the UPDATE content for every URL.
- Upsert.AddAppendsTheTag requires a URL without '>' and an old content
  with every "<link" closed; the first for the same reason, the second as
  `Upsert.UnclosedLinkNotIdempotent` shows. `Upsert.AddContent` states the
  ADD content for every URL and every old content.
- Upsert.ProcessIdempotent requires a URL without '>'. A '>' would end the
  new tag's canonical match early, and could close a "</head>" inside it.
- Upsert.ProcessIdempotent requires the old head content to have a canonical
  match, or to have no "<link" left unclosed. The other case is not
  idempotent, as `Upsert.UnclosedLinkNotIdempotent` shows.
- Site.RunCountsHeads and Site.RunPerFile require distinct ".html" paths, as
  `rglob` yields. With a repeated path, the second visit would read the
  rewritten text.
