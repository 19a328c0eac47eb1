/** The canonical URL of a page, derived from its path relative to the site
    root (`make_canonical_url`). Every step is a plain string function; the
    lemmas state what the composition guarantees. */
module CanonicalUrl {

  const IndexFile := "index.html"

  predicate EndsWith(s: string, suffix: string)
  {
    |suffix| <= |s| && s[|s| - |suffix|..] == suffix
  }

  /** No "//" anywhere in `s`. */
  predicate NoDoubleSlash(s: string)
  {
    forall k :: 0 <= k < |s| - 1 ==> !(s[k] == '/' && s[k + 1] == '/')
  }

  /** No "/./" anywhere in `s`. */
  predicate NoDotSegment(s: string)
  {
    forall k :: 0 <= k < |s| - 2 ==> !(s[k] == '/' && s[k + 1] == '.' && s[k + 2] == '/')
  }

  /** A URL path the normalisation steps leave alone. */
  predicate Clean(s: string)
  {
    NoDoubleSlash(s) && NoDotSegment(s)
  }

  /** The characters of `s` other than '/', in order. */
  function NonSlash(s: string): string
  {
    if s == [] then [] else (if s[0] == '/' then [] else [s[0]]) + NonSlash(s[1..])
  }

  /** `str.rstrip("/")`: `s` without its trailing run of '/'. */
  function RStripSlash(s: string): (r: string)
    ensures |r| <= |s| && r == s[..|r|]
    ensures r == [] || r[|r| - 1] != '/'
    ensures forall k :: |r| <= k < |s| ==> s[k] == '/'
    decreases |s|
  {
    if |s| > 0 && s[|s| - 1] == '/' then RStripSlash(s[..|s| - 1]) else s
  }

  /** `str.replace(sep, "/")` for a one-character separator. */
  function ReplaceChar(s: string, from: char, to: char): (r: string)
    ensures |r| == |s|
    ensures forall k :: 0 <= k < |s| ==> r[k] == (if s[k] == from then to else s[k])
  {
    if s == [] then [] else [if s[0] == from then to else s[0]] + ReplaceChar(s[1..], from, to)
  }

  /** On a system whose separator is already '/', the conversion does nothing. */
  lemma ReplaceCharSame(s: string, c: char)
    ensures ReplaceChar(s, c, c) == s
  {
  }

  /** `s.endswith("/")`. */
  predicate EndsInSlash(s: string)
  {
    s != [] && s[|s| - 1] == '/'
  }

  /** The trailing-slash guarantee of the `index.html` branch. */
  function EnsureTrailingSlash(s: string): string
  {
    if EndsInSlash(s) then s else s + "/"
  }

  /** `re.sub(r"//+", "/", s)`: every run of two or more '/' becomes one. */
  function CollapseSlashes(s: string): string
    decreases |s|
  {
    if |s| >= 2 && s[0] == '/' && s[1] == '/' then CollapseSlashes(s[1..])
    else if s == [] then []
    else [s[0]] + CollapseSlashes(s[1..])
  }

  predicate StartsWithDotSegment(s: string)
  {
    |s| >= 3 && s[0] == '/' && s[1] == '.' && s[2] == '/'
  }

  /** `s.replace("/./", "/")`: one left-to-right pass over non-overlapping
      occurrences, so "/././" becomes "/./". */
  function ReplaceDotSegments(s: string): string
    decreases |s|
  {
    if StartsWithDotSegment(s) then "/" + ReplaceDotSegments(s[3..])
    else if s == [] then []
    else [s[0]] + ReplaceDotSegments(s[1..])
  }

  /** The URL path before normalisation: the directory of an `index.html`
      with a trailing '/', or the whole path, behind a leading '/'. The test
      is a plain suffix test, so it also fires for "myindex.html". */
  function RawPath(p: string): string
  {
    if EndsWith(p, IndexFile) then IndexDir(p) else "/" + p
  }

  /** The directory part of an `index.html` path, behind a leading '/' and
      with a trailing '/'. */
  function IndexDir(p: string): string
    requires EndsWith(p, IndexFile)
  {
    EnsureTrailingSlash("/" + p[..|p| - |IndexFile|])
  }

  /** The URL path of a page at `relPath`, whose directory separator is `sep`. */
  function UrlPath(relPath: string, sep: char): string
  {
    ReplaceDotSegments(CollapseSlashes(RawPath(ReplaceChar(relPath, sep, '/'))))
  }

  /** `make_canonical_url`, with the configured base URL as a parameter. */
  function MakeCanonicalUrl(baseUrl: string, relPath: string, sep: char): string
  {
    RStripSlash(baseUrl) + UrlPath(relPath, sep)
  }

  // ---------------------------------------------------------------------
  // Collapsing runs of '/'

  /** Collapsing keeps the first and the last character. */
  lemma {:induction false} CollapseKeepsEnds(s: string)
    ensures |CollapseSlashes(s)| <= |s|
    ensures (s == []) <==> (CollapseSlashes(s) == [])
    ensures s != [] ==> CollapseSlashes(s)[0] == s[0]
    ensures s != [] ==> CollapseSlashes(s)[|CollapseSlashes(s)| - 1] == s[|s| - 1]
    decreases |s|
  {
    if s != [] {
      CollapseKeepsEnds(s[1..]);
      if |s| >= 2 {
        assert s[1..][|s| - 2] == s[|s| - 1];
      }
    }
  }

  /** The result of collapsing holds no "//". */
  lemma {:induction false} CollapseNoDoubleSlash(s: string)
    ensures NoDoubleSlash(CollapseSlashes(s))
    decreases |s|
  {
    if |s| >= 2 && s[0] == '/' && s[1] == '/' {
      CollapseNoDoubleSlash(s[1..]);
    } else if s != [] {
      CollapseNoDoubleSlash(s[1..]);
      CollapseKeepsEnds(s[1..]);
      var t := CollapseSlashes(s[1..]);
      assert CollapseSlashes(s) == [s[0]] + t;
      forall k | 0 <= k < |[s[0]] + t| - 1
        ensures !(([s[0]] + t)[k] == '/' && ([s[0]] + t)[k + 1] == '/')
      {
        if k > 0 {
          assert ([s[0]] + t)[k] == t[k - 1] && ([s[0]] + t)[k + 1] == t[k];
        }
      }
    }
  }

  /** Collapsing removes only '/' characters. */
  lemma {:induction false} CollapseKeepsNonSlash(s: string)
    ensures NonSlash(CollapseSlashes(s)) == NonSlash(s)
    decreases |s|
  {
    if |s| >= 2 && s[0] == '/' && s[1] == '/' {
      CollapseKeepsNonSlash(s[1..]);
    } else if s != [] {
      CollapseKeepsNonSlash(s[1..]);
      var t := CollapseSlashes(s[1..]);
      assert ([s[0]] + t)[1..] == t;
    }
  }

  /** A path without "//" is left as it is. */
  lemma {:induction false} CollapseIdentity(s: string)
    requires NoDoubleSlash(s)
    ensures CollapseSlashes(s) == s
    decreases |s|
  {
    if s != [] {
      assert NoDoubleSlash(s[1..]) by {
        forall k | 0 <= k < |s[1..]| - 1
          ensures !(s[1..][k] == '/' && s[1..][k + 1] == '/')
        {
          assert s[1..][k] == s[k + 1] && s[1..][k + 1] == s[k + 2];
        }
      }
      CollapseIdentity(s[1..]);
      assert s == [s[0]] + s[1..];
    }
  }

  /** Each run of '/' becomes exactly one '/': a doubled '/' anywhere
      collapses as a single one does. With `CollapseIdentity` this fixes
      the result on every input. */
  lemma {:induction false} CollapseUndouble(x: string, y: string)
    ensures CollapseSlashes(x + "//" + y) == CollapseSlashes(x + "/" + y)
    decreases |x|
  {
    var s, s' := x + "//" + y, x + "/" + y;
    if x == [] {
      assert s[1..] == s';
    } else {
      assert s[0] == s'[0] && s[1] == s'[1];
      assert s[1..] == x[1..] + "//" + y;
      assert s'[1..] == x[1..] + "/" + y;
      CollapseUndouble(x[1..], y);
    }
  }

  // ---------------------------------------------------------------------
  // Replacing "/./"

  /** The replacement keeps the first and the last character. */
  lemma {:induction false} DotKeepsEnds(s: string)
    ensures |ReplaceDotSegments(s)| <= |s|
    ensures (s == []) <==> (ReplaceDotSegments(s) == [])
    ensures s != [] ==> ReplaceDotSegments(s)[0] == s[0]
    ensures s != [] ==> ReplaceDotSegments(s)[|ReplaceDotSegments(s)| - 1] == s[|s| - 1]
    decreases |s|
  {
    if StartsWithDotSegment(s) {
      DotKeepsEnds(s[3..]);
      if |s| > 3 {
        assert s[3..][|s| - 4] == s[|s| - 1];
      }
    } else if s != [] {
      DotKeepsEnds(s[1..]);
      if |s| >= 2 {
        assert s[1..][|s| - 2] == s[|s| - 1];
      }
    }
  }

  /** Replacing "/./" by "/" in a path without "//" creates no "//": the
      character after a replaced "/./" cannot be '/'. */
  lemma {:induction false} DotKeepsNoDoubleSlash(s: string)
    requires NoDoubleSlash(s)
    ensures NoDoubleSlash(ReplaceDotSegments(s))
    decreases |s|
  {
    if s == [] {
    } else {
      var n := if StartsWithDotSegment(s) then 3 else 1;
      var rest := s[n..];
      assert NoDoubleSlash(rest) by {
        forall k | 0 <= k < |rest| - 1
          ensures !(rest[k] == '/' && rest[k + 1] == '/')
        {
          assert rest[k] == s[k + n] && rest[k + 1] == s[k + n + 1];
        }
      }
      DotKeepsNoDoubleSlash(rest);
      DotKeepsEnds(rest);
      var t := ReplaceDotSegments(rest);
      var head := if n == 3 then '/' else s[0];
      assert ReplaceDotSegments(s) == [head] + t;
      assert head == '/' && t != [] ==> t[0] != '/' by {
        if head == '/' && t != [] {
          assert t[0] == rest[0] == s[n];
          assert s[n - 1] == '/';
        }
      }
      forall k | 0 <= k < |[head] + t| - 1
        ensures !(([head] + t)[k] == '/' && ([head] + t)[k + 1] == '/')
      {
        if k > 0 {
          assert ([head] + t)[k] == t[k - 1] && ([head] + t)[k + 1] == t[k];
        }
      }
    }
  }

  /** A path without "/./" is left as it is. */
  lemma {:induction false} DotIdentity(s: string)
    requires NoDotSegment(s)
    ensures ReplaceDotSegments(s) == s
    decreases |s|
  {
    if s != [] {
      assert NoDotSegment(s[1..]) by {
        forall k | 0 <= k < |s[1..]| - 2
          ensures !(s[1..][k] == '/' && s[1..][k + 1] == '.' && s[1..][k + 2] == '/')
        {
          assert s[1..][k] == s[k + 1] && s[1..][k + 1] == s[k + 2] && s[1..][k + 2] == s[k + 3];
        }
      }
      DotIdentity(s[1..]);
      assert s == [s[0]] + s[1..];
    }
  }

  /** Every "/./" is replaced, wherever it stands: the first one, after a
      part `x` in which none starts, becomes "/" and the pass goes on after
      it. With `DotIdentity` this fixes the result on every input. */
  lemma {:induction false} DotReplacesFirst(x: string, y: string)
    requires NoDotSegment(x) && !EndsWith(x, "/.")
    ensures ReplaceDotSegments(x + "/./" + y) == x + "/" + ReplaceDotSegments(y)
    decreases |x|
  {
    var s := x + "/./" + y;
    if x == [] {
      assert s[3..] == y;
    } else {
      var x' := x[1..];
      NoDotSegmentBefore(x, y);
      NoDotSegmentTail(x);
      assert s[1..] == x' + "/./" + y;
      DotReplacesFirst(x', y);
      assert x == [x[0]] + x';
    }
  }

  /** No "/./" starts at the first character of `x + "/./" + y` when none
      starts in `x` and `x` does not end in "/.". */
  lemma NoDotSegmentBefore(x: string, y: string)
    requires x != []
    requires NoDotSegment(x) && !EndsWith(x, "/.")
    ensures !StartsWithDotSegment(x + "/./" + y)
  {
    var s := x + "/./" + y;
    if |x| >= 3 {
      assert s[..3] == x[..3];
    } else if |x| == 2 {
      assert x[|x| - 2..] == x;
      assert s[2] == '/';
    } else {
      assert s[1] == '/';
    }
  }

  /** Dropping the first character keeps both conditions of `DotReplacesFirst`. */
  lemma NoDotSegmentTail(x: string)
    requires x != []
    requires NoDotSegment(x) && !EndsWith(x, "/.")
    ensures NoDotSegment(x[1..]) && !EndsWith(x[1..], "/.")
  {
    var x' := x[1..];
    forall k | 0 <= k < |x'| - 2
      ensures !(x'[k] == '/' && x'[k + 1] == '.' && x'[k + 2] == '/')
    {
      assert x'[k] == x[k + 1] && x'[k + 1] == x[k + 2] && x'[k + 2] == x[k + 3];
    }
    if |x'| >= 2 {
      assert x'[|x'| - 2..] == x[|x| - 2..];
    }
  }

  // ---------------------------------------------------------------------
  // make_canonical_url

  /** Normalisation leaves a clean path unchanged. */
  lemma NormaliseClean(raw: string)
    requires Clean(raw)
    ensures ReplaceDotSegments(CollapseSlashes(raw)) == raw
  {
    CollapseIdentity(raw);
    DotIdentity(raw);
  }

  /** Every canonical URL is the base URL without its trailing '/', followed
      by a URL path that starts with '/' and contains no "//". */
  lemma CanonicalUrlShape(baseUrl: string, relPath: string, sep: char)
    ensures var url := MakeCanonicalUrl(baseUrl, relPath, sep);
            var base := RStripSlash(baseUrl);
            var path := url[|base|..];
            |base| < |url| && url[..|base|] == base &&
            path[0] == '/' && NoDoubleSlash(path)
  {
    var raw := RawPath(ReplaceChar(relPath, sep, '/'));
    assert raw[0] == '/';
    CollapseKeepsEnds(raw);
    CollapseNoDoubleSlash(raw);
    var c := CollapseSlashes(raw);
    DotKeepsEnds(c);
    DotKeepsNoDoubleSlash(c);
    var url := MakeCanonicalUrl(baseUrl, relPath, sep);
    assert url[|RStripSlash(baseUrl)|..] == ReplaceDotSegments(c);
  }

  /** A path ending in "index.html" gives a URL ending in '/'. */
  lemma IndexUrlEndsWithSlash(baseUrl: string, relPath: string, sep: char)
    requires EndsWith(ReplaceChar(relPath, sep, '/'), IndexFile)
    ensures EndsInSlash(MakeCanonicalUrl(baseUrl, relPath, sep))
  {
    var raw := RawPath(ReplaceChar(relPath, sep, '/'));
    assert EndsInSlash(raw);
    NormaliseKeepsTrailingSlash(raw);
    var base := RStripSlash(baseUrl);
    var path := UrlPath(relPath, sep);
    assert (base + path)[|base + path| - 1] == path[|path| - 1];
  }

  /** For a path ending in "index.html" whose directory part is already
      clean, the URL is the stripped base followed by exactly that directory,
      with one trailing '/'. */
  lemma IndexUrl(baseUrl: string, relPath: string, sep: char)
    requires EndsWith(ReplaceChar(relPath, sep, '/'), IndexFile)
    ensures var dir := IndexDir(ReplaceChar(relPath, sep, '/'));
            Clean(dir) ==> MakeCanonicalUrl(baseUrl, relPath, sep) == RStripSlash(baseUrl) + dir
  {
    var dir := IndexDir(ReplaceChar(relPath, sep, '/'));
    if Clean(dir) {
      CleanRawUrl(baseUrl, relPath, sep, dir);
    }
  }

  /** When the path before normalisation is clean, the URL is the stripped
      base followed by that path. */
  lemma CleanRawUrl(baseUrl: string, relPath: string, sep: char, raw: string)
    requires RawPath(ReplaceChar(relPath, sep, '/')) == raw
    requires Clean(raw)
    ensures MakeCanonicalUrl(baseUrl, relPath, sep) == RStripSlash(baseUrl) + raw
  {
    NormaliseClean(raw);
  }

  /** Normalisation keeps a trailing '/'. */
  lemma NormaliseKeepsTrailingSlash(raw: string)
    requires EndsInSlash(raw)
    ensures EndsInSlash(ReplaceDotSegments(CollapseSlashes(raw)))
  {
    CollapseKeepsEnds(raw);
    DotKeepsEnds(CollapseSlashes(raw));
  }

  /** A path not ending in "index.html" whose "/"-prefixed form is clean
      gives exactly the base followed by '/' and the path. */
  lemma PlainUrl(baseUrl: string, relPath: string, sep: char)
    requires var p := ReplaceChar(relPath, sep, '/');
             !EndsWith(p, IndexFile) && Clean("/" + p)
    ensures MakeCanonicalUrl(baseUrl, relPath, sep) == RStripSlash(baseUrl) + "/" + ReplaceChar(relPath, sep, '/')
  {
    NormaliseClean("/" + ReplaceChar(relPath, sep, '/'));
  }

  /** The suffix test is not a test on the last path segment: a file named
      `<name>index.html`, such as "myindex.html", is treated as the index of
      a directory `<name>`, giving "/my/". */
  lemma IndexSuffixInName(baseUrl: string, name: string)
    requires name != [] && name != "." && '/' !in name
    ensures MakeCanonicalUrl(baseUrl, name + IndexFile, '/') == RStripSlash(baseUrl) + "/" + name + "/"
  {
    var p := name + IndexFile;
    ReplaceCharSame(p, '/');
    NamedIndexDir(name);
    NameDirClean(name);
    IndexUrl(baseUrl, p, '/');
  }

  lemma NamedIndexDir(name: string)
    requires name != [] && '/' !in name
    ensures EndsWith(name + IndexFile, IndexFile)
    ensures IndexDir(name + IndexFile) == "/" + name + "/"
  {
    var p := name + IndexFile;
    assert p[|p| - |IndexFile|..] == IndexFile;
    assert p[..|p| - |IndexFile|] == name;
    assert ("/" + name)[|name|] == name[|name| - 1];
  }

  /** A single segment other than "." between two '/' is clean. */
  lemma NameDirClean(name: string)
    requires name != [] && name != "." && '/' !in name
    ensures Clean("/" + name + "/")
  {
    var dir := "/" + name + "/";
    assert NoDoubleSlash(dir) by {
      forall k | 0 <= k < |dir| - 1
        ensures !(dir[k] == '/' && dir[k + 1] == '/')
      {
        if k == 0 {
          assert dir[1] == name[0];
        } else {
          assert dir[k] == name[k - 1];
        }
      }
    }
    assert NoDotSegment(dir) by {
      forall k | 0 <= k < |dir| - 2
        ensures !(dir[k] == '/' && dir[k + 1] == '.' && dir[k + 2] == '/')
      {
        if k == 0 {
          assert dir[1] == name[0];
          if |name| == 1 {
            assert name == [name[0]];
          } else {
            assert dir[2] == name[1];
          }
        } else {
          assert dir[k] == name[k - 1];
        }
      }
    }
  }

  /** The site's own index page maps to the base URL followed by '/'. */
  lemma RootIndexUrl(baseUrl: string, p: string)
    requires p == IndexFile
    ensures MakeCanonicalUrl(baseUrl, p, '/') == RStripSlash(baseUrl) + "/"
  {
    ReplaceCharSame(p, '/');
    RootIndexDir(p);
    IndexUrl(baseUrl, p, '/');
  }

  lemma RootIndexDir(p: string)
    requires p == IndexFile
    ensures EndsWith(p, IndexFile) && IndexDir(p) == "/" && Clean("/")
  {
    assert p[..|p| - |IndexFile|] == [];
  }

  /** The "/./" replacement is a single pass: of a "/././" only the first
      "/./" is replaced, so one "/./" survives. */
  lemma DotSegmentSurvives(s: string)
    requires |s| >= 5 && s[0] == '/' && s[1] == '.' && s[2] == '/' && s[3] == '.' && s[4] == '/'
    requires !(|s| >= 7 && s[5] == '.' && s[6] == '/')
    ensures var r := ReplaceDotSegments(s);
            |r| >= 3 && r[0] == '/' && r[1] == '.' && r[2] == '/' && r[3..] == ReplaceDotSegments(s[5..])
    ensures !NoDotSegment(ReplaceDotSegments(s))
  {
    var u := s[3..];
    var v := u[1..];
    assert v[1..] == s[5..];
    assert !StartsWithDotSegment(u);
    assert ReplaceDotSegments(v) == [v[0]] + ReplaceDotSegments(s[5..]);
    assert ReplaceDotSegments(u) == [u[0]] + ReplaceDotSegments(v);
  }
}
