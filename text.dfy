/** Character-level building blocks shared by the string transformations:
    an Option type, the case folding of Python's `re.IGNORECASE` for the
    letters this program's patterns use, literal matching at an index, and
    "first index at or after" searches. */
module Text {

  datatype Option<T> = None | Some(value: T)

  /** Case folding as `re.IGNORECASE` applies it to a `str` pattern, for the
      letters that occur in this program's patterns (all written in lower
      case): ASCII capitals fold to lower case, and the three non-ASCII
      letters that Python treats as case variants of 'i' (U+0130, U+0131) and
      of 'k' (the Kelvin sign U+212A) fold to those letters. Every other
      character stands for itself. */
  function Fold(c: char): char
  {
    if 'A' <= c <= 'Z' then (c as int + 32) as char
    else if c == '\U{0130}' || c == '\U{0131}' then 'i'
    else if c == '\U{212A}' then 'k'
    else c
  }

  /** Folding only ever changes letters: a punctuation character of a
      pattern is matched by that character alone. */
  lemma FoldFixesPunctuation(c: char, p: char)
    requires p in "<>/=\"' \n"
    ensures Fold(c) == p <==> c == p
  {
  }

  /** The literal `pat` (written in lower case) occurs at index `i` of `s`,
      case-insensitively. */
  predicate MatchesAt(s: string, i: nat, pat: string)
  {
    i + |pat| <= |s| && forall k :: 0 <= k < |pat| ==> Fold(s[i + k]) == pat[k]
  }

  /** Whether a literal matches at an index depends only on the characters
      it covers. */
  lemma MatchesAtAgree(s: string, t: string, i: nat, j: nat, pat: string)
    requires i + |pat| <= |s| && j + |pat| <= |t|
    requires s[i..i + |pat|] == t[j..j + |pat|]
    ensures MatchesAt(s, i, pat) <==> MatchesAt(t, j, pat)
  {
    forall k | 0 <= k < |pat|
      ensures Fold(s[i + k]) == pat[k] <==> Fold(t[j + k]) == pat[k]
    {
      assert s[i..i + |pat|][k] == t[j..j + |pat|][k];
    }
  }

  /** A literal inside `x` matches in `x + y` exactly when it matches in `x`. */
  lemma MatchesAtPrefix(x: string, y: string, i: nat, pat: string)
    requires i + |pat| <= |x|
    ensures MatchesAt(x + y, i, pat) <==> MatchesAt(x, i, pat)
  {
    assert (x + y)[i..i + |pat|] == x[i..i + |pat|];
    MatchesAtAgree(x + y, x, i, i, pat);
  }

  /** A literal inside `y` matches in `x + y` exactly when it matches in `y`. */
  lemma MatchesAtSuffix(x: string, y: string, i: nat, pat: string)
    ensures MatchesAt(x + y, |x| + i, pat) <==> MatchesAt(y, i, pat)
  {
    if i + |pat| <= |y| {
      assert (x + y)[|x| + i..|x| + i + |pat|] == y[i..i + |pat|];
      MatchesAtAgree(x + y, y, |x| + i, i, pat);
    }
  }

  /** Dropping a prefix of `s` from `s + w`. */
  lemma DropConcat(s: string, w: string, q: nat)
    requires q <= |s|
    ensures (s + w)[q..] == s[q..] + w
  {
  }

  /** Matching inside a suffix `s[q..]` is matching in `s`, shifted by `q`. */
  lemma MatchesAtDrop(s: string, q: nat, i: nat, pat: string)
    requires q <= |s|
    ensures MatchesAt(s[q..], i, pat) <==> MatchesAt(s, q + i, pat)
  {
    if q + i + |pat| <= |s| {
      assert s[q..][i..i + |pat|] == s[q + i..q + i + |pat|];
      MatchesAtAgree(s[q..], s, i, q + i, pat);
    }
  }

  /** Index of the first `c` in `s` at or after `from` (the `[^>]*>` step of
      a regular expression). */
  function FirstFrom(s: string, from: nat, c: char): (r: Option<nat>)
    ensures r.Some? ==> from <= r.value < |s| && s[r.value] == c
    ensures r.Some? ==> forall k :: from <= k < r.value ==> s[k] != c
    ensures r.None? ==> forall k :: from <= k < |s| ==> s[k] != c
    decreases |s| - from
  {
    if from >= |s| then None
    else if s[from] == c then Some(from)
    else FirstFrom(s, from + 1, c)
  }

  /** Index of the first case-insensitive occurrence of `pat` in `s` at or
      after `from` (the lazy `.*?` before a literal). */
  function FindFrom(s: string, from: nat, pat: string): (r: Option<nat>)
    requires |pat| > 0
    ensures r.Some? ==> from <= r.value && MatchesAt(s, r.value, pat)
    ensures r.Some? ==> forall k :: from <= k < r.value ==> !MatchesAt(s, k, pat)
    ensures r.None? ==> forall k :: from <= k ==> !MatchesAt(s, k, pat)
    decreases |s| - from
  {
    if from + |pat| > |s| then None
    else if MatchesAt(s, from, pat) then Some(from)
    else FindFrom(s, from + 1, pat)
  }

  /** Searching a suffix `s[q..]` is searching `s` from `q` on. */
  lemma FirstFromDrop(s: string, q: nat, from: nat, c: char)
    requires q <= |s|
    ensures FirstFrom(s[q..], from, c).Some? <==> FirstFrom(s, q + from, c).Some?
  {
    var a := FirstFrom(s[q..], from, c);
    var b := FirstFrom(s, q + from, c);
    if a.Some? {
      assert s[q + a.value] == c;
    }
    if b.Some? {
      assert s[q..][b.value - q] == c;
    }
  }
}
