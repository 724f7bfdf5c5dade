/** The three string operations of Python's `str` type that the to-do list
    relies on: substring search (`in`, `find`) and the first two fields of
    `split(sep)`. */
module Strings {
  import opened Wrappers

  /** `pat` occurs in `s` starting at index `k`. */
  predicate OccursAt(s: string, pat: string, k: nat) {
    k + |pat| <= |s| && s[k..k + |pat|] == pat
  }

  /** Index of the first occurrence of `pat` in `s` (Python's `s.find(pat)`),
      `None` when there is none. */
  function IndexOf(s: string, pat: string): (r: Option<nat>)
    ensures r.Some? ==> OccursAt(s, pat, r.value)
    ensures r.Some? ==> forall j | 0 <= j < r.value :: !OccursAt(s, pat, j)
    ensures r.None? ==> forall j: nat :: !OccursAt(s, pat, j)
    decreases |s|
  {
    if |s| < |pat| then None
    else if s[..|pat|] == pat then Some(0)
    else
      var rest := IndexOf(s[1..], pat);
      assert forall j: nat :: OccursAt(s, pat, j + 1) == OccursAt(s[1..], pat, j) by {
        forall j: nat ensures OccursAt(s, pat, j + 1) == OccursAt(s[1..], pat, j) {
          if j + 1 + |pat| <= |s| {
            assert s[1..][j..j + |pat|] == s[j + 1..j + 1 + |pat|];
          }
        }
      }
      assert !OccursAt(s, pat, 0);
      match rest
      case None =>
        assert forall j: nat :: !OccursAt(s, pat, j) by {
          forall j: nat ensures !OccursAt(s, pat, j) {
            if j > 0 { assert !OccursAt(s[1..], pat, j - 1); }
          }
        }
        None
      case Some(k) =>
        assert forall j | 0 <= j < k + 1 :: !OccursAt(s, pat, j) by {
          forall j | 0 <= j < k + 1 ensures !OccursAt(s, pat, j) {
            if j > 0 { assert !OccursAt(s[1..], pat, j - 1); }
          }
        }
        Some(k + 1)
  }

  /** Python's `pat in s`. */
  predicate Contains(s: string, pat: string) {
    IndexOf(s, pat).Some?
  }

  /** The first occurrence is the only index `IndexOf` can return. */
  lemma IndexOfFirst(s: string, pat: string, k: nat)
    requires OccursAt(s, pat, k)
    requires forall j | 0 <= j < k :: !OccursAt(s, pat, j)
    ensures IndexOf(s, pat) == Some(k)
  {
  }

  /** A one-character pattern occurs exactly where that character is. */
  lemma ContainsChar(s: string, c: char)
    ensures Contains(s, [c]) <==> c in s
  {
    if c in s {
      var k :| 0 <= k < |s| && s[k] == c;
      assert s[k..k + 1] == [c];
      assert OccursAt(s, [c], k);
    }
    if Contains(s, [c]) {
      var k := IndexOf(s, [c]).value;
      assert s[k..k + 1] == [c];
      assert s[k] == c;
    }
  }

  /** When `s` starts with `p`, the occurrences in `p` are occurrences in `s`. */
  lemma OccursInPrefix(p: string, t: string, pat: string, j: nat)
    requires j + |pat| <= |p|
    ensures OccursAt(p + t, pat, j) <==> OccursAt(p, pat, j)
  {
    assert (p + t)[j..j + |pat|] == p[j..j + |pat|];
  }

  /** Occurrences in `t` are the occurrences in `p + t` shifted by `|p|`. */
  lemma OccursInSuffix(p: string, t: string, pat: string, j: nat)
    ensures OccursAt(p + t, pat, |p| + j) <==> OccursAt(t, pat, j)
  {
    if |p| + j + |pat| <= |p + t| {
      assert (p + t)[|p| + j..|p| + j + |pat|] == t[j..j + |pat|];
    }
  }

  /** A pattern cannot start inside a prefix lacking its first character. */
  lemma NoOccurrenceStartingIn(p: string, t: string, pat: string)
    requires pat != [] && pat[0] !in p
    ensures forall j: nat | j < |p| :: !OccursAt(p + t, pat, j)
  {
    forall j: nat | j < |p| ensures !OccursAt(p + t, pat, j) {
      assert j + |pat| <= |p + t| ==> (p + t)[j..j + |pat|][0] == p[j];
    }
  }

  /** If the pattern's first character appears nowhere in `p`, searching
      `p + t` finds exactly what searching `t` finds, shifted by `|p|`. */
  lemma {:induction false} IndexOfSkip(p: string, t: string, pat: string)
    requires pat != [] && pat[0] !in p
    ensures IndexOf(p + t, pat) == match IndexOf(t, pat)
                                   case None => None
                                   case Some(j) => Some(|p| + j)
  {
    NoOccurrenceStartingIn(p, t, pat);
    match IndexOf(t, pat) {
      case None =>
        forall j: nat ensures !OccursAt(p + t, pat, j) {
          if j >= |p| { OccursInSuffix(p, t, pat, j - |p|); }
        }
      case Some(k) =>
        OccursInSuffix(p, t, pat, k);
        forall j | 0 <= j < |p| + k ensures !OccursAt(p + t, pat, j) {
          if j >= |p| { OccursInSuffix(p, t, pat, j - |p|); }
        }
        IndexOfFirst(p + t, pat, |p| + k);
    }
  }

  /** A pattern whose first character does not recur inside it, absent from
      `p`, is first found where `t` begins when `t` starts with it. */
  lemma {:induction false} IndexOfAfterClean(p: string, t: string, pat: string)
    requires pat != [] && pat[0] !in pat[1..]
    requires !Contains(p, pat)
    requires OccursAt(t, pat, 0)
    ensures IndexOf(p + t, pat) == Some(|p|)
  {
    OccursInSuffix(p, t, pat, 0);
    forall j | 0 <= j < |p| ensures !OccursAt(p + t, pat, j) {
      if j + |pat| <= |p| {
        OccursInPrefix(p, t, pat, j);
      } else {
        var i := |p| - j;
        assert 0 < i < |pat| && pat[1..][i - 1] == pat[i];
        assert j + |pat| <= |p + t| ==> (p + t)[j..j + |pat|][i] == t[0];
        assert t[..|pat|][0] == t[0];
      }
    }
    IndexOfFirst(p + t, pat, |p|);
  }

  /** Python's `s.split(sep)[0]`: everything before the first `sep`, or all
      of `s` when it has none. */
  function SplitFirst(s: string, sep: string): (r: string)
    requires sep != []
    ensures r <= s && !Contains(r, sep)
    ensures r == s || OccursAt(s, sep, |r|)
    ensures r != s ==> IndexOf(s, sep) == Some(|r|)
  {
    match IndexOf(s, sep)
    case None =>
      s
    case Some(k) =>
      var r := s[..k];
      assert s == r + s[k..];
      forall j: nat ensures !OccursAt(r, sep, j) {
        if j + |sep| <= |r| { OccursInPrefix(r, s[k..], sep, j); }
      }
      r
  }

  /** Python's `s.split(sep)[1]`: the text between the first and the second
      `sep` (or the end); `None` where Python would raise `IndexError`
      because `sep` does not occur. */
  function SplitSecond(s: string, sep: string): (r: Option<string>)
    requires sep != []
    ensures r.None? <==> !Contains(s, sep)
    ensures r.Some? ==> !Contains(r.value, sep)
    ensures r.Some? ==>
      var after := s[IndexOf(s, sep).value + |sep|..];
      && r.value <= after
      && (r.value == after || IndexOf(after, sep) == Some(|r.value|))
  {
    match IndexOf(s, sep)
    case None => None
    case Some(k) => Some(SplitFirst(s[k + |sep|..], sep))
  }

  /** Splitting `p + t` at a separator whose first character is not in `p`
      keeps `p` whole. */
  lemma SplitFirstSkip(p: string, t: string, sep: string)
    requires sep != [] && sep[0] !in p
    ensures SplitFirst(p + t, sep) == p + SplitFirst(t, sep)
  {
    IndexOfSkip(p, t, sep);
    match IndexOf(t, sep) {
      case None =>
      case Some(j) =>
        assert (p + t)[..|p| + j] == p + t[..j];
    }
  }
}
