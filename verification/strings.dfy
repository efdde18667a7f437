/** String helpers: Python's str.startswith, str.endswith, `in`, str.find and str.replace. */
module Strings {
  import opened Wrappers

  predicate StartsWith(s: string, prefix: string) {
    |prefix| <= |s| && s[..|prefix|] == prefix
  }

  predicate EndsWith(s: string, suffix: string) {
    |suffix| <= |s| && s[|s| - |suffix|..] == suffix
  }

  /** `pat in s`: pat is a prefix of some suffix of s. */
  predicate Contains(s: string, pat: string)
    decreases |s|
  {
    StartsWith(s, pat) || (s != [] && Contains(s[1..], pat))
  }

  /** `s.find(c)` for a single character, as an option instead of -1. */
  function FindChar(s: string, c: char): (r: Option<nat>)
    ensures r.Some? ==> r.value < |s| && s[r.value] == c && c !in s[..r.value]
    ensures r.None? ==> c !in s
  {
    if s == [] then None
    else if s[0] == c then Some(0)
    else match FindChar(s[1..], c)
      case None => None
      case Some(k) => assert s[..k + 1] == [s[0]] + s[1..][..k]; Some(k + 1)
  }

  /** `s.replace(pat, rep)`: every leftmost, non-overlapping occurrence of pat is replaced. */
  function ReplaceAll(s: string, pat: string, rep: string): string
    requires pat != []
    decreases |s|
  {
    if StartsWith(s, pat) then rep + ReplaceAll(s[|pat|..], pat, rep)
    else if s == [] then []
    else [s[0]] + ReplaceAll(s[1..], pat, rep)
  }

  /** The character in front of w finds c at index |w| when c does not occur in w. */
  lemma {:induction false} FindCharAfter(w: string, c: char, v: string)
    requires c !in w
    ensures FindChar(w + [c] + v, c) == Some(|w|)
  {
    if w != [] {
      assert (w + [c] + v)[1..] == w[1..] + [c] + v;
      FindCharAfter(w[1..], c, v);
    }
  }

  /** If u holds no copy of pat's first character, pat can only occur in u + x inside x. */
  lemma {:induction false} ContainsAppend(u: string, x: string, pat: string)
    requires pat != [] && pat[0] !in u && !Contains(x, pat)
    ensures !Contains(u + x, pat)
  {
    if u != [] {
      assert (u + x)[1..] == u[1..] + x;
      ContainsAppend(u[1..], x, pat);
    } else {
      assert u + x == x;
    }
  }

  /** A string with no occurrence of pat is left as it is by ReplaceAll. */
  lemma {:induction false} ReplaceAllAbsent(s: string, pat: string, rep: string)
    requires pat != [] && !Contains(s, pat)
    ensures ReplaceAll(s, pat, rep) == s
  {
    if s != [] {
      ReplaceAllAbsent(s[1..], pat, rep);
    }
  }

  /** A stretch without the first character of pat passes through ReplaceAll as it is. */
  lemma {:induction false} ReplaceAllPassesThrough(w: string, x: string, pat: string, rep: string)
    requires pat != [] && pat[0] !in w
    ensures ReplaceAll(w + x, pat, rep) == w + ReplaceAll(x, pat, rep)
  {
    if w == [] {
      assert w + x == x;
    } else {
      var s := w + x;
      assert s[0] == w[0] && w[0] != pat[0];
      assert !StartsWith(s, pat) by {
        if |pat| <= |s| {
          assert s[..|pat|][0] == s[0];
        }
      }
      assert ReplaceAll(s, pat, rep) == [w[0]] + ReplaceAll(s[1..], pat, rep);
      assert s[1..] == w[1..] + x;
      ReplaceAllPassesThrough(w[1..], x, pat, rep);
      assert [w[0]] + w[1..] == w;
    }
  }

  /** w + x does not start with pat when w and pat differ at some position inside both. */
  lemma NotStartsWithAt(w: string, x: string, pat: string, i: nat)
    requires i < |w| && i < |pat| && w[i] != pat[i]
    ensures !StartsWith(w + x, pat)
  {
    if |pat| <= |w + x| {
      assert (w + x)[..|pat|][i] == w[i];
    }
  }

  /** Where pat does not start, ReplaceAll copies the first character. */
  lemma ReplaceAllCopiesHead(s: string, pat: string, rep: string)
    requires pat != [] && s != [] && !StartsWith(s, pat)
    ensures ReplaceAll(s, pat, rep) == [s[0]] + ReplaceAll(s[1..], pat, rep)
  {
  }

  /** A stretch that does not open an occurrence of pat, and holds no other copy of pat's
      first character after its own first character c, passes through ReplaceAll as it is. */
  lemma ReplaceAllSkipsHead(c: char, v: string, x: string, pat: string, rep: string)
    requires pat != [] && pat[0] !in v && !StartsWith([c] + (v + x), pat)
    ensures ReplaceAll([c] + (v + x), pat, rep) == [c] + (v + ReplaceAll(x, pat, rep))
  {
    var s := [c] + (v + x);
    ReplaceAllCopiesHead(s, pat, rep);
    assert s[0] == c && s[1..] == v + x;
    ReplaceAllPassesThrough(v, x, pat, rep);
  }

  /** The same for a whole word w: when w + x does not start with pat and pat's first
      character does not occur in w after its head, w is copied as it is. */
  lemma ReplaceAllSkipsWord(w: string, x: string, pat: string, rep: string)
    requires pat != [] && w != [] && pat[0] !in w[1..] && !StartsWith(w + x, pat)
    ensures ReplaceAll(w + x, pat, rep) == w + ReplaceAll(x, pat, rep)
  {
    HeadTail(w, x);
    ReplaceAllSkipsHead(w[0], w[1..], x, pat, rep);
    HeadTail(w, ReplaceAll(x, pat, rep));
  }

  lemma HeadTail(w: string, x: string)
    requires w != []
    ensures w + x == [w[0]] + (w[1..] + x)
  {
    assert [w[0]] + w[1..] == w;
  }

  /** A prefix w of ReplaceAll's output that cannot overlap the first character of rep
      was already a prefix of the input: text before a replacement is copied as it is. */
  lemma {:induction false} ReplaceAllKeepsPrefix(s: string, pat: string, rep: string, w: string)
    requires pat != [] && rep != [] && rep[0] !in w
    requires StartsWith(ReplaceAll(s, pat, rep), w)
    ensures StartsWith(s, w)
  {
    if w != [] {
      var out := ReplaceAll(s, pat, rep);
      assert out[0] == w[0];
      if !StartsWith(s, pat) && s != [] {
        assert out == [s[0]] + ReplaceAll(s[1..], pat, rep);
        ReplaceAllKeepsPrefix(s[1..], pat, rep, w[1..]);
      }
    }
  }
}
