/**
 * The `str` methods the parsers rely on: `ends_with`, `strip_prefix` and
 * `trim_end_matches`, over strings as sequences of characters. `StartsWith`
 * is the test inside `strip_prefix`.
 */
module RustStr {
  import opened Wrappers

  predicate StartsWith(s: string, prefix: string) {
    |prefix| <= |s| && s[..|prefix|] == prefix
  }

  /** `s.ends_with(suffix)`: `suffix` matches a suffix of `s`, so `s` is what precedes it followed by `suffix`. */
  predicate EndsWith(s: string, suffix: string)
    ensures EndsWith(s, suffix) <==> |suffix| <= |s| && s == s[..|s| - |suffix|] + suffix
  {
    |suffix| <= |s| && s[|s| - |suffix|..] == suffix
  }

  /** A string ends with `suffix` exactly when it is some string followed by `suffix`. */
  lemma EndsWithSplit(s: string, suffix: string)
    ensures EndsWith(s, suffix) <==> exists t :: s == t + suffix
  {
    if EndsWith(s, suffix) {
      assert s == s[..|s| - |suffix|] + suffix;
    }
  }

  /** `s.strip_prefix(prefix)`: what follows `prefix`, when `s` starts with it. */
  function StripPrefix(s: string, prefix: string): (r: Option<string>)
    ensures r.Some? <==> StartsWith(s, prefix)
    ensures r.Some? ==> prefix + r.value == s
  {
    if StartsWith(s, prefix) then Some(s[|prefix|..]) else None
  }

  /** `k` copies of `p`, one after the other. */
  function Repeat(p: string, k: nat): string {
    if k == 0 then [] else Repeat(p, k - 1) + p
  }

  /**
   * `s.trim_end_matches(p)`: removes copies of `p` from the end of `s`
   * for as long as `s` ends with one. An empty pattern removes nothing;
   * a non-empty one leaves no copy of itself at the end.
   */
  function TrimEndMatches(s: string, p: string): (r: string)
    ensures |r| <= |s|
    ensures p == [] ==> r == s
    ensures p != [] ==> !EndsWith(r, p)
    decreases |s|
  {
    if p != [] && EndsWith(s, p) then TrimEndMatches(s[..|s| - |p|], p) else s
  }

  /** Appending `p` makes a string end with `p`, and dropping `|p|` characters undoes it. */
  lemma AppendedSuffix(x: string, p: string)
    ensures EndsWith(x + p, p)
    ensures (x + p)[..|x + p| - |p|] == x
  {
  }

  /** How many copies of `p` `trim_end_matches` removes from the end of `s`. */
  function TrimmedCopies(s: string, p: string): nat
    decreases |s|
  {
    if p != [] && EndsWith(s, p) then 1 + TrimmedCopies(s[..|s| - |p|], p) else 0
  }

  /** One more copy of the pattern goes at the end. */
  lemma AppendRepeat(r: string, p: string, k: nat)
    ensures r + Repeat(p, k + 1) == (r + Repeat(p, k)) + p
  {
    assert Repeat(p, k + 1) == Repeat(p, k) + p;
  }

  /** Trimming a string that ends with the pattern is trimming it without that copy. */
  lemma TrimEndMatchesStep(t: string, p: string)
    requires p != []
    ensures TrimEndMatches(t + p, p) == TrimEndMatches(t, p)
    ensures TrimmedCopies(t + p, p) == TrimmedCopies(t, p) + 1
  {
    AppendedSuffix(t, p);
  }

  /** What is trimmed is a whole number of copies of the pattern. */
  lemma {:induction false} TrimEndMatchesRemovesCopies(s: string, p: string)
    ensures s == TrimEndMatches(s, p) + Repeat(p, TrimmedCopies(s, p))
    decreases |s|
  {
    if p != [] && EndsWith(s, p) {
      var t := s[..|s| - |p|];
      assert s == t + p;
      TrimEndMatchesStep(t, p);
      TrimEndMatchesRemovesCopies(t, p);
      AppendRepeat(TrimEndMatches(t, p), p, TrimmedCopies(t, p));
    } else {
      assert s == TrimEndMatches(s, p) + [];
    }
  }

  /** Trimming `r` followed by one more copy of `p` gives what trimming `r` followed by the others gives. */
  lemma TrimEndMatchesOneMoreCopy(r: string, p: string, k: nat)
    requires p != [] && k >= 1
    ensures TrimEndMatches(r + Repeat(p, k), p) == TrimEndMatches(r + Repeat(p, k - 1), p)
  {
    AppendRepeat(r, p, k - 1);
    TrimEndMatchesStep(r + Repeat(p, k - 1), p);
  }

  /**
   * Conversely, appending any number of copies of a non-empty pattern to a
   * string that trimming leaves as it is (one that does not end with the
   * pattern) is undone exactly by trimming.
   */
  lemma {:induction false} TrimEndMatchesOfRepeat(r: string, p: string, k: nat)
    requires p != [] && TrimEndMatches(r, p) == r
    ensures TrimEndMatches(r + Repeat(p, k), p) == r
    decreases k
  {
    if k == 0 {
      assert r + Repeat(p, 0) == r;
    } else {
      TrimEndMatchesOfRepeat(r, p, k - 1);
      TrimEndMatchesOneMoreCopy(r, p, k);
    }
  }

  /** Copies of a one-character pattern: that many characters, each of them it. */
  lemma {:induction false} RepeatChar(c: char, k: nat)
    ensures |Repeat([c], k)| == k
    ensures forall i | 0 <= i < k :: Repeat([c], k)[i] == c
    decreases k
  {
    if k > 0 {
      RepeatChar(c, k - 1);
    }
  }
}
