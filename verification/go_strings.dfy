/** The three string operations of Go's `strings` package that the crawler relies on,
    stated on `seq<char>`. */
module GoStrings {

  /** `strings.HasPrefix(s, prefix)`. */
  predicate HasPrefix(s: string, prefix: string) {
    |prefix| <= |s| && s[..|prefix|] == prefix
  }

  /** `strings.HasSuffix(s, suffix)`. */
  predicate HasSuffix(s: string, suffix: string) {
    |suffix| <= |s| && s[|s| - |suffix|..] == suffix
  }

  /** `strings.Contains(s, sub)`: `sub` starts at the head of `s` or somewhere in its tail.
      Every string contains the empty string. */
  predicate Contains(s: string, sub: string)
    decreases |s|
  {
    HasPrefix(s, sub) || (s != [] && Contains(s[1..], sub))
  }

  /** `Contains` agrees with the reference definition "some offset of `s` starts with `sub`". */
  lemma {:induction false} ContainsAtSomeOffset(s: string, sub: string)
    ensures Contains(s, sub) <==> exists i :: 0 <= i <= |s| && HasPrefix(s[i..], sub)
    decreases |s|
  {
    if s == [] {
      assert forall i :: 0 <= i <= |s| ==> s[i..] == s;
    } else {
      ContainsAtSomeOffset(s[1..], sub);
      assert s[0..] == s;
      assert forall i :: 1 <= i <= |s| ==> s[1..][i - 1..] == s[i..];
      if Contains(s[1..], sub) {
        var k :| 0 <= k <= |s[1..]| && HasPrefix(s[1..][k..], sub);
        assert s[1..][k..] == s[k + 1..];
      }
    }
  }

  /** Whatever is put in front of a string, what it contained it still contains. */
  lemma {:induction false} ContainsAfterPrefix(front: string, s: string, sub: string)
    requires Contains(s, sub)
    ensures Contains(front + s, sub)
    decreases |front|
  {
    if front != [] {
      ContainsAfterPrefix(front[1..], s, sub);
      assert (front + s)[1..] == front[1..] + s;
    } else {
      assert front + s == s;
    }
  }

  /** A string contains its own prefix wherever it is embedded. */
  lemma ContainsEmbedded(front: string, sub: string, back: string)
    ensures Contains(front + sub + back, sub)
  {
    assert (sub + back)[..|sub|] == sub;
    ContainsAfterPrefix(front, sub + back, sub);
    assert front + sub + back == front + (sub + back);
  }

  /** `strings.Split(s, "?")[0]`: the part of `s` before its first '?', or all of `s` when
      it has none. The result is the longest prefix of `s` free of '?'. */
  function BeforeQuery(s: string): (r: string)
    ensures HasPrefix(s, r)
    ensures '?' !in r
    ensures |r| < |s| ==> s[|r|] == '?'
  {
    if s == [] || s[0] == '?' then [] else [s[0]] + BeforeQuery(s[1..])
  }

  /** The three facts in the contract of `BeforeQuery` single out its result. */
  lemma BeforeQueryUnique(s: string, r: string)
    requires HasPrefix(s, r)
    requires '?' !in r
    requires |r| < |s| ==> s[|r|] == '?'
    ensures r == BeforeQuery(s)
  {
  }

  /** A string with no '?' is left as it is. */
  lemma BeforeQueryNoQuery(s: string)
    requires '?' !in s
    ensures BeforeQuery(s) == s
  {
    assert s[..|s|] == s;
    BeforeQueryUnique(s, s);
  }

  /** Stripping the query is idempotent. */
  lemma BeforeQueryIdempotent(s: string)
    ensures BeforeQuery(BeforeQuery(s)) == BeforeQuery(s)
  {
    BeforeQueryNoQuery(BeforeQuery(s));
  }
}
