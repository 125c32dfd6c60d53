/** Character-level helpers standing in for the parts of Go's `strings` package the program calls. */
module Text {

  /** The number of occurrences of `c` in `s` (`strings.Count` with a one-character separator). */
  function Count(s: string, c: char): (n: nat)
    ensures n <= |s|
    ensures n == 0 <==> c !in s
  {
    if s == [] then 0 else Count(s[1..], c) + (if s[0] == c then 1 else 0)
  }

  lemma {:induction false} CountConcat(a: string, b: string, c: char)
    ensures Count(a + b, c) == Count(a, c) + Count(b, c)
  {
    if a != [] {
      assert (a + b)[1..] == a[1..] + b;
      CountConcat(a[1..], b, c);
    } else {
      assert a + b == b;
    }
  }

  /** The position of the first occurrence of `c` in `s`. */
  function FirstIndex(s: string, c: char): (k: nat)
    requires c in s
    ensures k < |s| && s[k] == c && c !in s[..k]
  {
    if s[0] == c then 0 else FirstIndex(s[1..], c) + 1
  }

  /** The first occurrence is the one with no occurrence before it. */
  lemma {:induction false} FirstIndexAt(s: string, c: char, k: nat)
    requires k < |s| && s[k] == c && c !in s[..k]
    ensures FirstIndex(s, c) == k
  {
    if k > 0 {
      assert s[0] == s[..k][0];
      assert s[1..][..k - 1] == s[..k][1..];
      FirstIndexAt(s[1..], c, k - 1);
    }
  }

  /** `strings.Contains(s, pat)`: does `pat` occur in `s` as a contiguous piece? */
  predicate Contains(s: string, pat: string)
    decreases |s|
  {
    if |s| < |pat| then false else s[..|pat|] == pat || Contains(s[1..], pat)
  }

  /** `pat` occurs in `s` starting at position `i`. */
  predicate OccursAt(s: string, pat: string, i: int)
  {
    0 <= i && i + |pat| <= |s| && s[i..i + |pat|] == pat
  }

  /** The recursive search agrees with the definition "some position holds `pat`". */
  lemma {:induction false} ContainsIff(s: string, pat: string)
    ensures Contains(s, pat) <==> exists i :: OccursAt(s, pat, i)
    decreases |s|
  {
    if |s| < |pat| {
      assert forall i :: !OccursAt(s, pat, i);
    } else if s[..|pat|] == pat {
      assert OccursAt(s, pat, 0);
    } else {
      ContainsIff(s[1..], pat);
      if Contains(s[1..], pat) {
        var i :| OccursAt(s[1..], pat, i);
        assert s[1..][i..i + |pat|] == s[i + 1..i + 1 + |pat|];
        assert OccursAt(s, pat, i + 1);
      }
      if exists i :: OccursAt(s, pat, i) {
        var i :| OccursAt(s, pat, i);
        assert i != 0;
        assert s[1..][i - 1..i - 1 + |pat|] == s[i..i + |pat|];
        assert OccursAt(s[1..], pat, i - 1);
      }
    }
  }
}
