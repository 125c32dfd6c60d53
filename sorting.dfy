/**
 * Sorting by an integer key: the order `sort.Slice(items, less)` leaves behind when `less`
 * compares keys with `<`. The key is a parameter so that these facts hold whatever it computes.
 */
module Sorting {

  /** Non-decreasing by key. */
  ghost predicate SortedBy<T>(s: seq<T>, key: T -> int)
  {
    forall i, j :: 0 <= i < j < |s| ==> key(s[i]) <= key(s[j])
  }

  function InsertBy<T(==)>(x: T, s: seq<T>, key: T -> int): (r: seq<T>)
    requires SortedBy(s, key)
    ensures SortedBy(r, key) && multiset(r) == multiset(s) + multiset{x} && |r| == |s| + 1
    ensures r[0] == x || (s != [] && r[0] == s[0])
  {
    if s == [] || key(x) <= key(s[0]) then
      PrependSorted(x, s, key);
      [x] + s
    else
      SortedTail(s, key);
      var rest := InsertBy(x, s[1..], key);
      InsertBehind(x, s, rest, key);
      [s[0]] + rest
  }

  /** Dropping the first element keeps a sequence sorted, and the first is no larger than the second. */
  lemma SortedTail<T>(s: seq<T>, key: T -> int)
    requires SortedBy(s, key) && s != []
    ensures SortedBy(s[1..], key) && (|s| > 1 ==> key(s[0]) <= key(s[1]))
  {
  }

  /** The step of `InsertBy` when `x` goes behind the first element. */
  lemma InsertBehind<T>(x: T, s: seq<T>, rest: seq<T>, key: T -> int)
    requires SortedBy(s, key) && s != [] && key(s[0]) < key(x)
    requires SortedBy(rest, key) && multiset(rest) == multiset(s[1..]) + multiset{x} && |rest| == |s[1..]| + 1
    requires rest[0] == x || (s[1..] != [] && rest[0] == s[1..][0])
    ensures SortedBy([s[0]] + rest, key) && multiset([s[0]] + rest) == multiset(s) + multiset{x}
  {
    SortedTail(s, key);
    PrependSorted(s[0], rest, key);
    assert s == [s[0]] + s[1..];
    assert multiset(s) == multiset{s[0]} + multiset(s[1..]);
    assert multiset([s[0]] + rest) == multiset{s[0]} + multiset(rest);
  }

  /** Putting an element no larger than the first in front keeps a sequence sorted. */
  lemma PrependSorted<T>(y: T, s: seq<T>, key: T -> int)
    requires SortedBy(s, key) && (s == [] || key(y) <= key(s[0]))
    ensures SortedBy([y] + s, key)
  {
    var r := [y] + s;
    forall i, j | 0 <= i < j < |r| ensures key(r[i]) <= key(r[j]) {
      if i == 0 && j > 1 {
        assert key(s[0]) <= key(s[j - 1]);
      }
    }
  }

  /** A sorted rearrangement of `s` (insertion sort; it happens to keep equal keys in input order). */
  function SortBy<T(==)>(s: seq<T>, key: T -> int): (r: seq<T>)
    ensures SortedBy(r, key) && multiset(r) == multiset(s) && |r| == |s|
  {
    if s == [] then []
    else
      assert s == [s[0]] + s[1..];
      InsertBy(s[0], SortBy(s[1..], key), key)
  }

  /** Appending an element no smaller than every element keeps a sequence sorted. */
  lemma AppendSorted<T>(s: seq<T>, x: T, key: T -> int)
    requires SortedBy(s, key) && forall y :: y in s ==> key(y) <= key(x)
    ensures SortedBy(s + [x], key)
  {
    var r := s + [x];
    forall i, j | 0 <= i < j < |r| ensures key(r[i]) <= key(r[j]) {
      if j == |s| {
        assert r[i] in s;
      }
    }
  }

  /** Removing one element keeps a sequence sorted. */
  lemma RemoveKeepsSorted<T>(b: seq<T>, i: nat, key: T -> int)
    requires SortedBy(b, key) && i < |b|
    ensures SortedBy(b[..i] + b[i + 1..], key)
  {
    var b2 := b[..i] + b[i + 1..];
    forall x, y | 0 <= x < y < |b2| ensures key(b2[x]) <= key(b2[y]) {
      var x' := if x < i then x else x + 1;
      var y' := if y < i then y else y + 1;
      assert b2[x] == b[x'] && b2[y] == b[y'];
    }
  }

  lemma RemoveAtMultiset<T>(b: seq<T>, i: nat)
    requires i < |b|
    ensures multiset(b[..i] + b[i + 1..]) == multiset(b) - multiset{b[i]}
  {
    assert b == b[..i] + [b[i]] + b[i + 1..];
  }

  /** Dropping the same element from two permutations of each other leaves permutations. */
  lemma DropMatching<T>(a: seq<T>, b: seq<T>, i: nat)
    requires multiset(a) == multiset(b) && a != [] && i < |b| && b[i] == a[0]
    ensures multiset(a[1..]) == multiset(b[..i] + b[i + 1..])
  {
    assert a[..0] + a[1..] == a[1..];
    RemoveAtMultiset(a, 0);
    RemoveAtMultiset(b, i);
    assert multiset(a[1..]) == multiset(a) - multiset{a[0]};
  }

  /** Dropping a[0] from a and its copy at position i from b leaves sorted permutations of each other. */
  lemma DropFirstMatch<T>(a: seq<T>, b: seq<T>, i: nat, key: T -> int)
    requires SortedBy(a, key) && SortedBy(b, key) && multiset(a) == multiset(b)
    requires a != [] && i < |b| && b[i] == a[0]
    ensures var a', b2 := a[1..], b[..i] + b[i + 1..];
      SortedBy(a', key) && SortedBy(b2, key) && multiset(a') == multiset(b2)
  {
    DropMatching(a, b, i);
    RemoveKeepsSorted(a, 0, key);
    assert a[..0] + a[1..] == a[1..];
    RemoveKeepsSorted(b, i, key);
  }

  /** a[0] sits in b at some position i, and b up to i carries a[0]'s key. */
  lemma SameFirstKey<T>(a: seq<T>, b: seq<T>, key: T -> int) returns (i: nat)
    requires SortedBy(a, key) && SortedBy(b, key) && multiset(a) == multiset(b) && a != []
    ensures i < |b| && b[i] == a[0]
    ensures forall k :: 0 <= k <= i ==> key(b[k]) == key(a[0])
  {
    assert a[0] in multiset(b);
    i :| 0 <= i < |b| && b[i] == a[0];
    assert b[0] in multiset(a);
    var j :| 0 <= j < |a| && a[j] == b[0];
    assert key(a[0]) <= key(a[j]);
  }

  /** Putting a[0] back in front of a' and at position i of b keeps the keys aligned. */
  lemma Reassemble<T>(a: seq<T>, b: seq<T>, i: nat, key: T -> int)
    requires |a| == |b| && i < |b| && a != []
    requires forall k :: 0 <= k <= i ==> key(b[k]) == key(a[0])
    requires forall k :: 0 <= k < |a| - 1 ==> key(a[1..][k]) == key((b[..i] + b[i + 1..])[k])
    ensures forall k :: 0 <= k < |a| ==> key(a[k]) == key(b[k])
  {
    var a', b2 := a[1..], b[..i] + b[i + 1..];
    forall k | 1 <= k < |a| ensures key(a[k]) == key(b[k]) {
      var k' := k - 1;
      assert a[k] == a'[k'];
      assert key(a'[k']) == key(b2[k']);
      if k <= i {
        assert b2[k'] == b[k'];
      } else {
        assert b2[k'] == b[k];
      }
    }
  }

  /**
   * Two sorted arrangements of the same elements list the same keys in the same order:
   * whatever order an unstable sort leaves equal keys in, the sequence of keys is fixed.
   */
  lemma {:induction false} SortedKeysUnique<T>(a: seq<T>, b: seq<T>, key: T -> int)
    requires SortedBy(a, key) && SortedBy(b, key) && multiset(a) == multiset(b)
    ensures |a| == |b| && forall k :: 0 <= k < |a| ==> key(a[k]) == key(b[k])
    decreases |a|
  {
    assert |a| == |b| by {
      assert |a| == |multiset(a)| == |multiset(b)| == |b|;
    }
    if a != [] {
      var i := SameFirstKey(a, b, key);
      DropFirstMatch(a, b, i, key);
      SortedKeysUnique(a[1..], b[..i] + b[i + 1..], key);
      Reassemble(a, b, i, key);
    }
  }
}
