/** What the other modules share: an optional value, and times in milliseconds and how sets compare. */
module Wrappers {

  datatype Option<+T> = None | Some(value: T)

  /** A moment, or a span of time, in milliseconds. */
  type Time = int

  const MINUTE: Time := 60_000
  const DAY: Time := 24 * 60 * MINUTE

  function Min(a: int, b: int): int { if a <= b then a else b }

  function Max(a: int, b: int): int { if a >= b then a else b }

  lemma SmallerSet<T>(small: set<T>, large: set<T>)
    requires small <= large
    ensures |small| <= |large|
  {
    if x :| x in small { SmallerSet(small - {x}, large - {x}); }
  }

  lemma TwicePresent<T>(s: seq<T>, i: nat, j: nat)
    requires i < j < |s| && s[i] == s[j]
    ensures multiset(s)[s[i]] >= 2
  {
    assert s == s[..j] + [s[j]] + s[j + 1..];
    assert s[..j][i] == s[i];
  }
}
