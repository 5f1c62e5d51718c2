/**
 * Names in an archive: which are safe to write, and the order a manifest lists
 * them in.
 */
module ArchiveNames {

  // --- Safe names ---------------------------------------------------------

  const LONGEST_NAME := 512

  predicate DriveLetter(c: char) { 'a' <= c <= 'z' || 'A' <= c <= 'Z' }

  /** The name's components, cut at each slash. */
  function Split(name: string): (parts: seq<string>)
    ensures parts != []
    decreases |name|
  {
    if name == "" then [""]
    else
      var rest := Split(name[1..]);
      if name[0] == '/' then [""] + rest else [[name[0]] + rest[0]] + rest[1..]
  }

  function Join(parts: seq<string>): string
    requires parts != []
    decreases |parts|
  {
    if |parts| == 1 then parts[0] else parts[0] + "/" + Join(parts[1..])
  }

  predicate IsSafe(name: string) {
    && name != "" && |name| <= LONGEST_NAME
    && name[0] != '/'
    && !(|name| >= 2 && DriveLetter(name[0]) && name[1] == ':')
    && ".." !in Split(name)
    && '\\' !in name && '\0' !in name
  }

  /** The components are the name's own, and no slash hides in one. */
  lemma {:induction false} SplitIsFaithful(name: string)
    ensures Join(Split(name)) == name
    ensures forall i :: 0 <= i < |Split(name)| ==> '/' !in Split(name)[i]
    decreases |name|
  {
    if name != "" {
      SplitIsFaithful(name[1..]);
      var rest := Split(name[1..]);
      assert name == [name[0]] + name[1..];
      if name[0] == '/' {
        assert ([""] + rest)[1..] == rest;
      } else {
        assert Split(name)[1..] == rest[1..];
      }
    }
  }

  // --- A name's characters ----------------------------------------------------

  /** A component of the name, from `i` up to `j`: no slash in it, and a slash or an end on either side. */
  ghost predicate PartAt(name: string, i: nat, j: nat) {
    && i <= j <= |name| && '/' !in name[i..j]
    && (i == 0 || name[i - 1] == '/') && (j == |name| || name[j] == '/')
  }

  lemma PartsOfTheRest(name: string, i: nat, j: nat)
    requires name != "" && 1 <= i <= j <= |name|
    ensures name[1..][i - 1..j - 1] == name[i..j]
    ensures (i > 1 || name[0] == '/') ==> (PartAt(name, i, j) <==> PartAt(name[1..], i - 1, j - 1))
  {}

  lemma {:induction false} EachComponentIsAPart(name: string, k: nat) returns (i: nat, j: nat)
    requires k < |Split(name)|
    ensures PartAt(name, i, j) && name[i..j] == Split(name)[k] && (k == 0 <==> i == 0)
    decreases |name|
  {
    if name == "" {
      i, j := 0, 0;
    } else if name[0] == '/' {
      if k == 0 {
        i, j := 0, 0;
      } else {
        i, j := EachComponentIsAPart(name[1..], k - 1);
        i, j := i + 1, j + 1;
        PartsOfTheRest(name, i, j);
      }
    } else {
      i, j := EachComponentIsAPart(name[1..], k);
      assert k > 0 ==> Split(name)[k] == Split(name[1..])[k];
      PartsOfTheRest(name, i + 1, j + 1);
      if k == 0 {
        j := j + 1;
        assert name[0..j] == [name[0]] + name[1..][0..j - 1];
      } else {
        i, j := i + 1, j + 1;
      }
    }
  }

  lemma {:induction false} EachPartIsAComponent(name: string, i: nat, j: nat) returns (k: nat)
    requires PartAt(name, i, j)
    ensures k < |Split(name)| && Split(name)[k] == name[i..j] && (k == 0 <==> i == 0)
    decreases |name|
  {
    if name == "" {
      k := 0;
    } else if i == 0 {
      k := 0;
      if name[0] == '/' {
        assert j == 0;
      } else {
        assert name[1..][0..j - 1] == name[0..j][1..];
        var rest := EachPartIsAComponent(name[1..], 0, j - 1);
        assert name[0..j] == [name[0]] + name[1..][0..j - 1];
      }
    } else {
      PartsOfTheRest(name, i, j);
      var rest := EachPartIsAComponent(name[1..], i - 1, j - 1);
      k := if name[0] == '/' then rest + 1 else rest;
    }
  }

  /** Two dots at `i`, with a slash or an end on either side. */
  predicate DotsAt(name: string, i: nat) {
    && i + 2 <= |name| && name[i] == '.' && name[i + 1] == '.'
    && (i == 0 || name[i - 1] == '/') && (i + 2 == |name| || name[i + 2] == '/')
  }

  /**
   * A name anybody may write: some characters and not too many, no slash in
   * front and no drive, no backslash, no NUL, and nowhere two dots between
   * slashes or ends.
   */
  ghost predicate Harmless(name: string) {
    && 0 < |name| <= 512
    && name[0] != '/'
    && (|name| >= 2 && name[1] == ':' ==> !('a' <= name[0] <= 'z') && !('A' <= name[0] <= 'Z'))
    && (forall i :: 0 <= i < |name| ==> name[i] != '\\' && name[i] != '\0')
    && forall i :: 0 <= i < |name| ==> !DotsAt(name, i)
  }

  lemma TwoDotsAreAPart(name: string, i: nat, j: nat)
    ensures DotsAt(name, i) ==> PartAt(name, i, i + 2) && name[i..i + 2] == ".."
    ensures PartAt(name, i, j) && name[i..j] == ".." ==> j == i + 2 && DotsAt(name, i)
  {
    if PartAt(name, i, j) && name[i..j] == ".." {
      assert name[i..j][0] == name[i] && name[i..j][1] == name[i + 1];
    }
  }

  lemma DotsAreAComponent(name: string)
    ensures ".." in Split(name) <==> exists i: nat :: DotsAt(name, i)
  {
    hide Split, PartAt, DotsAt;
    if k :| 0 <= k < |Split(name)| && Split(name)[k] == ".." {
      var i, j := EachComponentIsAPart(name, k);
      TwoDotsAreAPart(name, i, j);
    }
    if i: nat :| DotsAt(name, i) {
      TwoDotsAreAPart(name, i, i + 2);
      var k := EachPartIsAComponent(name, i, i + 2);
    }
  }

  /** The test refuses exactly the names that are not. */
  lemma SafeIsHarmless(name: string)
    ensures IsSafe(name) <==> Harmless(name)
  {
    DotsAreAComponent(name);
    hide Split;
    assert forall i: nat :: DotsAt(name, i) ==> i < |name|;
  }

  // --- Where a name leads -------------------------------------------------------

  /** The name's components where a backslash cuts as well. */
  function SplitAtEither(name: string): (parts: seq<string>)
    ensures parts != []
    decreases |name|
  {
    if name == "" then [""]
    else
      var rest := SplitAtEither(name[1..]);
      if name[0] == '/' || name[0] == '\\' then [""] + rest else [[name[0]] + rest[0]] + rest[1..]
  }

  lemma {:induction false} WithoutBackslashesEitherIsSlash(name: string)
    requires '\\' !in name
    ensures SplitAtEither(name) == Split(name)
    decreases |name|
  {
    if name != "" { WithoutBackslashesEitherIsSlash(name[1..]); }
  }

  /** Where a path stands below where it started, once its components are followed. */
  function Depth(parts: seq<string>): int
    decreases |parts|
  {
    if parts == [] then 0
    else
      var last := parts[|parts| - 1];
      Depth(parts[..|parts| - 1]) + (if last == ".." then -1 else if last == "" || last == "." then 0 else 1)
  }

  /** A name no component of which is two dots never climbs above where it is written. */
  lemma {:induction false} WithoutDotsNothingClimbs(parts: seq<string>, n: nat)
    requires ".." !in parts && n <= |parts|
    ensures Depth(parts[..n]) >= 0
    decreases n
  {
    if n > 0 {
      WithoutDotsNothingClimbs(parts, n - 1);
      assert parts[..n][..n - 1] == parts[..n - 1];
      assert parts[n - 1] in parts;
    }
  }

  /**
   * A safe name starts at no root and no drive, holds no NUL, and followed
   * component by component, cut at slashes and backslashes alike, never climbs
   * above where it is written.
   */
  lemma ASafeNameStaysInside(name: string, n: nat)
    requires IsSafe(name) && n <= |SplitAtEither(name)|
    ensures name[0] != '/' && name[0] != '\\' && SplitAtEither(name)[0] != ""
    ensures |name| >= 2 && name[1] == ':' ==> !('a' <= name[0] <= 'z') && !('A' <= name[0] <= 'Z')
    ensures '\0' !in name
    ensures Depth(SplitAtEither(name)[..n]) >= 0
  {
    WithoutBackslashesEitherIsSlash(name);
    WithoutDotsNothingClimbs(Split(name), n);
    hide Depth;
  }

  // --- The order ----------------------------------------------------------

  type Compare = (string, string) -> int

  /** What `localeCompare` is taken to be: a weak order, in which distinct names may tie. */
  ghost predicate WeakOrder(locale: Compare) {
    && (forall a, b :: locale(a, b) < 0 <==> locale(b, a) > 0)
    && (forall a, b, c :: locale(a, b) <= 0 && locale(b, c) <= 0 ==> locale(a, c) <= 0)
  }

  /** Code unit by code unit, as strings compare. */
  predicate Less(a: string, b: string)
    decreases |a|
  {
    b != "" && (a == "" || a[0] < b[0] || (a[0] == b[0] && Less(a[1..], b[1..])))
  }

  function ByName(locale: Compare, a: string, b: string): int {
    if locale(a, b) != 0 then locale(a, b) else if Less(a, b) then -1 else if Less(b, a) then 1 else 0
  }

  lemma {:induction false} LessIsTotal(a: string, b: string)
    ensures (if Less(a, b) then 1 else 0) + (if Less(b, a) then 1 else 0) + (if a == b then 1 else 0) == 1
    decreases |a|
  {
    if a != "" && b != "" && a[0] == b[0] {
      LessIsTotal(a[1..], b[1..]);
      assert a == [a[0]] + a[1..] && b == [b[0]] + b[1..];
    }
  }

  lemma {:induction false} LessIsTransitive(a: string, b: string, c: string)
    requires Less(a, b) && Less(b, c)
    ensures Less(a, c)
    decreases |a|
  {
    if a != "" && a[0] == b[0] && b[0] == c[0] { LessIsTransitive(a[1..], b[1..], c[1..]); }
  }

  /** Given only that `localeCompare` is a weak order, `byName` is a strict total order: distinct names never tie. */
  lemma ByNameIsAStrictTotalOrder(locale: Compare, a: string, b: string, c: string)
    requires WeakOrder(locale)
    ensures ByName(locale, a, b) == 0 <==> a == b
    ensures ByName(locale, a, b) < 0 <==> ByName(locale, b, a) > 0
    ensures ByName(locale, a, b) < 0 && ByName(locale, b, c) < 0 ==> ByName(locale, a, c) < 0
  {
    LessIsTotal(a, b);
    LessIsTotal(b, c);
    LessIsTotal(a, c);
    if ByName(locale, a, b) < 0 && ByName(locale, b, c) < 0 {
      if locale(a, b) == 0 && locale(b, c) == 0 { LessIsTransitive(a, b, c); }
    }
  }

  /** The locale decides where it can; where it ties, the first character to differ does, or the shorter name. */
  lemma ByNameAsksTheLocaleFirst(locale: Compare, a: string, b: string, n: nat)
    requires WeakOrder(locale) && n <= |a| && n <= |b| && a[..n] == b[..n]
    ensures locale(a, b) < 0 ==> ByName(locale, a, b) < 0
    ensures locale(a, b) == 0 && n < |a| && n < |b| && a[n] < b[n] ==> ByName(locale, a, b) < 0
    ensures locale(a, b) == 0 && n == |a| < |b| ==> ByName(locale, a, b) < 0
  {
    LessIsByTheFirstDifference(a, b, n);
  }

  lemma {:induction false} LessIsByTheFirstDifference(a: string, b: string, n: nat)
    requires n <= |a| && n <= |b| && a[..n] == b[..n]
    ensures n < |a| && n < |b| && a[n] < b[n] ==> Less(a, b)
    ensures n == |a| < |b| ==> Less(a, b)
    decreases n
  {
    if n > 0 {
      assert a[0] == a[..n][0] == b[..n][0] == b[0];
      assert a[1..][..n - 1] == a[..n][1..] == b[..n][1..] == b[1..][..n - 1];
      LessIsByTheFirstDifference(a[1..], b[1..], n - 1);
    }
  }

  predicate AtMost(locale: Compare, a: string, b: string) { ByName(locale, a, b) <= 0 }

  ghost predicate InOrder(locale: Compare, names: seq<string>) {
    forall i, j :: 0 <= i < j < |names| ==> AtMost(locale, names[i], names[j])
  }

  function Insert(locale: Compare, name: string, sorted: seq<string>): seq<string>
    decreases sorted
  {
    if sorted == [] || AtMost(locale, name, sorted[0]) then [name] + sorted
    else [sorted[0]] + Insert(locale, name, sorted[1..])
  }

  /** The names sorted by `byName`. */
  function Sort(locale: Compare, names: seq<string>): seq<string>
    decreases names
  {
    if names == [] then [] else Insert(locale, names[0], Sort(locale, names[1..]))
  }

  lemma {:induction false} InsertKeepsOrder(locale: Compare, name: string, sorted: seq<string>)
    requires WeakOrder(locale) && InOrder(locale, sorted)
    ensures InOrder(locale, Insert(locale, name, sorted))
    ensures multiset(Insert(locale, name, sorted)) == multiset(sorted) + multiset{name}
    decreases sorted
  {
    hide ByName, WeakOrder;
    if sorted == [] {
    } else if AtMost(locale, name, sorted[0]) {
      forall i | 0 <= i < |sorted| ensures AtMost(locale, name, sorted[i]) {
        if i > 0 { AtMostIsTransitive(locale, name, sorted[0], sorted[i]); }
      }
    } else {
      InsertKeepsOrder(locale, name, sorted[1..]);
      assert sorted == [sorted[0]] + sorted[1..];
      AtMostIsTotal(locale, name, sorted[0]);
      var rest := Insert(locale, name, sorted[1..]);
      forall i | 0 <= i < |rest| ensures AtMost(locale, sorted[0], rest[i]) {
        assert rest[i] in multiset(rest);
        assert rest[i] in multiset(sorted[1..]) || rest[i] == name;
      }
    }
  }

  lemma AtMostIsTransitive(locale: Compare, a: string, b: string, c: string)
    requires WeakOrder(locale) && AtMost(locale, a, b) && AtMost(locale, b, c)
    ensures AtMost(locale, a, c)
  {
    ByNameIsAStrictTotalOrder(locale, a, b, c);
    ByNameIsAStrictTotalOrder(locale, b, c, a);
  }

  lemma AtMostIsTotal(locale: Compare, a: string, b: string)
    requires WeakOrder(locale)
    ensures AtMost(locale, a, b) || AtMost(locale, b, a)
    ensures AtMost(locale, a, b) && AtMost(locale, b, a) ==> a == b
  {
    ByNameIsAStrictTotalOrder(locale, a, b, a);
  }

  lemma {:induction false} SortSorts(locale: Compare, names: seq<string>)
    requires WeakOrder(locale)
    ensures InOrder(locale, Sort(locale, names)) && multiset(Sort(locale, names)) == multiset(names)
    decreases names
  {
    hide AtMost, WeakOrder;
    if names != [] {
      SortSorts(locale, names[1..]);
      InsertKeepsOrder(locale, names[0], Sort(locale, names[1..]));
      assert names == [names[0]] + names[1..];
    }
  }

  lemma TheLeastComesFirst(locale: Compare, a: seq<string>, b: seq<string>)
    requires WeakOrder(locale) && InOrder(locale, a) && InOrder(locale, b) && multiset(a) == multiset(b) && a != []
    ensures b != [] && a[0] == b[0]
  {
    hide AtMost, WeakOrder;
    assert a[0] in multiset(b);
    var i :| 0 <= i < |b| && b[i] == a[0];
    assert b[0] in multiset(a);
    var j :| 0 <= j < |a| && a[j] == b[0];
    AtMostIsTotal(locale, a[0], b[0]);
  }

  lemma TheRestHoldTheRest(s: seq<string>)
    requires s != []
    ensures multiset(s[1..]) == multiset(s) - multiset{s[0]}
  {
    assert s == [s[0]] + s[1..];
  }

  /** Two lists in order holding the same names are the same list. */
  lemma {:induction false} OneOrderOnly(locale: Compare, a: seq<string>, b: seq<string>)
    requires WeakOrder(locale) && InOrder(locale, a) && InOrder(locale, b) && multiset(a) == multiset(b)
    ensures a == b
    decreases |a|
  {
    hide AtMost, WeakOrder;
    if a == [] {
      assert |multiset(b)| == |b|;
    } else {
      TheLeastComesFirst(locale, a, b);
      TheRestHoldTheRest(a);
      TheRestHoldTheRest(b);
      OneOrderOnly(locale, a[1..], b[1..]);
      assert a == [a[0]] + a[1..] && b == [b[0]] + b[1..];
    }
  }

  /** Whatever order the names come in, and whatever sort is used, they are listed one way. */
  lemma SortIgnoresInputOrder(locale: Compare, a: seq<string>, b: seq<string>)
    requires WeakOrder(locale) && multiset(a) == multiset(b)
    ensures Sort(locale, a) == Sort(locale, b)
  {
    SortSorts(locale, a);
    SortSorts(locale, b);
    OneOrderOnly(locale, Sort(locale, a), Sort(locale, b));
  }
}
