/**
 * The addresses an account has been signed in to from: which of them the
 * sign-in check counts, and what the daily prune may remove.
 *
 * The check filters by age, sorts and takes the first twenty; the prune deletes
 * by age or by twenty newer rows. They are proved to draw the same line.
 */
module FamiliarAddresses {
  import opened Wrappers
  import opened Lockout

  /** An address, as its place in the database's text order. */
  type Address = int

  /** The table's primary key; the value held under it is the last right password's time. */
  datatype Held = Held(user: User, address: Address)

  type Table = map<Held, Time>

  const FAMILIAR_FOR := 90 * DAY
  const FAMILIAR_AT_MOST := 20

  /** `order by last_right_at desc, address`: whether the first comes before the second. */
  predicate Newer(at: Time, address: Address, than: Time, thanAddress: Address) {
    at > than || (at == than && address < thanAddress)
  }

  /** The account's rows ahead of a place in that order. */
  function NewerThan(table: Table, user: User, at: Time, address: Address): set<Held> {
    set h | h in table && h.user == user && Newer(table[h], h.address, at, address)
  }

  predicate InDate(at: Time, now: Time) { at > now - FAMILIAR_FOR }

  /** The rows the query's `where` leaves. */
  function Recent(table: Table, user: User, now: Time): set<Held> {
    set h | h in table && h.user == user && InDate(table[h], now)
  }

  predicate OfOne(table: Table, user: User, rows: set<Held>) {
    forall h :: h in rows ==> h in table && h.user == user
  }

  predicate IsFirst(table: Table, rows: set<Held>, h: Held)
    requires rows <= table.Keys
  {
    h in rows && forall g :: g in rows && g != h ==> Newer(table[h], h.address, table[g], g.address)
  }

  lemma SomeRowIsFirst(table: Table, user: User, rows: set<Held>)
    requires OfOne(table, user, rows) && rows != {}
    ensures exists h :: IsFirst(table, rows, h)
    decreases rows
  {
    var g :| g in rows;
    if rows == {g} {
      assert IsFirst(table, rows, g);
    } else {
      SomeRowIsFirst(table, user, rows - {g});
      var h :| IsFirst(table, rows - {g}, h);
      assert IsFirst(table, rows, if Newer(table[g], g.address, table[h], h.address) then g else h);
    }
  }

  /** The rows in query order. */
  function Sorted(table: Table, user: User, rows: set<Held>): (s: seq<Held>)
    requires OfOne(table, user, rows)
    ensures |s| == |rows| && forall h :: h in s <==> h in rows
    decreases rows
  {
    if rows == {} then []
    else
      SomeRowIsFirst(table, user, rows);
      var first :| IsFirst(table, rows, first);
      [first] + Sorted(table, user, rows - {first})
  }

  function Take(list: seq<Held>, n: nat): seq<Held> { list[..Min(n, |list|)] }

  /** The query: filter, sort, take twenty, and look for the address. */
  predicate FamiliarTo(table: Table, user: User, address: Address, now: Time) {
    Held(user, address) in Take(Sorted(table, user, Recent(table, user, now)), FAMILIAR_AT_MOST)
  }

  /** The prune's `delete ... where`: too old, or twenty of the account's rows are newer. */
  predicate Pruned(table: Table, h: Held, now: Time)
    requires h in table
  {
    !InDate(table[h], now) || |NewerThan(table, h.user, table[h], h.address)| >= FAMILIAR_AT_MOST
  }

  function Prune(table: Table, now: Time): Table {
    map h | h in table && !Pruned(table, h, now) :: table[h]
  }

  /** A right password from the address: the upsert on the pair. */
  function Renewed(table: Table, user: User, address: Address, now: Time): Table {
    table[Held(user, address) := now]
  }

  // --- The query and the prune draw one line ------------------------------

  function Ahead(table: Table, rows: set<Held>, h: Held): set<Held>
    requires rows <= table.Keys && h in table
  {
    set g | g in rows && Newer(table[g], g.address, table[h], h.address)
  }

  lemma SortedStartsWithTheFirst(table: Table, user: User, rows: set<Held>) returns (first: Held)
    requires OfOne(table, user, rows) && rows != {}
    ensures IsFirst(table, rows, first)
    ensures Sorted(table, user, rows) == [first] + Sorted(table, user, rows - {first})
  {
    SomeRowIsFirst(table, user, rows);
    first := Sorted(table, user, rows)[0];
  }

  lemma TheFirstIsAheadOfTheRest(table: Table, rows: set<Held>, first: Held, h: Held)
    requires rows <= table.Keys && IsFirst(table, rows, first) && h in rows && h != first
    ensures |Ahead(table, rows, h)| == |Ahead(table, rows - {first}, h)| + 1
  {
    assert Ahead(table, rows, h) == Ahead(table, rows - {first}, h) + {first};
  }

  lemma TheFirstIsTaken(table: Table, rows: set<Held>, first: Held, rest: seq<Held>, n: nat)
    requires rows <= table.Keys && IsFirst(table, rows, first)
    ensures first in Take([first] + rest, n) <==> |Ahead(table, rows, first)| < n
  {
    assert Ahead(table, rows, first) == {};
    if n > 0 { assert Take([first] + rest, n)[0] == first; }
  }

  lemma TakingAfterTheFirst(first: Held, rest: seq<Held>, n: nat, h: Held)
    requires h != first
    ensures h in Take([first] + rest, n) <==> n > 0 && h in Take(rest, n - 1)
  {
    if n > 0 { assert Take([first] + rest, n) == [first] + Take(rest, n - 1); }
  }

  /** Taking `n` from a sorted list takes exactly the rows with fewer than `n` ahead of them. */
  lemma {:induction false} TakingCountsTheRowsAhead(table: Table, user: User, rows: set<Held>, n: nat, h: Held)
    requires OfOne(table, user, rows) && h in rows
    ensures h in Take(Sorted(table, user, rows), n) <==> |Ahead(table, rows, h)| < n
    decreases rows
  {
    hide Ahead, Take, Sorted, IsFirst;
    var first := SortedStartsWithTheFirst(table, user, rows);
    if h == first {
      TheFirstIsTaken(table, rows, first, Sorted(table, user, rows - {first}), n);
    } else {
      TakingAfterTheFirst(first, Sorted(table, user, rows - {first}), n, h);
      TheFirstIsAheadOfTheRest(table, rows, first, h);
      if n > 0 { TakingCountsTheRowsAhead(table, user, rows - {first}, n - 1, h); }
    }
  }

  /** The query's answer, without the sort: in date, and fewer than twenty of the account's rows are newer. */
  lemma FamiliarWhenFewAreNewer(table: Table, user: User, address: Address, now: Time)
    ensures var h := Held(user, address);
            FamiliarTo(table, user, address, now) <==>
              h in table && InDate(table[h], now)
              && |NewerThan(table, user, table[h], address)| < FAMILIAR_AT_MOST
  {
    var h, recent := Held(user, address), Recent(table, user, now);
    if h in recent {
      TakingCountsTheRowsAhead(table, user, recent, FAMILIAR_AT_MOST, h);
      assert Ahead(table, recent, h) == NewerThan(table, user, table[h], address);
    }
  }

  /** Right after a prune an account's rows are exactly the addresses the query counts. */
  lemma PruneKeepsExactlyTheFamiliar(table: Table, user: User, address: Address, now: Time)
    ensures Held(user, address) in Prune(table, now) <==> FamiliarTo(table, user, address, now)
  {
    FamiliarWhenFewAreNewer(table, user, address, now);
  }

  /** And they are no more than twenty. */
  lemma PruneLeavesAtMostTwenty(table: Table, user: User, now: Time)
    ensures |set h | h in Prune(table, now) && h.user == user| <= FAMILIAR_AT_MOST
  {
    var kept := set h | h in Prune(table, now) && h.user == user;
    var recent := Recent(table, user, now);
    var top := Take(Sorted(table, user, recent), FAMILIAR_AT_MOST);
    forall h | h in kept ensures h in top {
      PruneKeepsExactlyTheFamiliar(table, user, h.address, now);
    }
    FitsIn(kept, top);
  }

  lemma FitsIn<T>(s: set<T>, list: seq<T>)
    requires forall x :: x in s ==> x in list
    ensures |s| <= |list|
  {
    if list == [] {
      assert s == {};
    } else {
      FitsIn(s - {list[0]}, list[1..]);
    }
  }

  // --- Pruning changes no later answer ------------------------------------

  /** Not counted at `clock` nor at any later moment: too old, or outranked in `table` as it stands. */
  ghost predicate OutOfReach(table: Table, user: User, at: Time, address: Address, clock: Time) {
    !InDate(at, clock) || |NewerThan(table, user, at, address)| >= FAMILIAR_AT_MOST
  }

  /** `pruned` is `whole` without rows that no answer from `clock` on depends on. */
  ghost predicate PrunedBehind(whole: Table, pruned: Table, clock: Time) {
    && (forall h :: h in pruned ==> h in whole && whole[h] == pruned[h])
    && (forall h :: h in whole && h !in pruned ==> OutOfReach(pruned, h.user, whole[h], h.address, clock))
    && (forall h :: h in whole ==> whole[h] <= clock)
  }

  lemma RanksAgree(whole: Table, pruned: Table, clock: Time, user: User, at: Time, address: Address)
    requires PrunedBehind(whole, pruned, clock) && InDate(at, clock)
    ensures |NewerThan(whole, user, at, address)| < FAMILIAR_AT_MOST
       <==> |NewerThan(pruned, user, at, address)| < FAMILIAR_AT_MOST
  {
    var all, left := NewerThan(whole, user, at, address), NewerThan(pruned, user, at, address);
    SmallerSet(left, all);
    if x :| x in all && x !in left {
      // The missing row is in date, being newer, so twenty rows left outrank it and `at` with it.
      SmallerSet(NewerThan(pruned, user, whole[x], x.address), left);
    } else {
      assert all == left;
    }
  }

  /** Every question from `clock` on has one answer on both tables. */
  lemma PrunedTablesAnswerAlike(whole: Table, pruned: Table, clock: Time, user: User, address: Address, now: Time)
    requires PrunedBehind(whole, pruned, clock) && clock <= now
    ensures FamiliarTo(whole, user, address, now) <==> FamiliarTo(pruned, user, address, now)
  {
    FamiliarWhenFewAreNewer(whole, user, address, now);
    FamiliarWhenFewAreNewer(pruned, user, address, now);
    var h := Held(user, address);
    if h in whole && InDate(whole[h], now) {
      RanksAgree(whole, pruned, clock, user, whole[h], address);
    }
  }

  lemma RenewalsKeepPrunedBehind(whole: Table, pruned: Table, clock: Time, user: User, address: Address, now: Time)
    requires PrunedBehind(whole, pruned, clock) && clock <= now
    ensures PrunedBehind(Renewed(whole, user, address, now), Renewed(pruned, user, address, now), now)
  {
    var after := Renewed(pruned, user, address, now);
    forall h | h in whole && h !in after
      ensures OutOfReach(after, h.user, whole[h], h.address, now)
    {
      SmallerSet(NewerThan(pruned, h.user, whole[h], h.address), NewerThan(after, h.user, whole[h], h.address));
    }
  }

  /** A prune keeps twenty rows ahead of any place that had twenty in date ahead of it. */
  lemma {:induction false} PruneKeepsTwentyAhead(table: Table, user: User, at: Time, address: Address, now: Time)
    requires InDate(at, now)
    requires |NewerThan(table, user, at, address)| >= FAMILIAR_AT_MOST
    ensures |NewerThan(Prune(table, now), user, at, address)| >= FAMILIAR_AT_MOST
    decreases NewerThan(table, user, at, address)
  {
    var ahead, left := NewerThan(table, user, at, address), NewerThan(Prune(table, now), user, at, address);
    if y :| y in ahead && Pruned(table, y, now) {
      assert NewerThan(table, user, table[y], y.address) <= ahead;
      assert y !in NewerThan(table, user, table[y], y.address);
      PruneKeepsTwentyAhead(table, user, table[y], y.address, now);
      SmallerSet(NewerThan(Prune(table, now), user, table[y], y.address), left);
    } else {
      assert left == ahead;
    }
  }

  lemma PrunesKeepPrunedBehind(whole: Table, pruned: Table, clock: Time, now: Time)
    requires PrunedBehind(whole, pruned, clock) && clock <= now
    ensures PrunedBehind(whole, Prune(pruned, now), now)
  {
    var after := Prune(pruned, now);
    forall h | h in whole && h !in after
      ensures OutOfReach(after, h.user, whole[h], h.address, now)
    {
      if InDate(whole[h], now) {
        assert |NewerThan(pruned, h.user, whole[h], h.address)| >= FAMILIAR_AT_MOST;
        PruneKeepsTwentyAhead(pruned, h.user, whole[h], h.address, now);
      }
    }
  }

  // --- What is familiar, on the rows themselves -----------------------------

  /** Within ninety days of its right password, and fewer than twenty of the account's rows ahead of it. */
  ghost predicate CountedAt(table: Table, user: User, address: Address, now: Time) {
    var h := Held(user, address);
    && h in table && table[h] > now - 90 * 24 * 60 * 60 * 1000
    && |set g | g in table && g.user == user
                && (table[g] > table[h] || (table[g] == table[h] && g.address < address))| < 20
  }

  /** The query answers yes, and the prune keeps the row as it is, on exactly those. */
  lemma WhatIsCounted(table: Table, user: User, address: Address, now: Time)
    ensures FamiliarTo(table, user, address, now) <==> CountedAt(table, user, address, now)
    ensures Held(user, address) in Prune(table, now) <==> CountedAt(table, user, address, now)
    ensures CountedAt(table, user, address, now) ==>
              Prune(table, now)[Held(user, address)] == table[Held(user, address)]
  {
    hide FamiliarTo;
    FamiliarWhenFewAreNewer(table, user, address, now);
    PruneKeepsExactlyTheFamiliar(table, user, address, now);
    var h := Held(user, address);
    if h in table {
      assert NewerThan(table, user, table[h], address)
          == set g | g in table && g.user == user
                     && (table[g] > table[h] || (table[g] == table[h] && g.address < address));
    }
  }

  /**
   * A right password later than the account's others makes its address
   * familiar, for ninety days unless other addresses come after it, and leaves
   * every other row as it was.
   */
  lemma ARightPasswordMakesItsAddressFamiliar(table: Table, user: User, address: Address, now: Time, later: Time)
    requires forall h :: h in table && h.user == user ==> table[h] < now
    ensures FamiliarTo(Renewed(table, user, address, now), user, address, later)
       <==> later < now + 90 * 24 * 60 * 60 * 1000
    ensures forall h :: h != Held(user, address) ==>
              (h in Renewed(table, user, address, now) <==> h in table)
              && (h in table ==> Renewed(table, user, address, now)[h] == table[h])
  {
    var after := Renewed(table, user, address, now);
    WhatIsCounted(after, user, address, later);
    assert (set g | g in after && g.user == user
                    && (after[g] > now || (after[g] == now && g.address < address))) == {};
  }
}
