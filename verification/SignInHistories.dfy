/**
 * What holds over every history of password checks, releases and prunes run
 * one after another, on a clock that never goes back.
 */
module SignInHistories {
  import opened Wrappers
  import opened Lockout
  import opened FamiliarAddresses
  import opened SignIn

  datatype Event = Checked(check: Check) | Cleared(user: User) | PrunePassed(now: Time, recorded: bool)

  type History = seq<Event>

  function After(s: Store, e: Event): Store {
    match e
    case Checked(c) => AfterCheck(s, c)
    case Cleared(user) => AfterClear(s, user)
    case PrunePassed(now, recorded) => AfterPrune(s, now, recorded)
  }

  function Play(s: Store, h: History): Store
    decreases h
  {
    if h == [] then s else Play(After(s, h[0]), h[1..])
  }

  function Answer(s: Store, e: Event): seq<bool> { if e.Checked? then [Admits(s, e.check)] else [] }

  /** Every check's answer, in order. */
  function Answers(s: Store, h: History): seq<bool>
    decreases h
  {
    if h == [] then [] else Answer(s, h[0]) + Answers(After(s, h[0]), h[1..])
  }

  /** The clock once `e` has happened. */
  function ClockAfter(e: Event, clock: Time): Time {
    match e
    case Checked(c) => c.now
    case Cleared(_) => clock
    case PrunePassed(now, _) => now
  }

  ghost predicate OnTime(h: History, clock: Time)
    decreases h
  {
    h == [] || (clock <= ClockAfter(h[0], clock) && OnTime(h[1..], ClockAfter(h[0], clock)))
  }

  function ClockAtEnd(h: History, clock: Time): Time
    decreases h
  {
    if h == [] then clock else ClockAtEnd(h[1..], ClockAfter(h[0], clock))
  }

  // --- Pruning is invisible -----------------------------------------------

  function WithoutPrunes(h: History): History
    decreases h
  {
    if h == [] then [] else (if h[0].PrunePassed? then [] else [h[0]]) + WithoutPrunes(h[1..])
  }

  function LockLines(lines: seq<Line>): seq<Line>
    decreases lines
  {
    if lines == [] then []
    else
      var last := lines[|lines| - 1];
      LockLines(lines[..|lines| - 1]) + (if last.AccountLocked? then [last] else [])
  }

  lemma LockLinesOfOneMore(lines: seq<Line>, line: Line)
    ensures LockLines(lines + [line]) == LockLines(lines) + (if line.AccountLocked? then [line] else [])
  {
    assert (lines + [line])[..|lines|] == lines;
  }

  /** `pruned` has been pruned and `whole` has not; nothing from `clock` on can tell. */
  ghost predicate Alike(whole: Store, pruned: Store, clock: Time) {
    && whole.passwords == pruned.passwords
    && whole.runs == pruned.runs
    && LockLines(whole.lines) == LockLines(pruned.lines)
    && PrunedBehind(whole.known, pruned.known, clock)
  }

  lemma CountsAlike(whole: Store, pruned: Store, key: RunKey, offer: Offer)
    requires whole.runs == pruned.runs && LockLines(whole.lines) == LockLines(pruned.lines)
    ensures Counted(whole, key, offer).runs == Counted(pruned, key, offer).runs
    ensures LockLines(Counted(whole, key, offer).lines) == LockLines(Counted(pruned, key, offer).lines)
  {
    hide LockLines, AfterOffer, TakesLock, AfterCount;
    var line := LineFor(RunAt(whole.runs, key), key, offer);
    if line == [] {
      assert whole.lines + [] == whole.lines && pruned.lines + [] == pruned.lines;
    } else {
      LockLinesOfOneMore(whole.lines, line[0]);
      LockLinesOfOneMore(pruned.lines, line[0]);
    }
  }

  lemma PrunedBehindLasts(whole: Table, pruned: Table, clock: Time, now: Time)
    requires PrunedBehind(whole, pruned, clock) && clock <= now
    ensures PrunedBehind(whole, pruned, now)
  {}

  lemma ChecksKeepAlike(whole: Store, pruned: Store, c: Check, clock: Time)
    requires Alike(whole, pruned, clock) && clock <= c.now
    ensures Admits(whole, c) == Admits(pruned, c)
    ensures Alike(AfterCheck(whole, c), AfterCheck(pruned, c), c.now)
  {
    hide LockLines, PrunedBehind, Counted, FamiliarTo, IsOpen, IsLocked;
    PrunedBehindLasts(whole.known, pruned.known, clock, c.now);
    if c.address.Some? {
      PrunedTablesAnswerAlike(whole.known, pruned.known, clock, c.user, c.address.value, c.now);
      RenewalsKeepPrunedBehind(whole.known, pruned.known, clock, c.user, c.address.value, c.now);
    }
    var key := KeyOf(whole.known, c);
    assert key == KeyOf(pruned.known, c);
    if !Admits(whole, c) && IsAnswered(whole, c) {
      CountsAlike(whole, pruned, key, OfferOf(whole, c));
      CountingTouchesRunsAndLines(whole, key, OfferOf(whole, c));
      CountingTouchesRunsAndLines(pruned, key, OfferOf(whole, c));
    }
  }

  lemma CountingTouchesRunsAndLines(s: Store, key: RunKey, offer: Offer)
    ensures Counted(s, key, offer).passwords == s.passwords && Counted(s, key, offer).known == s.known
  {}

  lemma APruneKeepsAlike(whole: Store, pruned: Store, now: Time, recorded: bool, clock: Time)
    requires Alike(whole, pruned, clock) && clock <= now
    ensures Alike(whole, AfterPrune(pruned, now, recorded), now)
  {
    hide LockLines, PrunedBehind, Prune;
    PrunedBehindLasts(whole.known, pruned.known, clock, now);
    PrunesKeepPrunedBehind(whole.known, pruned.known, clock, now);
    var gone := pruned.known.Keys - Prune(pruned.known, now).Keys;
    LockLinesOfOneMore(pruned.lines, AddressesPruned(|gone|, |UsersOf(gone)|));
  }

  lemma {:induction false} HistoriesStayAlike(whole: Store, pruned: Store, h: History, clock: Time)
    requires Alike(whole, pruned, clock) && OnTime(h, clock)
    ensures Answers(whole, WithoutPrunes(h)) == Answers(pruned, h)
    ensures Alike(Play(whole, WithoutPrunes(h)), Play(pruned, h), ClockAtEnd(h, clock))
    decreases h
  {
    hide Alike, AfterCheck, AfterPrune, Admits;
    if h != [] {
      var e, clock', rest := h[0], ClockAfter(h[0], clock), WithoutPrunes(h[1..]);
      match e {
        case PrunePassed(now, recorded) =>
          APruneKeepsAlike(whole, pruned, now, recorded, clock);
          HistoriesStayAlike(whole, After(pruned, e), h[1..], clock');
          assert [] + rest == rest && [] + Answers(After(pruned, e), h[1..]) == Answers(After(pruned, e), h[1..]);
        case Checked(c) =>
          ChecksKeepAlike(whole, pruned, c, clock);
          HistoriesStayAlike(After(whole, e), After(pruned, e), h[1..], clock');
          assert ([e] + rest)[1..] == rest;
        case Cleared(user) =>
          ClearsKeepAlike(whole, pruned, user, clock);
          HistoriesStayAlike(After(whole, e), After(pruned, e), h[1..], clock');
          assert ([e] + rest)[1..] == rest;
      }
    }
  }

  lemma ClearsKeepAlike(whole: Store, pruned: Store, user: User, clock: Time)
    requires Alike(whole, pruned, clock)
    ensures Alike(AfterClear(whole, user), AfterClear(pruned, user), clock)
  {
    hide LockLines, PrunedBehind;
  }

  /**
   * Prunes anywhere in a history change nothing: every check answers, every run
   * stands and every lock is logged as if none had happened, and any address is
   * familiar at any later moment exactly where it would have been.
   */
  lemma PruningIsInvisible(s: Store, h: History, clock: Time, user: User, address: Address, later: Time)
    requires OnTime(h, clock) && forall held :: held in s.known ==> s.known[held] <= clock
    requires ClockAtEnd(h, clock) <= later
    ensures Answers(s, h) == Answers(s, WithoutPrunes(h))
    ensures Play(s, h).runs == Play(s, WithoutPrunes(h)).runs
    ensures LockLines(Play(s, h).lines) == LockLines(Play(s, WithoutPrunes(h)).lines)
    ensures FamiliarTo(Play(s, h).known, user, address, later)
       <==> FamiliarTo(Play(s, WithoutPrunes(h)).known, user, address, later)
  {
    hide LockLines, FamiliarTo;
    HistoriesStayAlike(s, s, h, clock);
    PrunedTablesAnswerAlike(Play(s, WithoutPrunes(h)).known, Play(s, h).known, ClockAtEnd(h, clock),
                            user, address, later);
  }

  // --- What strangers can and cannot do -----------------------------------

  /** A wrong password offered from an address not familiar to the account. */
  predicate StrangersMiss(s: Store, e: Event) {
    e.Checked? && e.check.user in s.passwords && !IsRight(s, e.check) && !FromFamiliar(s.known, e.check)
  }

  /** The history with every stranger's wrong password taken out, as the full history judges each. */
  function WithoutStrangers(s: Store, h: History): History
    decreases h
  {
    if h == [] then []
    else (if StrangersMiss(s, h[0]) then [] else [h[0]]) + WithoutStrangers(After(s, h[0]), h[1..])
  }

  /** What familiar callers depend on and see: familiar runs and familiar addresses. */
  ghost predicate SameForFamiliar(s: Store, t: Store) {
    && s.passwords == t.passwords
    && s.known == t.known
    && forall user :: RunAt(s.runs, RunKey(user, true)) == RunAt(t.runs, RunKey(user, true))
  }

  /** No account has anything counted against strangers. */
  ghost predicate StrangersUncounted(t: Store) {
    forall user :: RunKey(user, false) !in t.runs
  }

  /** A check from a familiar address is answered the same in both. */
  predicate SameAnswer(s: Store, t: Store, e: Event) {
    e.Checked? && FromFamiliar(s.known, e.check) ==> Admits(s, e.check) == Admits(t, e.check)
  }

  /**
   * At every point of the history, with and without the strangers' misses: the
   * same familiar runs and addresses, and the same answer to a familiar caller.
   */
  ghost predicate Undisturbed(s: Store, t: Store, h: History)
    decreases h
  {
    SameForFamiliar(s, t) &&
    (h != [] ==>
       SameAnswer(s, t, h[0]) &&
       Undisturbed(After(s, h[0]), if StrangersMiss(s, h[0]) then t else After(t, h[0]), h[1..]))
  }

  /**
   * The right password, from an address not familiar, refused because the
   * strangers' run is shut. An address already dated `now` has nothing to lose.
   */
  predicate HolderRefused(s: Store, e: Event) {
    e.Checked? &&
    var c := e.check;
    IsRight(s, c) && !FromFamiliar(s.known, c) && c.address.Some? &&
    !IsOpen(RunAt(s.runs, RunKey(c.user, false)), c.now) &&
    !(Held(c.user, c.address.value) in s.known && s.known[Held(c.user, c.address.value)] == c.now)
  }

  ghost predicate NoHolderRefused(s: Store, h: History)
    decreases h
  {
    h != [] ==> !HolderRefused(s, h[0]) && NoHolderRefused(After(s, h[0]), h[1..])
  }

  lemma FamiliarCallersSeeTheSame(s: Store, t: Store, c: Check)
    requires SameForFamiliar(s, t) && FromFamiliar(s.known, c)
    ensures Admits(s, c) == Admits(t, c)
    ensures SameForFamiliar(AfterCheck(s, c), AfterCheck(t, c))
    ensures StrangersUncounted(t) ==> StrangersUncounted(AfterCheck(t, c))
  {
    hide FamiliarTo, AfterOffer, TakesLock, AfterCount, IsOpen, IsLocked;
    assert KeyOf(s.known, c) == KeyOf(t.known, c) == RunKey(c.user, true);
  }

  lemma AStrangersMissChangesNothingFamiliar(s: Store, c: Check)
    requires StrangersMiss(s, Checked(c))
    ensures SameForFamiliar(AfterCheck(s, c), s)
  {
    hide FamiliarTo, AfterOffer, TakesLock, AfterCount, IsLocked;
    assert KeyOf(s.known, c) == RunKey(c.user, false);
  }

  /** A right password from a stranger, on the side where nothing is counted against strangers: always admitted. */
  lemma AnUnknownHolderIsAdmitted(s: Store, t: Store, c: Check)
    requires SameForFamiliar(s, t) && StrangersUncounted(t)
    requires IsRight(s, c) && !FromFamiliar(s.known, c)
    ensures Admits(t, c) && StrangersUncounted(AfterCheck(t, c))
    ensures SameForFamiliar(AfterCheck(s, c), AfterCheck(t, c)) <==> !HolderRefused(s, Checked(c))
  {
    hide FamiliarTo, AfterOffer, TakesLock, AfterCount, IsLocked;
    assert KeyOf(s.known, c) == KeyOf(t.known, c) == RunKey(c.user, false);
    assert RunAt(t.runs, RunKey(c.user, false)) == None;
    if !Admits(s, c) && c.address.Some? {
      var held := Held(c.user, c.address.value);
      assert AfterCheck(t, c).known[held] == c.now;
      assert AfterCheck(s, c).known == s.known;
      if !HolderRefused(s, Checked(c)) { assert AfterCheck(t, c).known == t.known; }
    }
  }

  lemma OtherEventsKeepBothSides(s: Store, t: Store, e: Event)
    requires SameForFamiliar(s, t) && StrangersUncounted(t)
    requires !e.Checked? || e.check.user !in s.passwords
    ensures SameForFamiliar(After(s, e), After(t, e)) && StrangersUncounted(After(t, e))
  {
    hide FamiliarTo, Prune;
  }

  lemma OneEventUndisturbed(s: Store, t: Store, e: Event)
    requires SameForFamiliar(s, t) && StrangersUncounted(t)
    ensures SameAnswer(s, t, e)
    ensures var t' := if StrangersMiss(s, e) then t else After(t, e);
            StrangersUncounted(t') && (SameForFamiliar(After(s, e), t') <==> !HolderRefused(s, e))
  {
    hide SameForFamiliar, StrangersUncounted, AfterCheck, FamiliarTo, Admits, AfterPrune, AfterClear;
    if !e.Checked? || e.check.user !in s.passwords {
      OtherEventsKeepBothSides(s, t, e);
      if e.Checked? { NobodyIsNeverFamiliarlyRight(s, t, e.check); }
    } else if FromFamiliar(s.known, e.check) {
      FamiliarCallersSeeTheSame(s, t, e.check);
    } else if IsRight(s, e.check) {
      AnUnknownHolderIsAdmitted(s, t, e.check);
    } else {
      AStrangersMissChangesNothingFamiliar(s, e.check);
      SameForFamiliarIsTransitive(After(s, e), s, t);
    }
  }

  lemma NobodyIsNeverFamiliarlyRight(s: Store, t: Store, c: Check)
    requires SameForFamiliar(s, t) && c.user !in s.passwords
    ensures !Admits(s, c) && !Admits(t, c)
  {}

  lemma SameForFamiliarIsTransitive(a: Store, b: Store, c: Store)
    requires SameForFamiliar(a, b) && SameForFamiliar(b, c)
    ensures SameForFamiliar(a, c)
  {}

  /**
   * Taking out every stranger's wrong password leaves the familiar runs, the
   * familiar addresses and every familiar caller's answer as they were, at
   * every point of the history, exactly when no right password from an address
   * not yet familiar met a shut run.
   */
  lemma {:induction false} StrangersDisturbOnlyNewAddresses(s: Store, t: Store, h: History)
    requires SameForFamiliar(s, t) && StrangersUncounted(t)
    ensures Undisturbed(s, t, h) <==> NoHolderRefused(s, h)
    decreases h
  {
    hide SameForFamiliar, StrangersUncounted, HolderRefused, StrangersMiss, After;
    if h != [] {
      var e := h[0];
      var s', t' := After(s, e), if StrangersMiss(s, e) then t else After(t, e);
      OneEventUndisturbed(s, t, e);
      if HolderRefused(s, e) {
        assert !Undisturbed(s', t', h[1..]);
      } else {
        StrangersDisturbOnlyNewAddresses(s', t', h[1..]);
      }
    }
  }

  /** Where they disturb nothing, the shortened history ends with the same familiar runs and addresses. */
  lemma {:induction false} UndisturbedToTheEnd(s: Store, t: Store, h: History)
    requires Undisturbed(s, t, h)
    ensures SameForFamiliar(Play(s, h), Play(t, WithoutStrangers(s, h)))
    decreases h
  {
    hide After, StrangersMiss, SameForFamiliar;
    if h != [] {
      var s', rest := After(s, h[0]), WithoutStrangers(After(s, h[0]), h[1..]);
      if StrangersMiss(s, h[0]) {
        UndisturbedToTheEnd(s', t, h[1..]);
        assert [] + rest == rest;
      } else {
        UndisturbedToTheEnd(s', After(t, h[0]), h[1..]);
        assert ([h[0]] + rest)[1..] == rest;
      }
    }
  }

  /**
   * Strangers do reach one thing familiar: a holder's first sign-in from a new
   * address. Without the miss the address becomes familiar; with it, it does not.
   */
  lemma AStrangerKeepsANewAddressUnfamiliar(user: User, password: Password, wrong: Password)
    requires password != wrong
    ensures var policy: Policy := PolicyValue(1, 5, 1440);
            var s := Store(map[user := password], map[], map[], []);
            var h := [Checked(Check(user, wrong, Some(1), 0, policy, true)),
                      Checked(Check(user, password, Some(2), MINUTE, policy, true))];
            && WithoutStrangers(s, h) == [h[1]]
            && Held(user, 2) !in Play(s, h).known
            && Held(user, 2) in Play(s, WithoutStrangers(s, h)).known
  {
    var policy: Policy := PolicyValue(1, 5, 1440);
    var s := Store(map[user := password], map[], map[], []);
    var miss := Check(user, wrong, Some(1), 0, policy, true);
    var right := Check(user, password, Some(2), MINUTE, policy, true);
    FamiliarWhenFewAreNewer(map[], user, 1, 0);
    FamiliarWhenFewAreNewer(map[], user, 2, MINUTE);
    hide FamiliarTo, Play, WithoutStrangers;
    var key := RunKey(user, false);
    assert KeyOf(s.known, miss) == key && KeyOf(s.known, right) == key;
    var locked := AfterCheck(s, miss);
    assert locked.known == map[] && key in locked.runs;
    assert LockMinutes(policy, 0) == 5;
    assert locked.runs[key].lockedUntil == Some(5 * MINUTE);
    assert AfterCheck(locked, right) == locked;
    assert !StrangersMiss(locked, Checked(right)) && StrangersMiss(s, Checked(miss));
    TwoEvents(s, Checked(miss), Checked(right));
  }

  lemma TwoEvents(s: Store, first: Event, second: Event)
    ensures Play(s, [first, second]) == After(After(s, first), second)
    ensures Play(s, [second]) == After(s, second)
    ensures StrangersMiss(s, first) && !StrangersMiss(After(s, first), second) ==>
              WithoutStrangers(s, [first, second]) == [second]
  {
    hide After, StrangersMiss;
    var s' := After(s, first);
    assert [first, second][1..] == [second] && [second][1..] == [];
    assert Play(s', [second]) == Play(After(s', second), []) == After(s', second);
    assert WithoutStrangers(After(s', second), []) == [];
  }
}
