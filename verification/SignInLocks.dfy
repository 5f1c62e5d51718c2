/**
 * How a history of checks moves each run: by offers, as `Lockout` describes
 * them, until the run is forgotten; every lock with its line; and a lock that
 * waits for its line shuts the run until the line lands.
 */
module SignInLocks {
  import opened Wrappers
  import opened Lockout
  import opened FamiliarAddresses
  import opened SignIn
  import opened SignInHistories

  /** Whether `e` is a check whose answer belongs to this run. */
  predicate FallsIn(s: Store, e: Event, key: RunKey) {
    e.Checked? && e.check.user in s.passwords && KeyOf(s.known, e.check) == key
  }

  /** Whether `e` deletes the run's row: a release, or a right password let in. */
  predicate Forgets(s: Store, e: Event, key: RunKey) {
    e == Cleared(key.user) || (FallsIn(s, e, key) && Admits(s, e.check))
  }

  ghost predicate NeverForgets(s: Store, h: History, key: RunKey)
    decreases h
  {
    h != [] ==> !Forgets(s, h[0], key) && NeverForgets(After(s, h[0]), h[1..], key)
  }

  function OfferMade(s: Store, e: Event, key: RunKey): seq<Offer> {
    if FallsIn(s, e, key) && IsAnswered(s, e.check) then [OfferOf(s, e.check)] else []
  }

  /** What a history offers a run. */
  function OffersTo(s: Store, h: History, key: RunKey): seq<Offer>
    decreases h
  {
    if h == [] then [] else OfferMade(s, h[0], key) + OffersTo(After(s, h[0]), h[1..], key)
  }

  lemma AnEventMovesARun(s: Store, e: Event, key: RunKey)
    requires !Forgets(s, e, key)
    ensures var made := OfferMade(s, e, key);
            RunAt(After(s, e).runs, key) ==
              if made == [] then RunAt(s.runs, key) else AfterOffer(RunAt(s.runs, key), made[0])
  {
    hide FamiliarTo, AfterOffer, TakesLock, AfterCount, IsLocked, IsOpen, Prune;
  }

  lemma AtMostOneOffer(s: Store, e: Event, key: RunKey)
    ensures OfferMade(s, e, key) == [] || OfferMade(s, e, key) == [OfferMade(s, e, key)[0]]
  {}

  lemma OffersAfterOne(run: Option<Run>, offer: Offer, rest: seq<Offer>)
    ensures AfterOffers(run, [offer] + rest) == AfterOffers(AfterOffer(run, offer), rest)
  {
    assert ([offer] + rest)[1..] == rest;
  }

  /** Between deletions a run moves by exactly the offers the history makes it. */
  lemma {:induction false} RunsMoveByOffers(s: Store, h: History, key: RunKey)
    requires NeverForgets(s, h, key)
    ensures RunAt(Play(s, h).runs, key) == AfterOffers(RunAt(s.runs, key), OffersTo(s, h, key))
    decreases h
  {
    hide After, AfterOffer, Forgets, OfferMade;
    if h != [] {
      var made, rest := OfferMade(s, h[0], key), OffersTo(After(s, h[0]), h[1..], key);
      AnEventMovesARun(s, h[0], key);
      RunsMoveByOffers(After(s, h[0]), h[1..], key);
      if made == [] {
        assert [] + rest == rest;
      } else {
        AtMostOneOffer(s, h[0], key);
        OffersAfterOne(RunAt(s.runs, key), made[0], rest);
      }
    }
  }

  // --- Few wrong passwords, over a history --------------------------------

  /** Every wrong password offered to the account is one of these. */
  ghost predicate OffersOnly(s: Store, h: History, user: User, wrong: set<Password>) {
    forall i :: 0 <= i < |h| ==> h[i].Checked? ==> h[i].check.user == user ==>
      IsRight(s, h[i].check) || h[i].check.password in wrong
  }

  function MissesOf(user: User, wrong: set<Password>): set<Miss> { set p | p in wrong :: Miss(user, p) }

  lemma AsManyMissesAsPasswords(user: User, wrong: set<Password>)
    ensures |MissesOf(user, wrong)| == |wrong|
  {
    if p :| p in wrong {
      AsManyMissesAsPasswords(user, wrong - {p});
      assert MissesOf(user, wrong) == MissesOf(user, wrong - {p}) + {Miss(user, p)};
    }
  }

  lemma PasswordsStand(s: Store, e: Event)
    ensures After(s, e).passwords == s.passwords
  {
    hide KeyOf, Admits, IsAnswered, OfferOf, Counted, Prune;
    if e.Checked? {
      CountingTouchesRunsAndLines(s, KeyOf(s.known, e.check), OfferOf(s, e.check));
    }
  }

  lemma {:induction false} OffersComeFromTheSet(s: Store, h: History, key: RunKey, wrong: set<Password>)
    requires OffersOnly(s, h, key.user, wrong)
    ensures AllFrom(OffersTo(s, h, key), MissesOf(key.user, wrong))
    decreases h
  {
    hide After;
    if h != [] {
      PasswordsStand(s, h[0]);
      AtMostOneOffer(s, h[0], key);
      OffersComeFromTheSet(After(s, h[0]), h[1..], key, wrong);
    }
  }

  /**
   * Whatever else happens to the install, and however many locks fall, checks
   * offering one account no more than three wrong passwords are counted at most
   * once a password in each run, until that run is forgotten.
   */
  lemma FewWrongPasswordsCountOnceOverAHistory(s: Store, h: History, key: RunKey, wrong: set<Password>)
    requires NeverForgets(s, h, key) && OffersOnly(s, h, key.user, wrong) && |wrong| <= REMEMBERED_MISSES
    requires key in s.runs ==> |s.runs[key].misses| <= REMEMBERED_MISSES
    ensures RunAt(Play(s, h).runs, key) == AfterOffers(RunAt(s.runs, key), OffersTo(s, h, key))
    ensures Distinct(CountedMisses(RunAt(s.runs, key), OffersTo(s, h, key)))
    ensures |CountedMisses(RunAt(s.runs, key), OffersTo(s, h, key))| <= |wrong|
  {
    hide CountedMisses, AfterOffers, OffersTo, NeverForgets;
    RunsMoveByOffers(s, h, key);
    OffersComeFromTheSet(s, h, key, wrong);
    AsManyMissesAsPasswords(key.user, wrong);
    ThreeWrongPasswordsCountAtMostOnceEach(RunAt(s.runs, key), OffersTo(s, h, key), MissesOf(key.user, wrong));
  }

  /** Runs remember at most three misses, after any history. */
  ghost predicate RemembersFew(s: Store) {
    forall key :: key in s.runs ==> |s.runs[key].misses| <= REMEMBERED_MISSES
  }

  lemma AnOfferRemembersFew(run: Option<Run>, offer: Offer)
    requires |Misses(run)| <= REMEMBERED_MISSES
    ensures |Misses(AfterOffer(run, offer))| <= REMEMBERED_MISSES
  {
    MissesAreTheLatestCounted(run, [offer], Misses(run));
    OffersAfterOne(run, offer, []);
    assert [offer] + [] == [offer];
  }

  lemma AnEventRemembersFew(s: Store, e: Event)
    requires RemembersFew(s)
    ensures RemembersFew(After(s, e))
  {
    hide FamiliarTo, AfterOffer, LineFor, Prune, IsOpen, IsLocked;
    if e.Checked? && !Admits(s, e.check) && IsAnswered(s, e.check) {
      AnOfferRemembersFew(RunAt(s.runs, KeyOf(s.known, e.check)), OfferOf(s, e.check));
    }
  }

  lemma {:induction false} RunsRememberFew(s: Store, h: History)
    requires RemembersFew(s)
    ensures RemembersFew(Play(s, h))
    decreases h
  {
    hide After, RemembersFew;
    if h != [] {
      AnEventRemembersFew(s, h[0]);
      RunsRememberFew(After(s, h[0]), h[1..]);
    }
  }

  // --- The back-off, over a history ---------------------------------------

  ghost predicate UnderPolicy(h: History, policy: Policy) {
    forall i :: 0 <= i < |h| ==> h[i].Checked? ==> h[i].check.policy == policy
  }

  lemma AnOfferIsMadeNow(s: Store, e: Event, key: RunKey)
    ensures forall o :: o in OfferMade(s, e, key) ==> e.Checked? && o.policy == e.check.policy && o.now == e.check.now
  {
    hide KeyOf, IsAnswered;
  }

  lemma {:induction false} HistoriesOfferInOrder(s: Store, h: History, key: RunKey, policy: Policy, clock: Time)
    requires UnderPolicy(h, policy) && OnTime(h, clock)
    ensures FixedPolicy(OffersTo(s, h, key), policy) && InOrder(OffersTo(s, h, key), clock)
    decreases h
  {
    hide After, OfferMade;
    if h != [] {
      AnOfferIsMadeNow(s, h[0], key);
      AtMostOneOffer(s, h[0], key);
      HistoriesOfferInOrder(After(s, h[0]), h[1..], key, policy, ClockAfter(h[0], clock));
    }
  }

  /**
   * From a run's first failure, for as long as it is not forgotten: the bounds
   * of `BackOffBoundsGuessing` hold of what any history does to it.
   */
  lemma AHistoryCannotOutpaceTheBackOff(s: Store, h: History, key: RunKey, policy: Policy, clock: Time, k: nat)
    requires UnderPolicy(h, policy) && OnTime(h, clock) && NeverForgets(s, h, key) && key !in s.runs
    ensures var fallen, open := LocksFallen(None, OffersTo(s, h, key)), CountedWhileOpen(None, OffersTo(s, h, key));
            && RunAt(Play(s, h).runs, key) == AfterOffers(None, OffersTo(s, h, key))
            && RunTells(RunAt(Play(s, h).runs, key), policy, fallen, open)
            && (k < |fallen| ==> LastsItsTerm(fallen, policy, k) && BacksOff(fallen, policy, k))
            && (k < |fallen| ==> fallen[k].at - fallen[0].at >= ShutFor(policy, k))
            && policy.afterFailures * |fallen| <= open <= policy.afterFailures * |fallen| + policy.afterFailures
  {
    hide OffersTo, NeverForgets, Play, LocksFallen, CountedWhileOpen, AfterOffers, ShutFor, RunTells, LastsItsTerm,
         BacksOff;
    RunsMoveByOffers(s, h, key);
    HistoriesOfferInOrder(s, h, key, policy, clock);
    BackOffBoundsGuessing(OffersTo(s, h, key), policy, clock, k);
  }

  // --- A lock and its line ------------------------------------------------

  function LocksOf(s: Store, key: RunKey): nat { if key in s.runs then s.runs[key].locks else 0 }

  /** The runs with one more lock than before. */
  function NewlyLocked(s: Store, t: Store): set<RunKey> {
    set key | key in t.runs && t.runs[key].locks > LocksOf(s, key)
  }

  /** Locks taken over a history, counted on the runs. */
  function LocksTaken(s: Store, h: History): nat
    decreases h
  {
    if h == [] then 0 else |NewlyLocked(s, After(s, h[0]))| + LocksTaken(After(s, h[0]), h[1..])
  }

  /** The lock's line carries what the run counted and how long it is shut; without the line the count stands. */
  lemma ALockAndItsLineComeTogether(s: Store, key: RunKey, offer: Offer)
    requires offer.miss.Some? || key in s.runs
    ensures var before, t := AfterCount(RunAt(s.runs, key), offer).value, Counted(s, key, offer);
            if before.pending && offer.recorded then
              && NewlyLocked(s, t) == {key}
              && t.lines == s.lines + [AccountLocked(key, before.failures, LockMinutes(offer.policy, before.locks))]
              && t.runs[key].lockedUntil == Some(offer.now + MINUTE * LockMinutes(offer.policy, before.locks))
              && !t.runs[key].pending && t.runs[key].misses == before.misses
            else NewlyLocked(s, t) == {} && t.lines == s.lines && t.runs[key] == before
  {
    hide LockMinutes, Remember;
  }

  lemma NoOfferNoLock(s: Store, e: Event)
    requires e.Checked? ==> Admits(s, e.check) || !IsAnswered(s, e.check)
    ensures NewlyLocked(s, After(s, e)) == {}
    ensures LockLines(After(s, e).lines) == LockLines(s.lines)
  {
    hide FamiliarTo, Prune, IsOpen, IsLocked, LockLines;
    if e.PrunePassed? {
      var gone := s.known.Keys - Prune(s.known, e.now).Keys;
      LockLinesOfOneMore(s.lines, AddressesPruned(|gone|, |UsersOf(gone)|));
    }
  }

  lemma AnEventLocksAsOftenAsItSays(s: Store, e: Event)
    ensures |LockLines(After(s, e).lines)| == |LockLines(s.lines)| + |NewlyLocked(s, After(s, e))|
  {
    hide FamiliarTo, AfterPrune, AfterClear, IsOpen, Count, Counted, LockLines, NewlyLocked;
    if e.Checked? && !Admits(s, e.check) && IsAnswered(s, e.check) {
      var key, offer := KeyOf(s.known, e.check), OfferOf(s, e.check);
      ARightAnswerCountsOnlyAPendingRun(s, e.check);
      ALockAndItsLineComeTogether(s, key, offer);
      var before := AfterCount(RunAt(s.runs, key), offer).value;
      LockLinesOfOneMore(s.lines, AccountLocked(key, before.failures, LockMinutes(offer.policy, before.locks)));
    } else {
      NoOfferNoLock(s, e);
    }
  }

  lemma ARightAnswerCountsOnlyAPendingRun(s: Store, c: Check)
    requires !Admits(s, c) && IsAnswered(s, c)
    ensures OfferOf(s, c).miss.Some? || KeyOf(s.known, c) in s.runs
  {
    hide FamiliarTo;
  }

  /** Over any history, as many locks are taken as lines are written. */
  lemma {:induction false} EveryLockHasItsLine(s: Store, h: History)
    ensures |LockLines(Play(s, h).lines)| == |LockLines(s.lines)| + LocksTaken(s, h)
    decreases h
  {
    hide After, LockLines, NewlyLocked;
    if h != [] {
      AnEventLocksAsOftenAsItSays(s, h[0]);
      EveryLockHasItsLine(After(s, h[0]), h[1..]);
    }
  }

  // --- A lock that waits for its line -------------------------------------

  /** No run is both waiting for its lock and locked. */
  ghost predicate Coherent(s: Store, clock: Time) {
    forall key :: key in s.runs && s.runs[key].pending ==> !IsLocked(s.runs[key], clock)
  }

  /** A pending run is not locked. */
  predicate RunCoherent(run: Option<Run>, clock: Time) {
    run.Some? && run.value.pending ==> !IsLocked(run.value, clock)
  }

  lemma AnOfferStaysCoherent(run: Option<Run>, offer: Offer, clock: Time)
    requires RunCoherent(run, clock) && clock <= offer.now
    ensures RunCoherent(AfterOffer(run, offer), offer.now)
  {
    hide LockMinutes, Remember;
  }

  lemma AnEventStaysCoherent(s: Store, e: Event, clock: Time)
    requires Coherent(s, clock) && clock <= ClockAfter(e, clock)
    ensures Coherent(After(s, e), ClockAfter(e, clock))
  {
    hide FamiliarTo, LineFor, Prune, AfterOffer, IsOpen;
    if e.Checked? && !Admits(s, e.check) && IsAnswered(s, e.check) {
      AnOfferStaysCoherent(RunAt(s.runs, KeyOf(s.known, e.check)), OfferOf(s, e.check), clock);
    }
  }

  /** Over any history a run is never both. */
  lemma {:induction false} NeverPendingAndLocked(s: Store, h: History, clock: Time)
    requires Coherent(s, clock) && OnTime(h, clock)
    ensures Coherent(Play(s, h), ClockAtEnd(h, clock))
    decreases h
  {
    hide After, Coherent;
    if h != [] {
      AnEventStaysCoherent(s, h[0], clock);
      NeverPendingAndLocked(After(s, h[0]), h[1..], ClockAfter(h[0], clock));
    }
  }

  /** No release of the account, and no check in the run whose line lands. */
  ghost predicate Unreleased(s: Store, h: History, key: RunKey)
    decreases h
  {
    h != [] ==>
      h[0] != Cleared(key.user) && (FallsIn(s, h[0], key) ==> !h[0].check.recorded) &&
      Unreleased(After(s, h[0]), h[1..], key)
  }

  /** No check in the run is answered with a yes. */
  ghost predicate NobodyLetIn(s: Store, h: History, key: RunKey)
    decreases h
  {
    h != [] ==> (FallsIn(s, h[0], key) ==> !Admits(s, h[0].check)) && NobodyLetIn(After(s, h[0]), h[1..], key)
  }

  predicate Waiting(s: Store, key: RunKey) { key in s.runs && s.runs[key].pending }

  lemma AWaitingRunWaits(s: Store, e: Event, key: RunKey)
    requires Waiting(s, key) && e != Cleared(key.user) && (FallsIn(s, e, key) ==> !e.check.recorded)
    ensures Waiting(After(s, e), key) && s.runs[key].failures <= After(s, e).runs[key].failures
    ensures After(s, e).runs[key].locks == s.runs[key].locks
    ensures FallsIn(s, e, key) ==> !Admits(s, e.check)
  {
    hide FamiliarTo, LineFor, Prune, LockMinutes, Remember;
  }

  /** Until a line lands or the account is released, a pending run stays pending, keeps its count and lets nobody in. */
  lemma {:induction false} APendingRunAdmitsNobody(s: Store, h: History, key: RunKey)
    requires Waiting(s, key) && Unreleased(s, h, key)
    ensures NobodyLetIn(s, h, key) && Waiting(Play(s, h), key)
    ensures s.runs[key].failures <= Play(s, h).runs[key].failures
    ensures s.runs[key].locks == Play(s, h).runs[key].locks
    decreases h
  {
    hide After, FallsIn, Admits;
    if h != [] {
      AWaitingRunWaits(s, h[0], key);
      APendingRunAdmitsNobody(After(s, h[0]), h[1..], key);
    }
  }

  /** Each answer in a pending run tries the lock; the first whose line lands takes it, at its place in the back-off. */
  lemma TheNextLineTakesTheLock(s: Store, c: Check, key: RunKey, clock: Time)
    requires Coherent(s, clock) && clock <= c.now && Waiting(s, key) && FallsIn(s, Checked(c), key)
    ensures !Admits(s, c)
    ensures var t := AfterCheck(s, c);
            && t.runs[key].pending == !c.recorded
            && (c.recorded ==> t.runs[key].locks == s.runs[key].locks + 1)
            && (c.recorded ==> t.runs[key].lockedUntil == Some(LockEnds(c.policy, s.runs[key].locks, c.now)))
            && |t.lines| == |s.lines| + (if c.recorded then 1 else 0)
  {
    hide FamiliarTo, LockMinutes, Remember;
  }

  // --- A lock falls, and ends -----------------------------------------------

  function ChecksOf(checks: seq<Check>): History
    ensures |ChecksOf(checks)| == |checks|
    ensures forall i :: 0 <= i < |checks| ==> ChecksOf(checks)[i] == Checked(checks[i])
  {
    seq(|checks|, i requires 0 <= i < |checks| => Checked(checks[i]))
  }

  /** What the checks offer: each its password, as a wrong one. */
  function WrongOnes(checks: seq<Check>): seq<Offer>
    ensures |WrongOnes(checks)| == |checks|
    ensures forall i :: 0 <= i < |checks| ==>
              WrongOnes(checks)[i]
                == Offer(Some(Miss(checks[i].user, checks[i].password)),
                         checks[i].policy, checks[i].now, checks[i].recorded)
  {
    seq(|checks|, i requires 0 <= i < |checks| =>
      Offer(Some(Miss(checks[i].user, checks[i].password)), checks[i].policy, checks[i].now, checks[i].recorded))
  }

  /** Wrong passwords for one account, no two alike, from callers of no known address. */
  ghost predicate Guesses(s: Store, checks: seq<Check>, user: User, policy: Policy) {
    && user in s.passwords
    && (forall i :: 0 <= i < |checks| ==>
          checks[i].user == user && checks[i].address == None && checks[i].password != s.passwords[user]
          && checks[i].policy == policy)
    && forall i, j :: 0 <= i < j < |checks| ==> checks[i].password != checks[j].password
  }

  lemma AGuessIsAnOffer(s: Store, c: Check)
    requires c.user in s.passwords && s.passwords[c.user] != c.password && c.address == None
    requires var key := RunKey(c.user, false);
             key in s.runs ==> s.runs[key].lockedUntil.Some? ==> s.runs[key].lockedUntil.value <= c.now
    ensures AfterCheck(s, c).passwords == s.passwords
    ensures RunAt(AfterCheck(s, c).runs, RunKey(c.user, false))
         == AfterOffer(RunAt(s.runs, RunKey(c.user, false)),
                       Offer(Some(Miss(c.user, c.password)), c.policy, c.now, c.recorded))
  {
    hide AfterCheck, AfterOffer, Admits, FamiliarTo;
    WhatACheckDoes(s, c);
  }

  lemma GuessesAreDistinct(s: Store, checks: seq<Check>, user: User, policy: Policy)
    requires Guesses(s, checks, user, policy)
    ensures DistinctMisses(WrongOnes(checks)) && FixedPolicy(WrongOnes(checks), policy)
  {}

  lemma PlayingOneMore(s: Store, checks: seq<Check>)
    requires checks != []
    ensures Play(s, ChecksOf(checks)) == Play(AfterCheck(s, checks[0]), ChecksOf(checks[1..]))
    ensures WrongOnes(checks)[1..] == WrongOnes(checks[1..])
  {
    hide AfterCheck;
    assert ChecksOf(checks)[1..] == ChecksOf(checks[1..]);
  }

  lemma FewerGuesses(s: Store, t: Store, checks: seq<Check>, user: User, policy: Policy)
    requires Guesses(s, checks, user, policy) && checks != [] && t.passwords == s.passwords
    ensures Guesses(t, checks[1..], user, policy)
  {}

  /** The run locks at the guess that makes the threshold. */
  lemma TheLastGuessLocks(s: Store, c: Check, user: User, policy: Policy, failures: nat, locks: nat)
    requires Guesses(s, [c], user, policy) && failures + 1 == policy.afterFailures && c.recorded
    requires ReadyFor(RunAt(s.runs, RunKey(user, false)), failures, locks, WrongOnes([c]))
    ensures var key, t := RunKey(user, false), AfterCheck(s, c);
            && key in t.runs && t.runs[key].locks == locks + 1 && !t.runs[key].pending
            && t.runs[key].lockedUntil == Some(c.now + Term(policy, locks))
  {
    var run, offers := RunAt(s.runs, RunKey(user, false)), WrongOnes([c]);
    assert [c][0] == c;
    GuessesAreDistinct(s, [c], user, policy);
    AGuessIsAnOffer(s, c);
    hide AfterCheck, AfterOffer, Term;
    EnoughWrongPasswordsLock(run, failures, locks, offers, policy);
    assert offers[1..] == [] && AfterOffers(run, offers) == AfterOffers(AfterOffer(run, offers[0]), offers[1..]);
  }

  /** As many guesses as the threshold shut the account's run for strangers at the last of them. */
  lemma {:induction false} EnoughGuessesShutTheRun(
      s: Store, checks: seq<Check>, user: User, policy: Policy, failures: nat, locks: nat)
    requires Guesses(s, checks, user, policy) && checks != [] && failures + |checks| == policy.afterFailures
    requires ReadyFor(RunAt(s.runs, RunKey(user, false)), failures, locks, WrongOnes(checks))
    requires checks[|checks| - 1].recorded
    ensures var key, t := RunKey(user, false), Play(s, ChecksOf(checks));
            && key in t.runs && t.runs[key].locks == locks + 1 && !t.runs[key].pending
            && t.runs[key].lockedUntil == Some(checks[|checks| - 1].now + Term(policy, locks))
    decreases checks
  {
    hide AfterCheck, AfterOffer, Term, DistinctMisses, FixedPolicy;
    PlayingOneMore(s, checks);
    var t, rest := AfterCheck(s, checks[0]), checks[1..];
    if rest == [] {
      assert checks == [checks[0]];
      TheLastGuessLocks(s, checks[0], user, policy, failures, locks);
      assert Play(t, ChecksOf(rest)) == t;
    } else {
      GuessesAreDistinct(s, checks, user, policy);
      AGuessIsAnOffer(s, checks[0]);
      FewerGuesses(s, t, checks, user, policy);
      OneOfManyWrongPasswords(RunAt(s.runs, RunKey(user, false)), failures, locks, WrongOnes(checks));
      hide Guesses, ReadyFor;
      EnoughGuessesShutTheRun(t, rest, user, policy, failures + 1, locks);
    }
  }

  /** Every check of the history comes before `until`, and nobody releases the account. */
  ghost predicate AllBefore(h: History, user: User, until: Time) {
    forall i :: 0 <= i < |h| ==>
      && h[i] != Cleared(user)
      && (h[i].Checked? ==> h[i].check.now < until)
  }

  lemma AnEventBeforeItEndsLeavesALock(s: Store, e: Event, key: RunKey, until: Time)
    requires key in s.runs && s.runs[key].lockedUntil == Some(until)
    requires e != Cleared(key.user) && (e.Checked? ==> e.check.now < until)
    ensures key in After(s, e).runs && After(s, e).runs[key] == s.runs[key]
    ensures After(s, e).passwords == s.passwords
  {
    hide AfterCheck, Admits, FamiliarTo, Prune;
    PasswordsStand(s, e);
    if e.Checked? { WhatACheckDoes(s, e.check); }
  }

  lemma {:induction false} AHistoryBeforeItEndsLeavesALock(s: Store, h: History, key: RunKey, until: Time)
    requires key in s.runs && s.runs[key].lockedUntil == Some(until) && AllBefore(h, key.user, until)
    ensures key in Play(s, h).runs && Play(s, h).runs[key] == s.runs[key] && Play(s, h).passwords == s.passwords
    decreases h
  {
    hide After;
    if h != [] {
      AnEventBeforeItEndsLeavesALock(s, h[0], key, until);
      AHistoryBeforeItEndsLeavesALock(After(s, h[0]), h[1..], key, until);
    }
  }

  lemma {:induction false} TheLastAnswer(s: Store, h: History, c: Check)
    ensures Answers(s, h + [Checked(c)]) == Answers(s, h) + [Admits(Play(s, h), c)]
    decreases h
  {
    hide After, Admits;
    if h == [] {
      assert h + [Checked(c)] == [Checked(c)] && [Checked(c)][1..] == [];
      assert Answers(After(s, Checked(c)), []) == [];
    } else {
      TheLastAnswer(After(s, h[0]), h[1..], c);
      assert (h + [Checked(c)])[1..] == h[1..] + [Checked(c)] && (h + [Checked(c)])[0] == h[0];
    }
  }

  /**
   * A lock holds to its end and no further: after any history before it ends,
   * the right password in that run is refused before the end and, with no lock
   * pending, let in from that moment on.
   */
  lemma ALockEnds(s: Store, h: History, c: Check, until: Time)
    requires var key := RunKey(c.user, c.address.Some? && FamiliarTo(Play(s, h).known, c.user, c.address.value, c.now));
             && key in s.runs && s.runs[key].lockedUntil == Some(until) && !s.runs[key].pending
             && c.user in s.passwords && s.passwords[c.user] == c.password
    requires AllBefore(h, c.user, until)
    ensures Answers(s, h + [Checked(c)]) == Answers(s, h) + [c.now >= until]
  {
    hide Admits, AfterCheck, FamiliarTo, Answers, Play;
    var key := RunKey(c.user, c.address.Some? && FamiliarTo(Play(s, h).known, c.user, c.address.value, c.now));
    AHistoryBeforeItEndsLeavesALock(s, h, key, until);
    TheLastAnswer(s, h, c);
    WhatACheckDoes(Play(s, h), c);
  }
}
