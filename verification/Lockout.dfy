/**
 * One run of failed sign-ins: what a wrong password adds to it, how it locks,
 * and what can be said of it over any number of offers.
 *
 * A run is a row of `sign_in_lockout`; while there is none, nothing is counted.
 */
module Lockout {
  import opened Wrappers

  type User = string
  type Password = string

  /** A wrong password as a run remembers it: the MAC's two arguments stand for the MAC. */
  datatype Miss = Miss(user: User, password: Password)

  /** The stored settings, inside the bounds the install's policy schema sets. */
  datatype Settings = Settings(afterFailures: int, minutes: int, maxMinutes: int)
  {
    predicate Stored() {
      1 <= afterFailures <= 100 && 5 <= minutes <= 1440 && 5 <= maxMinutes <= 1440
    }
  }

  datatype PolicyValue = PolicyValue(afterFailures: nat, minutes: nat, maxMinutes: nat)

  type Policy = p: PolicyValue | 1 <= p.afterFailures && 1 <= p.minutes <= p.maxMinutes
    witness PolicyValue(1, 1, 1)

  /** The policy the settings make; a longest lock set below the first is raised to it. */
  function PolicyFrom(values: Settings): (p: Policy)
    requires values.Stored()
    ensures p.afterFailures == values.afterFailures && p.minutes == values.minutes
    ensures values.minutes <= values.maxMinutes ==> p.maxMinutes == values.maxMinutes
    ensures values.minutes > values.maxMinutes ==> p.maxMinutes == p.minutes
  {
    PolicyValue(values.afterFailures, values.minutes, Max(values.minutes, values.maxMinutes))
  }

  datatype Run = Run(failures: nat, locks: nat, lockedUntil: Option<Time>, pending: bool, misses: seq<Miss>)

  /** Whether a lock on the run still holds at `now`; its last instant is already outside it. */
  predicate IsLocked(run: Run, now: Time) {
    run.lockedUntil.Some? && run.lockedUntil.value > now
  }

  /** Whether a right password is let through. */
  predicate IsOpen(run: Option<Run>, now: Time) {
    run.None? || (!run.value.pending && !IsLocked(run.value, now))
  }

  const REMEMBERED_MISSES := 3

  /** `misses` with one more, cut to the latest: the SQL slice, from a one-based start. */
  function Remember(misses: seq<Miss>, miss: Miss): seq<Miss> {
    var start := Max(|misses| + 2 - REMEMBERED_MISSES, 1);
    (misses + [miss])[start - 1..]
  }

  /** Whether the upsert counts this wrong password. */
  predicate Counts(run: Option<Run>, miss: Miss, now: Time) {
    run.None? || (miss !in run.value.misses && !IsLocked(run.value, now))
  }

  /** The run after one wrong password: the insert, or the guarded update on conflict. */
  function Count(run: Option<Run>, miss: Miss, policy: Policy, now: Time): Run
    requires run.None? ==> Counts(run, miss, now)
  {
    match run
    case None => Run(1, 0, None, 1 >= policy.afterFailures, [miss])
    case Some(held) =>
      if Counts(run, miss, now) then
        held.(failures := held.failures + 1,
              pending := held.pending || held.failures + 1 >= policy.afterFailures,
              misses := Remember(held.misses, miss))
      else held
  }

  function Pow2(n: nat): nat { if n == 0 then 1 else 2 * Pow2(n - 1) }

  /** `minutes` times two to the power `times`, by repeated doubling. */
  function Doubled(minutes: nat, times: nat): (m: nat)
    ensures m >= minutes
  {
    if times == 0 then minutes else 2 * Doubled(minutes, times - 1)
  }

  lemma {:induction false} DoubledIsAPower(minutes: nat, times: nat)
    ensures Doubled(minutes, times) == minutes * Pow2(times)
  {
    if times > 0 {
      DoubledIsAPower(minutes, times - 1);
      var p := Pow2(times - 1);
      assert minutes * (2 * p) == 2 * (minutes * p);
    }
  }

  /** How many minutes the lock after `locks` earlier ones lasts. */
  function LockMinutes(policy: Policy, locks: nat): nat {
    Min(Doubled(policy.minutes, Min(locks, 32)), policy.maxMinutes)
  }

  function LockEnds(policy: Policy, locks: nat, now: Time): Time {
    now + MINUTE * LockMinutes(policy, locks)
  }

  /** The pending lock, taken at `now`. */
  function Locked(run: Run, policy: Policy, now: Time): Run {
    run.(failures := 0, locks := run.locks + 1, pending := false,
         lockedUntil := Some(LockEnds(policy, run.locks, now)))
  }

  /**
   * One answer counted against a run: `miss` is the wrong password, or nothing
   * where the password was right and the run pending. `recorded` is whether the
   * audit took the lock's line, where one was written.
   */
  datatype Offer = Offer(miss: Option<Miss>, policy: Policy, now: Time, recorded: bool)

  /** The run after the counting statement alone. */
  function AfterCount(run: Option<Run>, offer: Offer): Option<Run> {
    if offer.miss.None? then run else Some(Count(run, offer.miss.value, offer.policy, offer.now))
  }

  /** Whether the statement after it finds a pending lock and its line lands. */
  predicate TakesLock(run: Option<Run>, offer: Offer) {
    var counted := AfterCount(run, offer);
    counted.Some? && counted.value.pending && offer.recorded
  }

  /** The whole transaction: count, then take a pending lock with its line or leave it pending. */
  function AfterOffer(run: Option<Run>, offer: Offer): Option<Run> {
    var counted := AfterCount(run, offer);
    if TakesLock(run, offer) then Some(Locked(counted.value, offer.policy, offer.now)) else counted
  }

  function AfterOffers(run: Option<Run>, offers: seq<Offer>): Option<Run>
    decreases offers
  {
    if offers == [] then run else AfterOffers(AfterOffer(run, offers[0]), offers[1..])
  }

  predicate IsCounted(run: Option<Run>, offer: Offer) {
    offer.miss.Some? && Counts(run, offer.miss.value, offer.now)
  }

  function CountedMiss(run: Option<Run>, offer: Offer): seq<Miss> {
    if IsCounted(run, offer) then [offer.miss.value] else []
  }

  /** The wrong passwords the offers get counted, in order. */
  function CountedMisses(run: Option<Run>, offers: seq<Offer>): seq<Miss>
    decreases offers
  {
    if offers == [] then []
    else CountedMiss(run, offers[0]) + CountedMisses(AfterOffer(run, offers[0]), offers[1..])
  }

  function Misses(run: Option<Run>): seq<Miss> { if run.Some? then run.value.misses else [] }

  function Latest(misses: seq<Miss>): seq<Miss> {
    misses[Max(|misses| - REMEMBERED_MISSES, 0)..]
  }

  // --- What a run remembers ---------------------------------------------

  lemma AnOfferRemembersTheLatest(run: Option<Run>, offer: Offer, earlier: seq<Miss>)
    requires Misses(run) == Latest(earlier)
    ensures Misses(AfterOffer(run, offer)) == Latest(earlier + CountedMiss(run, offer))
  {
    if !IsCounted(run, offer) { assert earlier + [] == earlier; }
  }

  /** Over any offers, whenever they come, a run holds exactly the latest three it counted. */
  lemma {:induction false} MissesAreTheLatestCounted(run: Option<Run>, offers: seq<Offer>, earlier: seq<Miss>)
    requires Misses(run) == Latest(earlier)
    ensures Misses(AfterOffers(run, offers)) == Latest(earlier + CountedMisses(run, offers))
    decreases offers
  {
    hide AfterOffer, CountedMiss, Latest, Misses;
    if offers == [] {
      assert earlier + [] == earlier;
    } else {
      var after, now := AfterOffer(run, offers[0]), CountedMiss(run, offers[0]);
      AnOfferRemembersTheLatest(run, offers[0], earlier);
      MissesAreTheLatestCounted(after, offers[1..], earlier + now);
      assert earlier + (now + CountedMisses(after, offers[1..])) == (earlier + now) + CountedMisses(after, offers[1..]);
    }
  }

  ghost predicate Distinct<T>(s: seq<T>) {
    forall i, j :: 0 <= i < j < |s| ==> s[i] != s[j]
  }

  ghost predicate AllFrom(offers: seq<Offer>, wrong: set<Miss>) {
    forall i :: 0 <= i < |offers| ==> offers[i].miss.Some? ==> offers[i].miss.value in wrong
  }

  lemma DistinctFitsIn<T>(s: seq<T>, from: set<T>)
    requires Distinct(s) && forall i :: 0 <= i < |s| ==> s[i] in from
    ensures |s| <= |from|
  {
    if s != [] {
      var last := |s| - 1;
      assert s[last] in from;
      DistinctFitsIn(s[..last], from - {s[last]});
    }
  }

  lemma LatestHoldsTheNewest(before: seq<Miss>, counted: seq<Miss>, miss: Miss)
    requires |counted| <= REMEMBERED_MISSES && miss !in Latest(before + counted)
    ensures miss !in counted
  {
    var latest := Latest(before + counted);
    forall i | 0 <= i < |counted| ensures counted[i] != miss {
      assert latest[|latest| - |counted| + i] == counted[i];
    }
  }

  /** A miss is counted only where the run does not hold it, so `counted` stays without repeats. */
  lemma CountingStaysDistinct(run: Option<Run>, offer: Offer, wrong: set<Miss>, before: seq<Miss>, counted: seq<Miss>)
    requires |wrong| <= REMEMBERED_MISSES && (offer.miss.Some? ==> offer.miss.value in wrong)
    requires Misses(run) == Latest(before + counted) && OnceEach(counted, wrong)
    ensures OnceEach(counted + CountedMiss(run, offer), wrong)
  {
    hide Latest;
    DistinctFitsIn(counted, wrong);
    if IsCounted(run, offer) {
      LatestHoldsTheNewest(before, counted, offer.miss.value);
    } else {
      assert counted + [] == counted;
    }
  }

  ghost predicate OnceEach(s: seq<Miss>, wrong: set<Miss>) {
    Distinct(s) && forall i :: 0 <= i < |s| ==> s[i] in wrong
  }

  /**
   * At most three wrong passwords, offered in any order, at any times, across
   * locks and however the thresholds move, are each counted at most once for as
   * long as the run is kept. `counted` are those counted already.
   */
  lemma {:induction false} FewPasswordsCountOnce(
      run: Option<Run>, offers: seq<Offer>, wrong: set<Miss>, before: seq<Miss>, counted: seq<Miss>)
    requires |wrong| <= REMEMBERED_MISSES && AllFrom(offers, wrong)
    requires Misses(run) == Latest(before + counted) && OnceEach(counted, wrong)
    ensures OnceEach(counted + CountedMisses(run, offers), wrong)
    decreases offers
  {
    hide Latest, Misses, AfterOffer, CountedMiss, OnceEach;
    if offers == [] {
      assert counted + [] == counted;
    } else {
      var after, now := AfterOffer(run, offers[0]), CountedMiss(run, offers[0]);
      AnOfferRemembersTheLatest(run, offers[0], before + counted);
      CountingStaysDistinct(run, offers[0], wrong, before, counted);
      assert before + (counted + now) == (before + counted) + now;
      FewPasswordsCountOnce(after, offers[1..], wrong, before, counted + now);
      var later := CountedMisses(after, offers[1..]);
      assert counted + (now + later) == (counted + now) + later;
    }
  }

  /** From any kept run, three wrong passwords raise the count by at most one each. */
  lemma ThreeWrongPasswordsCountAtMostOnceEach(run: Option<Run>, offers: seq<Offer>, wrong: set<Miss>)
    requires |Misses(run)| <= REMEMBERED_MISSES
    requires |wrong| <= REMEMBERED_MISSES && AllFrom(offers, wrong)
    ensures Distinct(CountedMisses(run, offers))
    ensures |CountedMisses(run, offers)| <= |wrong|
  {
    hide AfterOffer, CountedMiss;
    var before, counted := Misses(run), CountedMisses(run, offers);
    assert before + [] == before == Latest(before);
    FewPasswordsCountOnce(run, offers, wrong, before, []);
    assert [] + counted == counted;
    DistinctFitsIn(counted, wrong);
  }

  /** Three is exact: four wrong passwords in turn count the first of them again. */
  lemma FourWrongPasswordsCountAgain(user: User, policy: Policy, now: Time)
    ensures var a, b, c, d := Wrong(user, "a", policy, now), Wrong(user, "b", policy, now),
                              Wrong(user, "c", policy, now), Wrong(user, "d", policy, now);
            policy.afterFailures > 5 ==> |CountedMisses(None, [a, b, c, d, a])| == 5
  {
    if policy.afterFailures > 5 {
      hide CountedMisses;
      var a, b, c, d := Wrong(user, "a", policy, now), Wrong(user, "b", policy, now),
                        Wrong(user, "c", policy, now), Wrong(user, "d", policy, now);
      var r1 := AfterOffer(None, a);
      var r2 := AfterOffer(r1, b);
      var r3 := AfterOffer(r2, c);
      var r4 := AfterOffer(r3, d);
      assert r2.value.misses == [a.miss.value, b.miss.value];
      assert r3.value.misses == [a.miss.value, b.miss.value, c.miss.value];
      assert r4.value.misses == [b.miss.value, c.miss.value, d.miss.value];
      ACountedOfferAddsOne(r4, a, []);
      ACountedOfferAddsOne(r3, d, [a]);
      ACountedOfferAddsOne(r2, c, [d, a]);
      ACountedOfferAddsOne(r1, b, [c, d, a]);
      ACountedOfferAddsOne(None, a, [b, c, d, a]);
      assert [a] + [b, c, d, a] == [a, b, c, d, a];
      assert [b] + [c, d, a] == [b, c, d, a];
      assert [c] + [d, a] == [c, d, a];
      assert [d] + [a] == [d, a];
      assert [a] + [] == [a];
    }
  }

  function Wrong(user: User, password: Password, policy: Policy, now: Time): Offer {
    Offer(Some(Miss(user, password)), policy, now, true)
  }

  lemma ACountedOfferAddsOne(run: Option<Run>, offer: Offer, rest: seq<Offer>)
    requires IsCounted(run, offer)
    ensures |CountedMisses(run, [offer] + rest)| == 1 + |CountedMisses(AfterOffer(run, offer), rest)|
  {
    assert ([offer] + rest)[1..] == rest;
  }

  // --- The threshold ------------------------------------------------------

  /** With the threshold at `n`: pending exactly from `n` failures on. */
  ghost predicate PendingFrom(run: Option<Run>, n: nat) {
    run.Some? ==> (run.value.pending <==> run.value.failures >= n)
  }

  lemma OffersKeepPendingFrom(run: Option<Run>, offer: Offer, n: nat)
    requires PendingFrom(run, n) && offer.policy.afterFailures == n
    ensures PendingFrom(AfterOffer(run, offer), n)
  {}

  // --- The back-off -------------------------------------------------------

  /** A lock that fell, and when it ends. */
  datatype Fallen = Fallen(at: Time, until: Time)

  function LockFallen(run: Option<Run>, offer: Offer): seq<Fallen> {
    if TakesLock(run, offer) then [Fallen(offer.now, AfterOffer(run, offer).value.lockedUntil.value)] else []
  }

  /** The locks the offers make fall, in order. */
  function LocksFallen(run: Option<Run>, offers: seq<Offer>): seq<Fallen>
    decreases offers
  {
    if offers == [] then []
    else LockFallen(run, offers[0]) + LocksFallen(AfterOffer(run, offers[0]), offers[1..])
  }

  function CountedNow(run: Option<Run>, offer: Offer): nat {
    if IsCounted(run, offer) && (run.None? || !run.value.pending) then 1 else 0
  }

  /** How many failures the offers get counted while no lock is pending. */
  function CountedWhileOpen(run: Option<Run>, offers: seq<Offer>): nat
    decreases offers
  {
    if offers == [] then 0
    else CountedNow(run, offers[0]) + CountedWhileOpen(AfterOffer(run, offers[0]), offers[1..])
  }

  ghost predicate FixedPolicy(offers: seq<Offer>, policy: Policy) {
    forall i :: 0 <= i < |offers| ==> offers[i].policy == policy
  }

  ghost predicate InOrder(offers: seq<Offer>, clock: Time) {
    (forall i :: 0 <= i < |offers| ==> clock <= offers[i].now) &&
    (forall i, j :: 0 <= i < j < |offers| ==> offers[i].now <= offers[j].now)
  }

  lemma {:induction false} DoublingGrows(minutes: nat, a: nat, b: nat)
    requires a <= b
    ensures Doubled(minutes, a) <= Doubled(minutes, b)
  {
    if a < b { DoublingGrows(minutes, a, b - 1); }
  }

  /** No later lock is shorter, the first is the install's, and none passes its longest. */
  lemma LocksOnlyLengthen(policy: Policy, earlier: nat, later: nat)
    requires earlier <= later
    ensures policy.minutes == LockMinutes(policy, 0)
    ensures policy.minutes <= LockMinutes(policy, earlier) <= LockMinutes(policy, later) <= policy.maxMinutes
  {
    DoublingGrows(policy.minutes, Min(earlier, 32), Min(later, 32));
  }

  /** The minutes of a lock, by the power of two and by the lock before it. */
  lemma ALockLasts(policy: Policy, locks: nat)
    ensures LockMinutes(policy, locks)
         == (var doubled := policy.minutes * Pow2(if locks < 32 then locks else 32);
             if doubled <= policy.maxMinutes then doubled else policy.maxMinutes)
    ensures locks == 0 ==> LockMinutes(policy, locks) == policy.minutes
    ensures 0 < locks <= 32 ==>
              var twice := 2 * LockMinutes(policy, locks - 1);
              LockMinutes(policy, locks) == if twice <= policy.maxMinutes then twice else policy.maxMinutes
    ensures 32 < locks ==> LockMinutes(policy, locks) == LockMinutes(policy, locks - 1)
  {
    DoubledIsAPower(policy.minutes, Min(locks, 32));
  }

  /** Milliseconds a lock lasts after `k` earlier ones: the first's doubled k times, thirty-two at most, and capped. */
  function Term(policy: Policy, k: nat): nat {
    var doubled := policy.minutes * Pow2(if k < 32 then k else 32);
    60_000 * (if doubled <= policy.maxMinutes then doubled else policy.maxMinutes)
  }

  ghost predicate LastsItsTerm(fallen: seq<Fallen>, policy: Policy, k: nat)
    requires k < |fallen|
  {
    fallen[k].until - fallen[k].at == Term(policy, k)
  }

  /** And by the lock before it: as long as the first, or twice the one before, or no longer than that. */
  ghost predicate BacksOff(fallen: seq<Fallen>, policy: Policy, k: nat)
    requires k < |fallen|
  {
    var lasts := fallen[k].until - fallen[k].at;
    if k == 0 then lasts == 60_000 * policy.minutes
    else
      var before := fallen[k - 1].until - fallen[k - 1].at;
      && fallen[k - 1].until <= fallen[k].at
      && (k <= 32 ==>
            lasts == if 2 * before <= 60_000 * policy.maxMinutes then 2 * before else 60_000 * policy.maxMinutes)
      && (k > 32 ==> lasts == before)
  }

  lemma SpacedLocksBackOff(fallen: seq<Fallen>, policy: Policy, k: nat)
    requires Spaced(fallen, policy) && k < |fallen|
    ensures LastsItsTerm(fallen, policy, k) && BacksOff(fallen, policy, k)
  {
    hide LockMinutes;
    ALockLasts(policy, k);
  }

  ghost predicate Spaced(fallen: seq<Fallen>, policy: Policy) {
    (forall k :: 0 <= k < |fallen| ==> fallen[k].until == LockEnds(policy, k, fallen[k].at)) &&
    (forall k :: 0 < k < |fallen| ==> fallen[k - 1].until <= fallen[k].at)
  }

  /** `n` failures for each of `locks` locks. */
  function Quota(n: nat, locks: nat): nat { if locks == 0 then 0 else Quota(n, locks - 1) + n }

  lemma {:induction false} QuotaIsAProduct(n: nat, locks: nat)
    ensures Quota(n, locks) == n * locks
  {
    if locks > 0 { QuotaIsAProduct(n, locks - 1); }
  }

  /** What the run's columns say of the locks that have fallen on it and the failures that made them. */
  ghost predicate Ledger(run: Option<Run>, policy: Policy, clock: Time, fallen: seq<Fallen>, open: nat) {
    && Spaced(fallen, policy)
    && match run {
         case None => fallen == [] && open == 0
         case Some(r) =>
           && r.locks == |fallen|
           && r.lockedUntil == (if fallen == [] then None else Some(fallen[|fallen| - 1].until))
           && (r.pending <==> r.failures >= policy.afterFailures)
           && (r.pending ==> !IsLocked(r, clock))
           && open == Quota(policy.afterFailures, |fallen|) + Min(r.failures, policy.afterFailures)
       }
  }

  lemma CountingKeepsTheLedger(run: Option<Run>, offer: Offer, clock: Time, fallen: seq<Fallen>, open: nat)
    requires Ledger(run, offer.policy, clock, fallen, open) && clock <= offer.now
    ensures Ledger(AfterCount(run, offer), offer.policy, offer.now, fallen, open + CountedNow(run, offer))
  {
    hide Spaced;
  }

  lemma LockingKeepsTheLedger(run: Run, policy: Policy, now: Time, fallen: seq<Fallen>, open: nat)
    requires Ledger(Some(run), policy, now, fallen, open) && run.pending
    ensures Ledger(Some(Locked(run, policy, now)), policy, now,
                   fallen + [Fallen(now, LockEnds(policy, run.locks, now))], open)
  {
    hide LockMinutes;
    var grown := fallen + [Fallen(now, LockEnds(policy, run.locks, now))];
    assert grown[..|fallen|] == fallen;
    assert Quota(policy.afterFailures, |grown|) == Quota(policy.afterFailures, |fallen|) + policy.afterFailures;
  }

  lemma AnOfferKeepsTheLedger(run: Option<Run>, offer: Offer, clock: Time, fallen: seq<Fallen>, open: nat)
    requires Ledger(run, offer.policy, clock, fallen, open) && clock <= offer.now
    ensures Ledger(AfterOffer(run, offer), offer.policy, offer.now,
                   fallen + LockFallen(run, offer), open + CountedNow(run, offer))
  {
    hide AfterCount, CountedNow, Ledger;
    CountingKeepsTheLedger(run, offer, clock, fallen, open);
    if TakesLock(run, offer) {
      LockingKeepsTheLedger(AfterCount(run, offer).value, offer.policy, offer.now, fallen,
                            open + CountedNow(run, offer));
    } else {
      assert fallen + [] == fallen;
    }
  }

  function LastMoment(offers: seq<Offer>, clock: Time): Time {
    if offers == [] then clock else offers[|offers| - 1].now
  }

  lemma {:induction false} OffersKeepTheLedger(
      run: Option<Run>, offers: seq<Offer>, policy: Policy, clock: Time, fallen: seq<Fallen>, open: nat)
    requires Ledger(run, policy, clock, fallen, open)
    requires FixedPolicy(offers, policy) && InOrder(offers, clock)
    ensures Ledger(AfterOffers(run, offers), policy, LastMoment(offers, clock),
                   fallen + LocksFallen(run, offers), open + CountedWhileOpen(run, offers))
    decreases offers
  {
    hide Ledger, AfterOffer, LockFallen, CountedNow;
    if offers == [] {
      assert fallen + [] == fallen;
    } else {
      var offer := offers[0];
      AnOfferKeepsTheLedger(run, offer, clock, fallen, open);
      var after, fell := AfterOffer(run, offer), LockFallen(run, offer);
      OffersKeepTheLedger(after, offers[1..], policy, offer.now, fallen + fell, open + CountedNow(run, offer));
      assert (fallen + fell) + LocksFallen(after, offers[1..]) == fallen + (fell + LocksFallen(after, offers[1..]));
    }
  }

  /** Milliseconds the first `k` locks of a run last together. */
  function ShutFor(policy: Policy, k: nat): nat {
    if k == 0 then 0 else ShutFor(policy, k - 1) + MINUTE * LockMinutes(policy, k - 1)
  }

  lemma {:induction false} SpacedLocksAreFarApart(fallen: seq<Fallen>, policy: Policy, k: nat)
    requires Spaced(fallen, policy) && k < |fallen|
    ensures fallen[k].at - fallen[0].at >= ShutFor(policy, k)
  {
    if k > 0 { SpacedLocksAreFarApart(fallen, policy, k - 1); }
  }

  /** What the run's own columns say of its locks and its failures. */
  ghost predicate RunTells(run: Option<Run>, policy: Policy, fallen: seq<Fallen>, open: nat) {
    match run
    case None => fallen == [] && open == 0
    case Some(r) =>
      && r.locks == |fallen|
      && r.lockedUntil == (if fallen == [] then None else Some(fallen[|fallen| - 1].until))
      && open == policy.afterFailures * |fallen|
                 + (if r.failures <= policy.afterFailures then r.failures else policy.afterFailures)
  }

  lemma LedgerBoundsFailures(run: Option<Run>, policy: Policy, clock: Time, fallen: seq<Fallen>, open: nat)
    requires Ledger(run, policy, clock, fallen, open)
    ensures Spaced(fallen, policy) && RunTells(run, policy, fallen, open)
    ensures var quota := Quota(policy.afterFailures, |fallen|); quota <= open <= quota + policy.afterFailures
  {
    hide Spaced;
    QuotaIsAProduct(policy.afterFailures, |fallen|);
  }

  lemma LedgerFromNothing(
      run: Option<Run>, offers: seq<Offer>, policy: Policy, clock: Time, fallen: seq<Fallen>, open: nat)
    requires run.None? && FixedPolicy(offers, policy) && InOrder(offers, clock)
    requires fallen == LocksFallen(run, offers) && open == CountedWhileOpen(run, offers)
    ensures Spaced(fallen, policy) && RunTells(AfterOffers(run, offers), policy, fallen, open)
    ensures var quota := Quota(policy.afterFailures, |fallen|); quota <= open <= quota + policy.afterFailures
  {
    hide AfterOffer, LockFallen, CountedNow;
    OffersKeepTheLedger(run, offers, policy, clock, [], 0);
    assert [] + fallen == fallen && 0 + open == open;
    LedgerBoundsFailures(AfterOffers(run, offers), policy, LastMoment(offers, clock), fallen, open);
  }

  /**
   * A run from its first row, one policy, the clock never going back: the locks
   * that fell and the failures counted while open are what the run's columns
   * say; each lock lasts its term, comes no sooner than the one before has run
   * out, and is twice as long or the longest there is; and the failures counted
   * while open are a threshold's worth a lock.
   */
  lemma BackOffBoundsGuessing(offers: seq<Offer>, policy: Policy, clock: Time, k: nat)
    requires FixedPolicy(offers, policy) && InOrder(offers, clock)
    ensures var fallen, open := LocksFallen(None, offers), CountedWhileOpen(None, offers);
            && RunTells(AfterOffers(None, offers), policy, fallen, open)
            && (k < |fallen| ==> LastsItsTerm(fallen, policy, k) && BacksOff(fallen, policy, k))
            && (k < |fallen| ==> fallen[k].at - fallen[0].at >= ShutFor(policy, k))
            && policy.afterFailures * |fallen| <= open <= policy.afterFailures * |fallen| + policy.afterFailures
  {
    hide RunTells, LastsItsTerm, BacksOff, Spaced, Term;
    var run: Option<Run> := None;
    var fallen, open := LocksFallen(run, offers), CountedWhileOpen(run, offers);
    LedgerFromNothing(run, offers, policy, clock, fallen, open);
    QuotaIsAProduct(policy.afterFailures, |fallen|);
    if k < |fallen| {
      SpacedLocksAreFarApart(fallen, policy, k);
      SpacedLocksBackOff(fallen, policy, k);
    }
  }

  // --- A lock falls, and ends -----------------------------------------------

  ghost predicate DistinctMisses(offers: seq<Offer>) {
    && (forall i :: 0 <= i < |offers| ==> offers[i].miss.Some?)
    && forall i, j :: 0 <= i < j < |offers| ==> offers[i].miss != offers[j].miss
  }

  /** A run of this many failures and locks, none lasting, that holds none of these misses. */
  ghost predicate ReadyFor(run: Option<Run>, failures: nat, locks: nat, offers: seq<Offer>) {
    && (run.None? ==> failures == 0 && locks == 0)
    && (run.Some? ==>
          && run.value.failures == failures && run.value.locks == locks && !run.value.pending
          && forall i :: 0 <= i < |offers| ==>
               && (offers[i].miss.Some? ==> offers[i].miss.value !in run.value.misses)
               && (run.value.lockedUntil.Some? ==> run.value.lockedUntil.value <= offers[i].now))
  }

  lemma OneOfManyWrongPasswords(run: Option<Run>, failures: nat, locks: nat, offers: seq<Offer>)
    requires DistinctMisses(offers) && offers != [] && ReadyFor(run, failures, locks, offers)
    requires failures + 1 < offers[0].policy.afterFailures
    ensures ReadyFor(AfterOffer(run, offers[0]), failures + 1, locks, offers[1..])
  {
    var after := AfterOffer(run, offers[0]);
    assert after.value.failures == failures + 1;
    forall i | 0 <= i < |offers[1..]|
      ensures offers[1..][i].miss.value !in after.value.misses
      ensures after.value.lockedUntil.Some? ==> after.value.lockedUntil.value <= offers[1..][i].now
    {
      assert offers[1..][i] == offers[i + 1] && offers[i + 1].miss != offers[0].miss;
      assert forall m :: m in after.value.misses ==> m == offers[0].miss.value || (run.Some? && m in run.value.misses);
    }
  }

  /**
   * Once no lock lasts, as many different wrong passwords as the threshold
   * lock the run at the last of them, for its next term, whenever they come.
   */
  lemma {:induction false} EnoughWrongPasswordsLock(
      run: Option<Run>, failures: nat, locks: nat, offers: seq<Offer>, policy: Policy)
    requires DistinctMisses(offers) && FixedPolicy(offers, policy) && ReadyFor(run, failures, locks, offers)
    requires offers != [] && failures + |offers| == policy.afterFailures && offers[|offers| - 1].recorded
    ensures var last := offers[|offers| - 1];
            && AfterOffers(run, offers).Some?
            && var after := AfterOffers(run, offers).value;
               && after.locks == locks + 1 && after.failures == 0 && !after.pending
               && after.lockedUntil == Some(last.now + Term(policy, locks))
    decreases offers
  {
    if |offers| == 1 {
      hide LockMinutes;
      ALockLasts(policy, locks);
      assert offers[1..] == [];
      var after := AfterOffer(run, offers[0]);
      assert AfterOffers(run, offers) == AfterOffers(after, offers[1..]) == after;
    } else {
      hide AfterOffer, ReadyFor, Term;
      OneOfManyWrongPasswords(run, failures, locks, offers);
      EnoughWrongPasswordsLock(AfterOffer(run, offers[0]), failures + 1, locks, offers[1..], policy);
    }
  }

  /** While a lock lasts nothing is counted, remembered or extended. */
  lemma ALockedRunStandsStill(run: Run, offer: Offer, until: Time)
    requires run.lockedUntil == Some(until) && offer.now < until && !run.pending
    ensures AfterOffer(Some(run), offer) == Some(run)
  {}
}
