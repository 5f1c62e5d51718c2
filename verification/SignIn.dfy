/**
 * Checking a password: the tables it reads and writes, each statement of the
 * check in order, and what holds over any history of checks, releases and
 * prunes that run one after another. `SignInRaces` lets them interleave.
 */
module SignIn {
  import opened Wrappers
  import opened Lockout
  import opened FamiliarAddresses

  /** The lockout table's primary key: an account, and which of its two runs. */
  datatype RunKey = RunKey(user: User, familiar: bool)

  datatype Line =
    | AccountLocked(key: RunKey, failures: nat, minutes: nat)
    | AddressesPruned(removed: nat, accounts: nat)

  /** The accounts' passwords, the runs, the familiar addresses and the audit. */
  datatype Store = Store(passwords: map<User, Password>, runs: map<RunKey, Run>, known: Table, lines: seq<Line>)

  /**
   * One password check, with the policy it reads and whether the audit takes a
   * lock's line. An account nobody holds is a `user` outside the store.
   */
  datatype Check = Check(user: User, password: Password, address: Option<Address>, now: Time,
                         policy: Policy, recorded: bool)

  predicate FromFamiliar(known: Table, c: Check) {
    c.address.Some? && FamiliarTo(known, c.user, c.address.value, c.now)
  }

  /** The run this caller's answer belongs to. */
  function KeyOf(known: Table, c: Check): RunKey { RunKey(c.user, FromFamiliar(known, c)) }

  function RunAt(runs: map<RunKey, Run>, key: RunKey): Option<Run> {
    if key in runs then Some(runs[key]) else None
  }

  predicate IsRight(s: Store, c: Check) { c.user in s.passwords && s.passwords[c.user] == c.password }

  function OfferOf(s: Store, c: Check): Offer {
    Offer(if IsRight(s, c) then None else Some(Miss(c.user, c.password)), c.policy, c.now, c.recorded)
  }

  function WithRun(runs: map<RunKey, Run>, key: RunKey, run: Option<Run>): map<RunKey, Run> {
    if run.Some? then runs[key := run.value] else runs - {key}
  }

  /** The line a lock is taken with, where this offer takes one. */
  function LineFor(run: Option<Run>, key: RunKey, offer: Offer): seq<Line> {
    if TakesLock(run, offer) then
      var counted := AfterCount(run, offer).value;
      [AccountLocked(key, counted.failures, LockMinutes(offer.policy, counted.locks))]
    else []
  }

  /** The store once an answer has been counted against a run. */
  function Counted(s: Store, key: RunKey, offer: Offer): Store {
    var run := RunAt(s.runs, key);
    s.(runs := WithRun(s.runs, key, AfterOffer(run, offer)), lines := s.lines + LineFor(run, key, offer))
  }

  /** The store once a right password is let in: its run forgotten, its address familiar. */
  function Admitted(s: Store, key: RunKey, address: Option<Address>, now: Time): Store {
    s.(runs := s.runs - {key},
       known := if address.Some? then Renewed(s.known, key.user, address.value, now) else s.known)
  }

  /** What a check answers. */
  predicate Admits(s: Store, c: Check) {
    IsRight(s, c) && IsOpen(RunAt(s.runs, KeyOf(s.known, c)), c.now)
  }

  /** Whether a check reaches the counting statement with something to count or a lock to try. */
  predicate IsAnswered(s: Store, c: Check) {
    c.user in s.passwords &&
    var run := RunAt(s.runs, KeyOf(s.known, c));
    run.None? || !IsLocked(run.value, c.now)
  }

  function AfterCheck(s: Store, c: Check): Store {
    var key := KeyOf(s.known, c);
    if Admits(s, c) then Admitted(s, key, c.address, c.now)
    else if IsAnswered(s, c) then Counted(s, key, OfferOf(s, c))
    else s
  }

  /** An administrator's release: both of the account's runs. */
  function AfterClear(s: Store, user: User): Store {
    s.(runs := map k | k in s.runs && k.user != user :: s.runs[k])
  }

  function UsersOf(rows: set<Held>): set<User> { set h | h in rows :: h.user }

  /** A prune pass, which removes nothing where its line cannot be written. */
  function AfterPrune(s: Store, now: Time, recorded: bool): Store {
    var gone := s.known.Keys - Prune(s.known, now).Keys;
    if gone == {} || !recorded then s
    else s.(known := Prune(s.known, now),
            lines := s.lines + [AddressesPruned(|gone|, |UsersOf(gone)|)])
  }

  // --- What a check does, on the rows themselves ----------------------------

  /** The run's row keeps nobody out: there is none, or no lock is pending on it and none lasts. */
  ghost predicate LetsIn(runs: map<RunKey, Run>, key: RunKey, now: Time) {
    key in runs ==>
      && !runs[key].pending
      && (runs[key].lockedUntil.Some? ==> runs[key].lockedUntil.value <= now)
  }

  /** Every run but this one is as it was. */
  ghost predicate OtherRunsStand(before: map<RunKey, Run>, after: map<RunKey, Run>, except: RunKey) {
    forall k :: k != except ==> (k in after <==> k in before) && (k in after ==> after[k] == before[k])
  }

  /** Every address row but this one is as it was. */
  ghost predicate OtherAddressesStand(before: Table, after: Table, except: Held) {
    forall h :: h != except ==> (h in after <==> h in before) && (h in after ==> after[h] == before[h])
  }

  /**
   * The answer is yes exactly for the account's own password on a run that
   * keeps nobody out. A yes forgets that run and dates the caller's address;
   * a no leaves the addresses, and a run whose lock lasts, as they were; and
   * no check touches another run or another address.
   */
  lemma WhatACheckDoes(s: Store, c: Check)
    ensures var key := RunKey(c.user, c.address.Some? && FamiliarTo(s.known, c.user, c.address.value, c.now));
            var t := AfterCheck(s, c);
            && (Admits(s, c) <==>
                  c.user in s.passwords && s.passwords[c.user] == c.password && LetsIn(s.runs, key, c.now))
            && t.passwords == s.passwords && OtherRunsStand(s.runs, t.runs, key)
            && (Admits(s, c) ==> key !in t.runs && t.lines == s.lines)
            && (Admits(s, c) && c.address.Some? ==>
                  && Held(c.user, c.address.value) in t.known && t.known[Held(c.user, c.address.value)] == c.now
                  && OtherAddressesStand(s.known, t.known, Held(c.user, c.address.value)))
            && (!Admits(s, c) || c.address.None? ==> t.known == s.known)
            && (key in s.runs && s.runs[key].lockedUntil.Some? && s.runs[key].lockedUntil.value > c.now ==> t == s)
            && (c.user !in s.passwords ==> t == s)
            && (c.user in s.passwords && !Admits(s, c)
                && (key in s.runs && s.runs[key].lockedUntil.Some? ==> s.runs[key].lockedUntil.value <= c.now) ==>
                  var miss := if s.passwords[c.user] == c.password then None else Some(Miss(c.user, c.password));
                  var run := if key in s.runs then Some(s.runs[key]) else None;
                  RunAt(t.runs, key) == AfterOffer(run, Offer(miss, c.policy, c.now, c.recorded)))
  {
    hide FamiliarTo, AfterOffer, LineFor;
  }

  lemma WhatAPruneDoes(s: Store, now: Time, recorded: bool, gone: set<Held>, kept: Table)
    requires gone == set h | h in s.known && Pruned(s.known, h, now)
    requires kept == map h | h in s.known && h !in gone :: s.known[h]
    ensures kept == Prune(s.known, now) && gone == s.known.Keys - kept.Keys && (gone == {} <==> kept == s.known)
    ensures AfterPrune(s, now, recorded) ==
              if gone == {} || !recorded then s
              else s.(known := kept, lines := s.lines + [AddressesPruned(|gone|, |UsersOf(gone)|)])
    ensures forall user :: user in UsersOf(gone) <==> exists h :: h in gone && h.user == user
  {
    assert forall user :: user in UsersOf(gone) <==> exists h :: h in gone && h.user == user;
    hide Pruned, UsersOf;
    assert kept == Prune(s.known, now);
  }

  /** Once released, the account's own password is let in from any address, and nobody else's run has moved. */
  lemma AReleaseLetsTheAccountIn(s: Store, user: User)
    ensures var t := AfterClear(s, user);
            && t.passwords == s.passwords && t.known == s.known && t.lines == s.lines
            && (forall key: RunKey :: key in t.runs <==> key in s.runs && key.user != user)
            && (forall key: RunKey :: key in t.runs ==> t.runs[key] == s.runs[key])
            && (forall c: Check :: c.user == user && user in s.passwords && s.passwords[user] == c.password ==>
                  Admits(t, c))
  {}

  /** The tables as the service holds them, written statement by statement. */
  class SignInTables {
    const passwords: map<User, Password>
    var runs: map<RunKey, Run>
    var known: Table
    var lines: seq<Line>

    constructor (passwords: map<User, Password>)
      ensures Value() == Store(passwords, map[], map[], [])
    {
      this.passwords := passwords;
      runs, known, lines := map[], map[], [];
    }

    function Value(): Store
      reads this
    {
      Store(passwords, runs, known, lines)
    }

    /** The upsert, then the lock and its line under a savepoint. */
    method CountAgainst(key: RunKey, offer: Offer)
      modifies this`runs, this`lines
      ensures Value() == Counted(old(Value()), key, offer)
    {
      if offer.miss.Some? {
        var miss, threshold := offer.miss.value, offer.policy.afterFailures;
        if key !in runs {
          runs := runs[key := Run(1, 0, None, 1 >= threshold, [miss])];
        } else if miss !in runs[key].misses && !IsLocked(runs[key], offer.now) {
          var held := runs[key];
          runs := runs[key := held.(failures := held.failures + 1,
                                    pending := held.pending || held.failures + 1 >= threshold,
                                    misses := Remember(held.misses, miss))];
        }
      }
      var savepoint := runs;
      if key in runs && runs[key].pending {
        var held := runs[key];
        var ends := LockEnds(offer.policy, held.locks, offer.now);
        runs := runs[key := Run(0, held.locks + 1, Some(ends), false, held.misses)];
        if offer.recorded {
          lines := lines + [AccountLocked(key, held.failures, (ends - offer.now) / MINUTE)];
        } else {
          runs := savepoint;
        }
      }
      assert key !in old(runs) && offer.miss.None? ==> runs == old(runs) - {key};
    }

    /** The guarded delete, the re-read where it found nothing, then the familiar address. */
    method StartAgain(key: RunKey, address: Option<Address>, now: Time) returns (admitted: bool)
      modifies this`runs, this`known
      ensures admitted <==> LetsIn(old(runs), key, now)
      ensures admitted == IsOpen(RunAt(old(runs), key), now)
      ensures Value() == if admitted then Admitted(old(Value()), key, address, now) else old(Value())
    {
      var forgotten := key in runs && !runs[key].pending && !IsLocked(runs[key], now);
      if forgotten {
        runs := runs - {key};
      } else if key in runs && (runs[key].pending || IsLocked(runs[key], now)) {
        return false;
      }
      assert runs == old(runs) - {key};
      if address.Some? {
        known := known[Held(key.user, address.value) := now];
      }
      return true;
    }

    method CheckPassword(c: Check) returns (answer: bool)
      modifies this
      ensures var key := RunKey(c.user, c.address.Some? && FamiliarTo(old(known), c.user, c.address.value, c.now));
              answer <==> c.user in passwords && passwords[c.user] == c.password && LetsIn(old(runs), key, c.now)
      ensures answer == Admits(old(Value()), c)
      ensures Value() == AfterCheck(old(Value()), c)
    {
      WhatACheckDoes(Value(), c);
      if c.user !in passwords { return false; }
      var right := passwords[c.user] == c.password;
      var key := RunKey(c.user, c.address.Some? && FamiliarTo(known, c.user, c.address.value, c.now));
      var run := RunAt(runs, key);
      if run.None? || !IsLocked(run.value, c.now) {
        if right && !(run.Some? && run.value.pending) {
          answer := StartAgain(key, c.address, c.now);
          return;
        }
        CountAgainst(key, Offer(if right then None else Some(Miss(c.user, c.password)), c.policy, c.now, c.recorded));
      }
      return false;
    }

    method Clear(user: User)
      modifies this`runs
      ensures RunKey(user, true) !in runs && RunKey(user, false) !in runs
      ensures forall key: RunKey :: key.user != user ==> RunAt(runs, key) == RunAt(old(runs), key)
      ensures Value() == AfterClear(old(Value()), user)
    {
      runs := map k | k in runs && k.user != user :: runs[k];
    }

    /** How many addresses went, or nothing where the pass could not be recorded. */
    method PruneAddresses(now: Time, recorded: bool) returns (removed: Option<nat>)
      modifies this`known, this`lines
      ensures Value() == AfterPrune(old(Value()), now, recorded)
      ensures removed == None ==> known == old(known) && lines == old(lines) && !recorded
      ensures removed.Some? ==> removed.value == |old(known).Keys - known.Keys|
      ensures removed.Some? ==> known == Prune(old(known), now)
      ensures removed.Some? ==>
                lines == old(lines) + (if known == old(known) then []
                                       else [AddressesPruned(removed.value, |UsersOf(old(known).Keys - known.Keys)|)])
    {
      var gone := set h | h in known && Pruned(known, h, now);
      var kept := map h | h in known && h !in gone :: known[h];
      WhatAPruneDoes(Value(), now, recorded, gone, kept);
      hide AfterPrune, Prune, Pruned, UsersOf;
      if gone == {} { return Some(0); }
      if !recorded { return None; }
      known := kept;
      lines := lines + [AddressesPruned(|gone|, |UsersOf(gone)|)];
      return Some(|gone|);
    }
  }
}
