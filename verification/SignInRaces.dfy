/**
 * Password checks in flight together. Each statement of a check is one step;
 * between two steps of one check any step of another, a release or a prune may
 * run, and a check may carry a `now` as old as it likes. The count and its lock
 * are one step, since the transaction holds the run's row throughout.
 */
module SignInRaces {
  import opened Wrappers
  import opened Lockout
  import opened FamiliarAddresses
  import opened SignIn

  /** Where a check stands: what it read is in its key, what it has still to do in its stage. */
  datatype Stage =
    | Asked
    | Deleting(key: RunKey)
    | Rereading(key: RunKey)
    | Renewing(key: RunKey)
    | Counting(key: RunKey)
    | Answered(answer: bool)

  datatype Call = Call(check: Check, stage: Stage)

  datatype Race = Race(store: Store, calls: map<nat, Call>)

  datatype Step =
    | Ask(id: nat, check: Check)
    | Advance(id: nat)
    | Release(user: User)
    | PrunePass(now: Time, recorded: bool)

  function AtStage(r: Race, id: nat, store: Store, stage: Stage): Race
    requires id in r.calls
  {
    Race(store, r.calls[id := r.calls[id].(stage := stage)])
  }

  /** `runOf`, and the branch taken on what it read. */
  function FirstStage(s: Store, c: Check): Stage {
    if c.user !in s.passwords then Answered(false)
    else
      var key := KeyOf(s.known, c);
      var run := RunAt(s.runs, key);
      if run.Some? && IsLocked(run.value, c.now) then Answered(false)
      else if IsRight(s, c) && !(run.Some? && run.value.pending) then Deleting(key)
      else Counting(key)
  }

  /** The next statement of one check. */
  function Advanced(r: Race, id: nat): Race
    requires id in r.calls
  {
    var s, c := r.store, r.calls[id].check;
    match r.calls[id].stage
    case Asked => AtStage(r, id, s, FirstStage(s, c))
    case Deleting(key) =>
      if key in s.runs && IsOpen(RunAt(s.runs, key), c.now)
      then AtStage(r, id, s.(runs := s.runs - {key}), Renewing(key))
      else AtStage(r, id, s, Rereading(key))
    case Rereading(key) =>
      if IsOpen(RunAt(s.runs, key), c.now) then AtStage(r, id, s, Renewing(key))
      else AtStage(r, id, s, Answered(false))
    case Renewing(key) =>
      var known := if c.address.Some? then Renewed(s.known, key.user, c.address.value, c.now) else s.known;
      AtStage(r, id, s.(known := known), Answered(true))
    case Counting(key) => AtStage(r, id, Counted(s, key, OfferOf(s, c)), Answered(false))
    case Answered(_) => r
  }

  function Next(r: Race, step: Step): Race {
    match step
    case Ask(id, c) => if id in r.calls then r else r.(calls := r.calls[id := Call(c, Asked)])
    case Advance(id) => if id in r.calls then Advanced(r, id) else r
    case Release(user) => r.(store := AfterClear(r.store, user))
    case PrunePass(now, recorded) => r.(store := AfterPrune(r.store, now, recorded))
  }

  /** The state after every step. */
  function Reach(r: Race, steps: seq<Step>): Race
    decreases steps
  {
    if steps == [] then r else Next(Reach(r, steps[..|steps| - 1]), steps[|steps| - 1])
  }

  // --- Undisturbed, a check is atomic -------------------------------------

  function Uninterrupted(r: Race, id: nat): Race {
    Next(Next(Next(Next(r, Advance(id)), Advance(id)), Advance(id)), Advance(id))
  }

  /** A check whose steps nothing interrupts does what the atomic check does. */
  lemma AnUninterruptedCheckIsAtomic(r: Race, id: nat)
    requires id in r.calls && r.calls[id].stage == Asked
    ensures var s, c := r.store, r.calls[id].check;
            Uninterrupted(r, id).store == AfterCheck(s, c)
            && Uninterrupted(r, id).calls[id].stage == Answered(Admits(s, c))
  {
    hide FamiliarTo, AfterOffer, LineFor, IsLocked, Renewed, WithRun;
    var s, c := r.store, r.calls[id].check;
    var key := KeyOf(s.known, c);
    if Admits(s, c) {
      assert FirstStage(s, c) == Deleting(key);
      if key !in s.runs { assert s.runs - {key} == s.runs; }
    } else if IsAnswered(s, c) {
      assert FirstStage(s, c) == Counting(key);
    } else {
      assert FirstStage(s, c) == Answered(false);
    }
  }

  // --- A yes is decided on an open run ------------------------------------

  /** At this step the check finds its run open: deletes it, or re-reads and finds nothing against it. */
  ghost predicate Decides(r: Race, step: Step, id: nat) {
    && step == Advance(id) && id in r.calls
    && var call := r.calls[id];
       match call.stage
       case Deleting(key) => key in r.store.runs && IsOpen(RunAt(r.store.runs, key), call.check.now)
       case Rereading(key) => IsOpen(RunAt(r.store.runs, key), call.check.now)
       case _ => false
  }

  ghost predicate Decided(r: Race, steps: seq<Step>, id: nat) {
    exists k :: 0 <= k < |steps| && Decides(Reach(r, steps[..k]), steps[k], id)
  }

  predicate SaysYes(call: Call) { call.stage.Renewing? || call.stage == Answered(true) }

  lemma AYesNeedsADecision(r: Race, step: Step, id: nat)
    requires id in Next(r, step).calls && SaysYes(Next(r, step).calls[id])
    ensures Decides(r, step, id) || (id in r.calls && SaysYes(r.calls[id]))
  {
    hide Counted, AfterClear, AfterPrune, KeyOf, IsRight, IsLocked;
  }

  /**
   * In every interleaving a check that answers yes had a step at which its run
   * was absent, or neither pending nor locked as of the check's own `now`.
   */
  lemma {:induction false} AYesIsDecidedOnAnOpenRun(r: Race, steps: seq<Step>, id: nat)
    requires r.calls == map[]
    requires id in Reach(r, steps).calls && SaysYes(Reach(r, steps).calls[id])
    ensures Decided(r, steps, id)
    decreases steps
  {
    hide Next, Decides, SaysYes;
    if steps != [] {
      var last := |steps| - 1;
      var before := Reach(r, steps[..last]);
      AYesNeedsADecision(before, steps[last], id);
      if !Decides(before, steps[last], id) {
        AYesIsDecidedOnAnOpenRun(r, steps[..last], id);
        var k :| 0 <= k < last && Decides(Reach(r, steps[..last][..k]), steps[..last][k], id);
        assert steps[..last][..k] == steps[..k];
      }
    }
  }

  // --- With one threshold -------------------------------------------------

  ghost predicate OneThreshold(steps: seq<Step>, n: nat) {
    forall i :: 0 <= i < |steps| ==> steps[i].Ask? ==> steps[i].check.policy.afterFailures == n
  }

  /** A run is pending exactly when it holds `n` failures, and every check in flight reads `n`. */
  ghost predicate ThresholdKept(r: Race, n: nat) {
    && (forall key :: key in r.store.runs ==> PendingFrom(Some(r.store.runs[key]), n))
    && (forall id :: id in r.calls ==> r.calls[id].check.policy.afterFailures == n)
  }

  lemma AStepKeepsTheThreshold(r: Race, step: Step, n: nat)
    requires ThresholdKept(r, n) && OneThreshold([step], n)
    ensures ThresholdKept(Next(r, step), n)
  {
    hide AfterOffer, KeyOf, IsRight, IsLocked, IsOpen, LineFor, PendingFrom, Prune;
    assert [step][0] == step;
    if step.Advance? && step.id in r.calls && r.calls[step.id].stage.Counting? {
      var key, offer := r.calls[step.id].stage.key, OfferOf(r.store, r.calls[step.id].check);
      AnAbsentRunIsNotPending(n);
      OffersKeepPendingFrom(RunAt(r.store.runs, key), offer, n);
    }
  }

  lemma AnAbsentRunIsNotPending(n: nat)
    ensures PendingFrom(None, n)
  {}

  lemma {:induction false} StepsKeepTheThreshold(r: Race, steps: seq<Step>, n: nat)
    requires ThresholdKept(r, n) && OneThreshold(steps, n)
    ensures ThresholdKept(Reach(r, steps), n)
    decreases steps
  {
    hide Next, ThresholdKept;
    if steps != [] {
      var last := |steps| - 1;
      StepsKeepTheThreshold(r, steps[..last], n);
      AStepKeepsTheThreshold(Reach(r, steps[..last]), steps[last], n);
    }
  }

  /** The call's run, at a stage that names it. */
  function RunOfCall(r: Race, id: nat): Option<Run>
    requires id in r.calls
  {
    match r.calls[id].stage
    case Asked => None
    case Answered(_) => None
    case _ => RunAt(r.store.runs, r.calls[id].stage.key)
  }

  /** With the threshold fixed, a yes is decided, and every step that decides one finds fewer failures in the run. */
  lemma NoYesAtTheThreshold(r: Race, steps: seq<Step>, id: nat, n: nat)
    requires r.calls == map[] && ThresholdKept(r, n) && OneThreshold(steps, n)
    requires id in Reach(r, steps).calls && SaysYes(Reach(r, steps).calls[id])
    ensures Decided(r, steps, id)
    ensures forall k :: 0 <= k < |steps| && Decides(Reach(r, steps[..k]), steps[k], id) ==>
              BelowThreshold(RunOfCall(Reach(r, steps[..k]), id), n)
  {
    hide Next, SaysYes, Reach, BelowThreshold;
    AYesIsDecidedOnAnOpenRun(r, steps, id);
    forall k | 0 <= k < |steps| && Decides(Reach(r, steps[..k]), steps[k], id)
      ensures BelowThreshold(RunOfCall(Reach(r, steps[..k]), id), n)
    {
      StepsKeepTheThreshold(r, steps[..k], n);
      ADecisionIsBelowTheThreshold(Reach(r, steps[..k]), steps[k], id, n);
    }
  }

  predicate BelowThreshold(run: Option<Run>, n: nat) { run.Some? ==> run.value.failures < n }

  lemma ADecisionIsBelowTheThreshold(r: Race, step: Step, id: nat, n: nat)
    requires ThresholdKept(r, n) && Decides(r, step, id)
    ensures BelowThreshold(RunOfCall(r, id), n)
  {}

  // --- Every interleaving is some order of offers -------------------------

  /** Whether a step deletes the run's row. */
  ghost predicate Drops(r: Race, step: Step, key: RunKey) {
    step == Release(key.user) ||
    (step.Advance? && step.id in r.calls && r.calls[step.id].stage == Deleting(key) && Decides(r, step, step.id))
  }

  /** What a step offers the run. */
  function Landed(r: Race, step: Step, key: RunKey): seq<Offer> {
    if step.Advance? && step.id in r.calls && r.calls[step.id].stage == Counting(key)
    then [OfferOf(r.store, r.calls[step.id].check)] else []
  }

  function AllLanded(r: Race, steps: seq<Step>, key: RunKey): seq<Offer>
    decreases steps
  {
    if steps == [] then []
    else
      var before := steps[..|steps| - 1];
      AllLanded(r, before, key) + Landed(Reach(r, before), steps[|steps| - 1], key)
  }

  ghost predicate NeverDrops(r: Race, steps: seq<Step>, key: RunKey) {
    forall k :: 0 <= k < |steps| ==> !Drops(Reach(r, steps[..k]), steps[k], key)
  }

  lemma AStepMovesARun(r: Race, step: Step, key: RunKey)
    requires !Drops(r, step, key)
    ensures var landed := Landed(r, step, key);
            RunAt(Next(r, step).store.runs, key) ==
              if landed == [] then RunAt(r.store.runs, key) else AfterOffer(RunAt(r.store.runs, key), landed[0])
  {
    hide AfterOffer, KeyOf, IsRight, IsLocked, IsOpen, LineFor, Prune;
  }

  lemma {:induction false} OffersThenOne(run: Option<Run>, offers: seq<Offer>, offer: Offer)
    ensures AfterOffers(run, offers + [offer]) == AfterOffer(AfterOffers(run, offers), offer)
    decreases offers
  {
    hide AfterOffer;
    if offers == [] {
      assert [] + [offer] == [offer] && [offer][1..] == [];
      assert AfterOffers(AfterOffer(run, offer), []) == AfterOffer(run, offer);
    } else {
      OffersThenOne(AfterOffer(run, offers[0]), offers[1..], offer);
      assert (offers + [offer])[1..] == offers[1..] + [offer];
    }
  }

  lemma AtMostOneLands(r: Race, step: Step, key: RunKey)
    ensures Landed(r, step, key) == [] || Landed(r, step, key) == [Landed(r, step, key)[0]]
  {}

  /** Concurrent failures are lost nowhere: a run's row is its offers applied one by one, in the order they landed. */
  lemma {:induction false} RacesMoveRunsByOffers(r: Race, steps: seq<Step>, key: RunKey)
    requires NeverDrops(r, steps, key)
    ensures RunAt(Reach(r, steps).store.runs, key) == AfterOffers(RunAt(r.store.runs, key), AllLanded(r, steps, key))
    decreases steps
  {
    hide Next, Drops, AfterOffer, Landed;
    if steps != [] {
      var last := |steps| - 1;
      var before := Reach(r, steps[..last]);
      forall k | 0 <= k < last ensures !Drops(Reach(r, steps[..last][..k]), steps[..last][k], key) {
        assert steps[..last][..k] == steps[..k];
      }
      RacesMoveRunsByOffers(r, steps[..last], key);
      AStepMovesARun(before, steps[last], key);
      var earlier, landed := AllLanded(r, steps[..last], key), Landed(before, steps[last], key);
      if landed == [] {
        assert earlier + [] == earlier;
      } else {
        OffersThenOne(RunAt(r.store.runs, key), earlier, landed[0]);
        AtMostOneLands(before, steps[last], key);
      }
    }
  }

  /** Whatever interleaves, a run that is never dropped remembers exactly the latest three it counted. */
  lemma RacesRememberTheLatest(r: Race, steps: seq<Step>, key: RunKey)
    requires NeverDrops(r, steps, key) && |Misses(RunAt(r.store.runs, key))| <= REMEMBERED_MISSES
    ensures var before := RunAt(r.store.runs, key);
            Misses(RunAt(Reach(r, steps).store.runs, key))
              == Latest(Misses(before) + CountedMisses(before, AllLanded(r, steps, key)))
  {
    hide Next, CountedMisses, AfterOffers, NeverDrops;
    RacesMoveRunsByOffers(r, steps, key);
    MissesAreTheLatestCounted(RunAt(r.store.runs, key), AllLanded(r, steps, key), Misses(RunAt(r.store.runs, key)));
  }

  /** Three wrong passwords at most, however their checks interleave, are counted at most once each. */
  lemma RacingFewPasswordsCountOnce(r: Race, steps: seq<Step>, key: RunKey, wrong: set<Miss>)
    requires NeverDrops(r, steps, key) && |Misses(RunAt(r.store.runs, key))| <= REMEMBERED_MISSES
    requires AllFrom(AllLanded(r, steps, key), wrong) && |wrong| <= REMEMBERED_MISSES
    ensures RunAt(Reach(r, steps).store.runs, key) == AfterOffers(RunAt(r.store.runs, key), AllLanded(r, steps, key))
    ensures |CountedMisses(RunAt(r.store.runs, key), AllLanded(r, steps, key))| <= |wrong|
  {
    hide Next, CountedMisses, AfterOffers, NeverDrops, AllFrom;
    RacesMoveRunsByOffers(r, steps, key);
    ThreeWrongPasswordsCountAtMostOnceEach(RunAt(r.store.runs, key), AllLanded(r, steps, key), wrong);
  }
}
