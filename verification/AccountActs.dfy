/**
 * Disabling, enabling and changing the role of accounts: the queue each process
 * keeps, the install-wide lock its turns contend for, and each act statement by
 * statement, while accounts are created beside them.
 */
module AccountActs {
  import opened Wrappers

  type Id = string
  type Process = nat

  datatype Role = AdminRole | AnalystRole | NoRole

  datatype Account = Account(role: Role, banned: bool)

  type Users = map<Id, Account>

  /** An administrator who can still sign in. */
  predicate Administers(one: Account) { one.role == AdminRole && !one.banned }

  predicate CanAdminister(users: Users, id: Id) { id in users && Administers(users[id]) }

  ghost predicate SomeoneAdministers(users: Users) { exists id :: CanAdminister(users, id) }

  /** The roster the acts are given: every account with the role, disabled or not. */
  function Administrators(users: Users): Users { map id | id in users && users[id].role == AdminRole :: users[id] }

  function Enabled(everyone: Users): set<Id> { set id | id in everyone && Administers(everyone[id]) }

  /** Whether the change leaves nobody, counted within the roster; a disable becomes nothing. */
  predicate Stranding(everyone: Users, target: Account, becoming: Option<Role>) {
    Administers(target) && becoming != Some(AdminRole) && |Enabled(everyone)| == 1
  }

  function WithBanned(users: Users, id: Id, banned: bool): Users {
    if id in users then users[id := users[id].(banned := banned)] else users
  }

  function WithRole(users: Users, id: Id, role: Role): Users {
    if id in users then users[id := users[id].(role := role)] else users
  }

  datatype Outcome = Changed | Unchanged | Missing

  datatype Result = Forbidden | Busy | NoAccount | OwnAccount | LastAdministrator | Failed | Made

  datatype Kind = Disabling | Enabling | Giving(role: Role)

  datatype Act = Act(kind: Kind, caller: Id, target: Id)

  /** How an act ends when nothing runs beside it. */
  function OutcomeAlone(users: Users, act: Act): Result {
    if !CanAdminister(users, act.caller) then Forbidden
    else if act.target !in users then NoAccount
    else
      match act.kind
      case Enabling => Made
      case Disabling => if act.target == act.caller then OwnAccount else Made
      case Giving(role) =>
        if act.target != act.caller || role == AdminRole then Made
        else if Enabled(users) == {act.caller} then LastAdministrator
        else OwnAccount
  }

  /** What an act that is made leaves of the accounts. */
  function MadeOf(users: Users, act: Act): Users {
    match act.kind
    case Disabling => WithBanned(users, act.target, true)
    case Enabling => WithBanned(users, act.target, false)
    case Giving(role) => WithRole(users, act.target, role)
  }

  function ActedAlone(users: Users, act: Act): Users {
    if OutcomeAlone(users, act) == Made then MadeOf(users, act) else users
  }

  /** The user table and the acts on it, each run in its turn with nothing beside it. */
  class AccountRows {
    var users: Users

    constructor (users: Users)
      ensures this.users == users
    {
      this.users := users;
    }

    method ChangeBanned(id: Id, banned: bool) returns (outcome: Outcome)
      modifies this
      ensures users == WithBanned(old(users), id, banned)
      ensures outcome == Missing <==> id !in old(users)
      ensures outcome == Changed <==> users != old(users)
    {
      if id in users && users[id].banned != banned {
        users := users[id := users[id].(banned := banned)];
        return Changed;
      }
      return if id in users then Unchanged else Missing;
    }

    method ChangeRole(id: Id, role: Role) returns (outcome: Outcome, from: Role)
      modifies this
      ensures users == WithRole(old(users), id, role)
      ensures outcome == Missing <==> id !in old(users)
      ensures outcome == Changed <==> users != old(users)
      ensures outcome == Changed ==> old(users)[id].role == from != role
    {
      if id !in users { return Missing, NoRole; }
      from := users[id].role;
      if from == role { return Unchanged, from; }
      users := users[id := users[id].(role := role)];
      return Changed, from;
    }

    /** Without an account created meanwhile, a disable never finds its target the last administrator. */
    method Disable(caller: Id, target: Id) returns (result: Result)
      modifies this
      ensures result == OutcomeAlone(old(users), Act(Disabling, caller, target))
      ensures users == ActedAlone(old(users), Act(Disabling, caller, target))
      ensures result != LastAdministrator
      ensures result == Made <==>
                && caller in old(users) && old(users)[caller].role == AdminRole && !old(users)[caller].banned
                && target in old(users) && target != caller
      ensures result == Made ==> users == old(users)[target := Account(old(users)[target].role, true)]
      ensures result != Made ==> users == old(users)
      ensures result == Made ==> CanAdminister(users, caller) && !CanAdminister(users, target)
    {
      if !CanAdminister(users, caller) { return Forbidden; }
      var everyone := Administrators(users);
      if target !in users { return NoAccount; }
      if target == caller { return OwnAccount; }
      if Stranding(everyone, users[target], None) {
        OneOfTwoIsNotTheOnlyOne(Enabled(everyone), caller, target);
        assert false;
        return LastAdministrator;
      }
      var _ := ChangeBanned(target, true);
      users := WithBanned(users, target, true);
      return Made;
    }

    method Enable(caller: Id, target: Id) returns (result: Result)
      modifies this
      ensures result == OutcomeAlone(old(users), Act(Enabling, caller, target))
      ensures users == ActedAlone(old(users), Act(Enabling, caller, target))
      ensures result == Made <==>
                && caller in old(users) && old(users)[caller].role == AdminRole && !old(users)[caller].banned
                && target in old(users)
      ensures result == Made ==> users == old(users)[target := Account(old(users)[target].role, false)]
      ensures result != Made ==> users == old(users)
      ensures result == Made ==> CanAdminister(users, caller)
    {
      if !CanAdminister(users, caller) { return Forbidden; }
      var outcome := ChangeBanned(target, false);
      return if outcome == Missing then NoAccount else Made;
    }

    /** A role act is refused as stranding exactly when the only administrator would give the role up. */
    method ChangeRoleOf(caller: Id, target: Id, role: Role) returns (result: Result)
      modifies this
      ensures result == OutcomeAlone(old(users), Act(Giving(role), caller, target))
      ensures users == ActedAlone(old(users), Act(Giving(role), caller, target))
      ensures result == LastAdministrator <==>
                CanAdminister(old(users), caller) && target == caller && role != AdminRole
                && Enabled(old(users)) == {caller}
      ensures result == Made <==>
                CanAdminister(old(users), caller) && target in old(users) && (target == caller ==> role == AdminRole)
      ensures result == OwnAccount <==>
                CanAdminister(old(users), caller) && target == caller && role != AdminRole
                && Enabled(old(users)) != {caller}
      ensures result == NoAccount <==> CanAdminister(old(users), caller) && target !in old(users)
      ensures result == Made ==> users == old(users)[target := Account(role, old(users)[target].banned)]
      ensures result != Made ==> users == old(users)
      ensures result == Made ==> CanAdminister(users, caller)
    {
      if !CanAdminister(users, caller) { return Forbidden; }
      var everyone := Administrators(users);
      assert Enabled(everyone) == Enabled(users);
      if target !in users { return NoAccount; }
      if Administers(users[target]) && target != caller {
        OneOfTwoIsNotTheOnlyOne(Enabled(everyone), caller, target);
      }
      OnlyOneMeansJustIt(Enabled(everyone), caller);
      if Stranding(everyone, users[target], Some(role)) { return LastAdministrator; }
      if target == caller && users[target].role != role { return OwnAccount; }
      var _, _ := ChangeRole(target, role);
      users := WithRole(users, target, role);
      return Made;
    }
  }

  lemma OneOfTwoIsNotTheOnlyOne(ids: set<Id>, one: Id, other: Id)
    requires one in ids && other in ids && one != other
    ensures |ids| > 1
  {
    assert |ids - {one}| == |ids| - 1 && other in ids - {one};
  }

  lemma OnlyOneMeansJustIt(ids: set<Id>, one: Id)
    requires one in ids
    ensures |ids| == 1 <==> ids == {one}
  {
    if other :| other in ids && other != one { OneOfTwoIsNotTheOnlyOne(ids, one, other); }
    else { assert ids == {one}; }
  }

  // --- The turns ------------------------------------------------------------

  /** Where the act at the head of a process's queue stands. */
  datatype Stage =
    | Queued
    | Checking
    | Listing
    | Resolving(everyone: Users)
    | Writing
    | WritingRole(from: Role)
    | Refreshing

  datatype Turn = Turn(act: Act, stage: Stage)

  datatype Ended = Ended(act: Act, result: Result)

  datatype Install = Install(
    users: Users,
    lock: Option<Process>,
    heads: map<Process, Turn>,
    waiting: map<Process, seq<Act>>,
    ended: seq<Ended>)

  /** One statement's effect on the accounts, and the stage after it or the act's result. */
  datatype Effect = On(users: Users, stage: Stage) | Finished(users: Users, result: Result)

  /** What an act decides once it has resolved its target. */
  function Decided(users: Users, act: Act, everyone: Users): Effect {
    if act.target !in users then Finished(users, NoAccount)
    else
      var target, own := users[act.target], act.target == act.caller;
      match act.kind
      case Disabling =>
        if own then Finished(users, OwnAccount)
        else if Stranding(everyone, target, None) then Finished(users, LastAdministrator)
        else On(users, Writing)
      case Enabling => On(users, Writing)
      case Giving(role) =>
        if Stranding(everyone, target, Some(role)) then Finished(users, LastAdministrator)
        else if own && target.role != role then Finished(users, OwnAccount)
        else On(users, Writing)
  }

  /** The act's next statement. */
  function Statement(users: Users, turn: Turn): Effect {
    var act := turn.act;
    match turn.stage
    case Queued => On(users, Queued)
    case Checking =>
      if !CanAdminister(users, act.caller) then Finished(users, Forbidden)
      else if act.kind == Enabling then On(users, Resolving(map[]))
      else On(users, Listing)
    case Listing => On(users, Resolving(Administrators(users)))
    case Resolving(everyone) => Decided(users, act, everyone)
    case Writing =>
      (match act.kind
       case Disabling =>
         if act.target in users then On(WithBanned(users, act.target, true), Refreshing)
         else Finished(users, NoAccount)
       case Enabling =>
         Finished(WithBanned(users, act.target, false), if act.target in users then Made else NoAccount)
       case Giving(role) =>
         if act.target !in users then Finished(users, NoAccount)
         else if users[act.target].role == role then On(users, Refreshing)
         else On(users, WritingRole(users[act.target].role)))
    case WritingRole(_) =>
      if act.kind.Giving? then On(WithRole(users, act.target, act.kind.role), Refreshing) else Finished(users, Failed)
    case Refreshing =>
      (match act.kind
       case Disabling => Finished(WithBanned(users, act.target, true), Made)
       case Enabling => Finished(users, Made)
       case Giving(role) => Finished(WithRole(users, act.target, role), Made))
  }

  datatype Step =
    | Submit(process: Process, act: Act)
    | Enter(process: Process)
    | TakeLock(process: Process)
    | TimeOut(process: Process)
    | Run(process: Process)
    | Fail(process: Process)
    | Create(id: Id, role: Role)

  predicate Running(i: Install, p: Process) { p in i.heads && i.heads[p].stage != Queued }

  function Leave(i: Install, p: Process, users: Users, lock: Option<Process>, result: Result): Install
    requires p in i.heads
  {
    Install(users, lock, i.heads - {p}, i.waiting, i.ended + [Ended(i.heads[p].act, result)])
  }

  function Next(i: Install, step: Step): Install {
    match step
    case Submit(p, act) =>
      i.(waiting := i.waiting[p := (if p in i.waiting then i.waiting[p] else []) + [act]])
    case Enter(p) =>
      if p !in i.heads && p in i.waiting && i.waiting[p] != [] then
        i.(heads := i.heads[p := Turn(i.waiting[p][0], Queued)], waiting := i.waiting[p := i.waiting[p][1..]])
      else i
    case TakeLock(p) =>
      if p in i.heads && i.heads[p].stage == Queued && i.lock.None? then
        i.(lock := Some(p), heads := i.heads[p := i.heads[p].(stage := Checking)])
      else i
    case TimeOut(p) =>
      if p in i.heads && i.heads[p].stage == Queued && i.lock.Some? then Leave(i, p, i.users, i.lock, Busy) else i
    case Run(p) =>
      if Running(i, p) then
        match Statement(i.users, i.heads[p])
        case On(users, stage) => i.(users := users, heads := i.heads[p := i.heads[p].(stage := stage)])
        case Finished(users, result) => Leave(i, p, users, None, result)
      else i
    case Fail(p) => if Running(i, p) then Leave(i, p, i.users, None, Failed) else i
    case Create(id, role) => if id in i.users then i else i.(users := i.users[id := Account(role, false)])
  }

  function Reach(i: Install, steps: seq<Step>): Install
    decreases steps
  {
    if steps == [] then i else Next(Reach(i, steps[..|steps| - 1]), steps[|steps| - 1])
  }

  // --- One turn at a time -----------------------------------------------------

  /** The lock is held exactly by the process whose act is under way. */
  ghost predicate LockHeld(i: Install) {
    forall p: Process :: Running(i, p) <==> i.lock == Some(p)
  }

  /** What the act under way may rely on, at each of its stages. */
  ghost predicate TurnSound(users: Users, turn: Turn) {
    var act := turn.act;
    match turn.stage
    case Queued => true
    case Checking => true
    case Listing => CanAdminister(users, act.caller) && act.kind != Enabling
    case Resolving(everyone) =>
      && CanAdminister(users, act.caller)
      && (forall id :: id in everyone ==> id in users && users[id] == everyone[id])
      && (act.kind != Enabling ==> act.caller in everyone)
    case Writing =>
      && CanAdminister(users, act.caller) && act.target in users
      && (act.kind == Disabling ==> act.target != act.caller)
      && (act.kind.Giving? && act.target == act.caller ==> act.kind.role == AdminRole)
    case WritingRole(from) => CanAdminister(users, act.caller) && act.target != act.caller && act.kind.Giving?
    case Refreshing =>
      && CanAdminister(users, act.caller)
      && (act.kind == Disabling ==> act.target != act.caller)
      && (act.kind.Giving? && act.target == act.caller ==> act.kind.role == AdminRole)
  }

  ghost predicate Sound(i: Install) {
    LockHeld(i) && forall p: Process :: Running(i, p) ==> TurnSound(i.users, i.heads[p])
  }

  /** A statement keeps what its act relies on, leaves its caller an administrator and so somebody in charge. */
  lemma AStatementIsSound(users: Users, turn: Turn)
    requires TurnSound(users, turn) && turn.stage != Queued
    ensures var e := Statement(users, turn);
            && (e.On? ==> TurnSound(e.users, Turn(turn.act, e.stage)) && e.stage != Queued)
            && (e.Finished? && e.result == Made ==> CanAdminister(e.users, turn.act.caller))
            && (SomeoneAdministers(users) ==> SomeoneAdministers(e.users))
  {
    hide Enabled, Stranding;
    var e := Statement(users, turn);
    if turn.stage.Checking? || turn.stage.Listing? || turn.stage.Resolving? {
      assert e.users == users;
    } else {
      assert CanAdminister(e.users, turn.act.caller);
    }
  }

  lemma ANewAccountDisturbsNobody(users: Users, turn: Turn, id: Id, role: Role)
    requires TurnSound(users, turn) && id !in users
    ensures TurnSound(users[id := Account(role, false)], turn)
  {}

  lemma ANewAccountRemovesNobody(users: Users, id: Id, role: Role)
    requires id !in users && SomeoneAdministers(users)
    ensures SomeoneAdministers(users[id := Account(role, false)])
  {
    var one :| CanAdminister(users, one);
    assert CanAdminister(users[id := Account(role, false)], one);
  }

  lemma AStepKeepsTheLock(i: Install, step: Step)
    requires Sound(i)
    ensures LockHeld(Next(i, step))
  {
    hide TurnSound, Statement;
    if step.Run? && Running(i, step.process) {
      assert i.lock == Some(step.process);
      AStatementIsSound(i.users, i.heads[step.process]);
    }
  }

  lemma AStepIsSound(i: Install, step: Step)
    requires Sound(i)
    ensures Sound(Next(i, step))
    ensures SomeoneAdministers(i.users) ==> SomeoneAdministers(Next(i, step).users)
    ensures forall k :: |i.ended| <= k < |Next(i, step).ended| && Next(i, step).ended[k].result == Made ==>
              CanAdminister(Next(i, step).users, Next(i, step).ended[k].act.caller)
  {
    hide TurnSound, Statement, CanAdminister, SomeoneAdministers;
    AStepKeepsTheLock(i, step);
    if step.Run? && Running(i, step.process) {
      AStatementIsSound(i.users, i.heads[step.process]);
      assert i.lock == Some(step.process);
      forall p: Process | Running(Next(i, step), p) ensures TurnSound(Next(i, step).users, Next(i, step).heads[p]) {
        assert p == step.process;
      }
    } else if step.Create? && step.id !in i.users {
      forall p: Process | Running(i, p) ensures TurnSound(Next(i, step).users, i.heads[p]) {
        ANewAccountDisturbsNobody(i.users, i.heads[p], step.id, step.role);
      }
      if SomeoneAdministers(i.users) { ANewAccountRemovesNobody(i.users, step.id, step.role); }
    } else if step.TakeLock? && Next(i, step) != i {
      ALockedTurnStartsSound(i.users, i.heads[step.process].act);
    }
  }

  lemma ALockedTurnStartsSound(users: Users, act: Act)
    ensures TurnSound(users, Turn(act, Checking))
  {}

  /** Over any steps: one act at a time, and once somebody administers the install somebody always does. */
  lemma {:induction false} AnInstallStaysAdministered(i: Install, steps: seq<Step>)
    requires Sound(i)
    ensures Sound(Reach(i, steps))
    ensures forall p, q :: Running(Reach(i, steps), p) && Running(Reach(i, steps), q) ==> p == q
    ensures SomeoneAdministers(i.users) ==> SomeoneAdministers(Reach(i, steps).users)
    ensures (exists id :: id in i.users && i.users[id].role == AdminRole && !i.users[id].banned) ==>
              exists id :: id in Reach(i, steps).users
                           && Reach(i, steps).users[id].role == AdminRole && !Reach(i, steps).users[id].banned
    decreases steps
  {
    if id :| id in i.users && i.users[id].role == AdminRole && !i.users[id].banned {
      assert CanAdminister(i.users, id);
    }
    if steps != [] {
      hide Next;
      AnInstallStaysAdministered(i, steps[..|steps| - 1]);
      AStepIsSound(Reach(i, steps[..|steps| - 1]), steps[|steps| - 1]);
    }
  }

  /** Every act that ends made ends with its caller still an administrator. */
  lemma ACompletedActLeavesItsCallerInCharge(i: Install, steps: seq<Step>, k: nat)
    requires Sound(i) && steps != []
    requires |Reach(i, steps[..|steps| - 1]).ended| <= k < |Reach(i, steps).ended|
    requires Reach(i, steps).ended[k].result == Made
    ensures CanAdminister(Reach(i, steps).users, Reach(i, steps).ended[k].act.caller)
  {
    hide Next, Sound;
    AnInstallStaysAdministered(i, steps[..|steps| - 1]);
    AStepIsSound(Reach(i, steps[..|steps| - 1]), steps[|steps| - 1]);
  }

  // --- What an act does to its target ------------------------------------------

  /** The account is as the act would have it. */
  predicate IsAsActed(users: Users, act: Act) {
    && act.target in users
    && match act.kind {
         case Disabling => users[act.target].banned
         case Enabling => !users[act.target].banned
         case Giving(role) => users[act.target].role == role
       }
  }

  /** From its write on, an act's target is as the act would have it. */
  ghost predicate TargetSound(users: Users, turn: Turn) {
    && (turn.stage.Refreshing? ==> IsAsActed(users, turn.act))
    && (turn.stage.WritingRole? ==> turn.act.target in users)
  }

  ghost predicate TargetsSound(i: Install) {
    forall p: Process :: Running(i, p) ==> TargetSound(i.users, i.heads[p])
  }

  lemma AStatementKeepsItsTarget(users: Users, turn: Turn)
    requires TurnSound(users, turn) && TargetSound(users, turn) && turn.stage != Queued
    ensures var e := Statement(users, turn);
            && (e.On? ==> TargetSound(e.users, Turn(turn.act, e.stage)))
            && (e.Finished? && e.result == Made ==> IsAsActed(e.users, turn.act))
  {
    hide Enabled, Stranding;
  }

  lemma AStepKeepsTheTargets(i: Install, step: Step)
    requires Sound(i) && TargetsSound(i)
    ensures TargetsSound(Next(i, step))
    ensures forall k :: |i.ended| <= k < |Next(i, step).ended| && Next(i, step).ended[k].result == Made ==>
              IsAsActed(Next(i, step).users, Next(i, step).ended[k].act)
  {
    hide Statement, TurnSound, IsAsActed;
    if step.Run? && Running(i, step.process) {
      assert i.lock == Some(step.process);
      AStatementKeepsItsTarget(i.users, i.heads[step.process]);
      forall p: Process | Running(Next(i, step), p) ensures TargetSound(Next(i, step).users, Next(i, step).heads[p]) {
        AStepKeepsTheLock(i, step);
        assert p == step.process;
      }
    } else if step.Create? && step.id !in i.users {
      forall p: Process | Running(i, p) ensures TargetSound(Next(i, step).users, i.heads[p]) {
        ANewAccountIsNoTarget(i.users, i.heads[p], step.id, step.role);
      }
    }
  }

  lemma ANewAccountIsNoTarget(users: Users, turn: Turn, id: Id, role: Role)
    requires TargetSound(users, turn) && id !in users
    ensures TargetSound(users[id := Account(role, false)], turn)
  {}

  lemma {:induction false} TargetsStaySound(i: Install, steps: seq<Step>)
    requires Idle(i)
    ensures Sound(Reach(i, steps)) && TargetsSound(Reach(i, steps))
    decreases steps
  {
    IdleIsSound(i);
    AnInstallStaysAdministered(i, steps);
    if steps != [] {
      hide Next, Sound, TargetsSound;
      TargetsStaySound(i, steps[..|steps| - 1]);
      AStepKeepsTheTargets(Reach(i, steps[..|steps| - 1]), steps[|steps| - 1]);
    }
  }

  /**
   * Over every run of an install, an act that ends made has its way: its
   * target is there and disabled, enabled, or in the role given, and its
   * caller holds the role of an administrator and is not disabled.
   */
  lemma AMadeActHasItsWay(i: Install, steps: seq<Step>, k: nat)
    requires Idle(i) && steps != []
    requires |Reach(i, steps[..|steps| - 1]).ended| <= k < |Reach(i, steps).ended|
    requires Reach(i, steps).ended[k].result == Made
    ensures var t := Reach(i, steps);
            var act := t.ended[k].act;
            && act.target in t.users
            && (act.kind == Disabling ==> t.users[act.target].banned)
            && (act.kind == Enabling ==> !t.users[act.target].banned)
            && (act.kind.Giving? ==> t.users[act.target].role == act.kind.role)
            && act.caller in t.users && t.users[act.caller].role == AdminRole && !t.users[act.caller].banned
  {
    hide Next, Sound, TargetsSound;
    TargetsStaySound(i, steps[..|steps| - 1]);
    AStepKeepsTheTargets(Reach(i, steps[..|steps| - 1]), steps[|steps| - 1]);
    IdleIsSound(i);
    ACompletedActLeavesItsCallerInCharge(i, steps, k);
  }

  /**
   * No step removes an account or adds any but the one it creates, and what it
   * changes of one is the act's target alone, and of that only what the act
   * is about.
   */
  lemma AStepTouchesOnlyItsTarget(i: Install, step: Step, id: Id)
    ensures id in i.users ==> id in Next(i, step).users
    ensures id !in i.users && id in Next(i, step).users ==>
              step.Create? && step.id == id && Next(i, step).users[id] == Account(step.role, false)
    ensures id in i.users && Next(i, step).users[id] != i.users[id] ==>
              && step.Run? && step.process in i.heads
              && var act := i.heads[step.process].act;
                 && act.target == id
                 && match act.kind {
                      case Disabling => Next(i, step).users[id] == Account(i.users[id].role, true)
                      case Enabling => Next(i, step).users[id] == Account(i.users[id].role, false)
                      case Giving(role) => Next(i, step).users[id] == Account(role, i.users[id].banned)
                    }
  {
    hide Enabled, Stranding, Administrators;
  }

  /** `n` statements of a turn with nothing between them. */
  function Turned(users: Users, turn: Turn, n: nat): Effect
    decreases n
  {
    if n == 0 then On(users, turn.stage)
    else
      match Statement(users, turn)
      case On(users', stage) => Turned(users', Turn(turn.act, stage), n - 1)
      case Finished(users', result) => Finished(users', result)
  }

  function Uninterrupted(i: Install, p: Process, n: nat): Install
    decreases n
  {
    if n == 0 then i else Uninterrupted(Next(i, Run(p)), p, n - 1)
  }

  lemma {:induction false} OnceEndedNothingRuns(i: Install, p: Process, n: nat)
    requires p !in i.heads
    ensures Uninterrupted(i, p, n) == i
  {
    if n > 0 { OnceEndedNothingRuns(i, p, n - 1); }
  }

  /** What the machine makes of `n` uninterrupted statements. */
  lemma {:induction false} UninterruptedStatements(i: Install, p: Process, n: nat)
    requires p in i.heads && i.heads[p].stage != Queued
    ensures match Turned(i.users, i.heads[p], n)
            case On(users, stage) =>
              Uninterrupted(i, p, n) == i.(users := users, heads := i.heads[p := Turn(i.heads[p].act, stage)])
            case Finished(users, result) =>
              Uninterrupted(i, p, n)
                == Install(users, None, i.heads - {p}, i.waiting, i.ended + [Ended(i.heads[p].act, result)])
    decreases n
  {
    if n > 0 {
      var t := Next(i, Run(p));
      AStatementIsNeverQueued(i.users, i.heads[p]);
      hide Statement;
      match Statement(i.users, i.heads[p]) {
        case On(users, stage) =>
          assert t == i.(users := users, heads := i.heads[p := Turn(i.heads[p].act, stage)]);
          UninterruptedStatements(t, p, n - 1);
          var ends := Turned(users, Turn(i.heads[p].act, stage), n - 1);
          var turn := Turn(i.heads[p].act, if ends.On? then ends.stage else Queued);
          assert t.heads[p := turn] == i.heads[p := turn];
          assert t.heads - {p} == i.heads - {p};
        case Finished(_, _) =>
          OnceEndedNothingRuns(t, p, n - 1);
      }
    } else {
      assert i.heads == i.heads[p := Turn(i.heads[p].act, i.heads[p].stage)];
    }
  }

  lemma AStatementIsNeverQueued(users: Users, turn: Turn)
    requires turn.stage != Queued
    ensures Statement(users, turn).On? ==> Statement(users, turn).stage != Queued
  {
    hide Stranding;
  }

  /** With the roster read just before, only the caller alone strands the install, by giving its own role up. */
  lemma StrandingNeedsTheCaller(users: Users, caller: Id, target: Id, becoming: Option<Role>)
    requires CanAdminister(users, caller)
    ensures target in users ==>
              (Stranding(Administrators(users), users[target], becoming) <==>
                 target == caller && becoming != Some(AdminRole) && Enabled(users) == {caller})
  {
    assert Enabled(Administrators(users)) == Enabled(users);
    OnlyOneMeansJustIt(Enabled(users), caller);
    if target in users && Administers(users[target]) && target != caller {
      OneOfTwoIsNotTheOnlyOne(Enabled(users), caller, target);
    }
  }

  /** What an act decides with the roster read just before. */
  lemma DecidedAlone(users: Users, act: Act)
    requires CanAdminister(users, act.caller)
    ensures Decided(users, act, if act.kind == Enabling then map[] else Administrators(users))
         == if OutcomeAlone(users, act) == Made then On(users, Writing) else Finished(users, OutcomeAlone(users, act))
  {
    hide Stranding, Administrators, Enabled;
    StrandingNeedsTheCaller(users, act.caller, act.target, if act.kind.Giving? then Some(act.kind.role) else None);
  }

  lemma TurnedOnce(users: Users, turn: Turn, n: nat)
    requires n > 0
    ensures Turned(users, turn, n) ==
              match Statement(users, turn)
              case On(users', stage) => Turned(users', Turn(turn.act, stage), n - 1)
              case Finished(users', result) => Finished(users', result)
  {}

  /** An act let as far as its writes has its effect, in three statements at most. */
  lemma WritesAlone(users: Users, act: Act, n: nat)
    requires act.target in users && n >= 3
    ensures Turned(users, Turn(act, Writing), n) == Finished(MadeOf(users, act), Made)
  {
    hide Turned;
    var turn, made := Turn(act, Writing), MadeOf(users, act);
    TurnedOnce(users, turn, n);
    TurnedOnce(made, Turn(act, Refreshing), n - 1);
    if act.kind.Giving? && users[act.target].role != act.kind.role {
      TurnedOnce(users, Turn(act, WritingRole(users[act.target].role)), n - 1);
      TurnedOnce(made, Turn(act, Refreshing), n - 2);
      assert MadeOf(made, act) == made;
    } else if act.kind != Enabling {
      assert MadeOf(made, act) == made;
      assert act.kind.Giving? ==> made == users;
    }
  }

  lemma ATurnAlone(users: Users, act: Act)
    ensures Turned(users, Turn(act, Checking), 6) == Finished(ActedAlone(users, act), OutcomeAlone(users, act))
  {
    hide Turned, Decided, Administrators, MadeOf;
    TurnedOnce(users, Turn(act, Checking), 6);
    if CanAdminister(users, act.caller) {
      DecidedAlone(users, act);
      var everyone := if act.kind == Enabling then map[] else Administrators(users);
      if act.kind != Enabling { TurnedOnce(users, Turn(act, Listing), 5); }
      TurnedOnce(users, Turn(act, Resolving(everyone)), if act.kind == Enabling then 5 else 4);
      if OutcomeAlone(users, act) == Made { WritesAlone(users, act, if act.kind == Enabling then 4 else 3); }
    }
  }

  /** A turn nothing interrupts does what the act alone does, and ends as it ends. */
  lemma AnUninterruptedTurnIsItsAct(i: Install, p: Process)
    requires p in i.heads && i.heads[p].stage == Checking
    ensures var act := i.heads[p].act;
            Uninterrupted(i, p, 6)
              == Install(ActedAlone(i.users, act), None, i.heads - {p}, i.waiting,
                         i.ended + [Ended(act, OutcomeAlone(i.users, act))])
  {
    hide Turned, Uninterrupted, ActedAlone, OutcomeAlone;
    ATurnAlone(i.users, i.heads[p].act);
    UninterruptedStatements(i, p, 6);
  }

  // --- In turn -------------------------------------------------------------------

  function Waiting(i: Install, p: Process): seq<Act> { if p in i.waiting then i.waiting[p] else [] }

  /** The acts `p` is given, in order. */
  function Given(steps: seq<Step>, p: Process): seq<Act>
    decreases steps
  {
    if steps == [] then []
    else
      var last := steps[|steps| - 1];
      Given(steps[..|steps| - 1], p) + (if last.Submit? && last.process == p then [last.act] else [])
  }

  /** The acts `p` takes up, in order. */
  function Taken(i: Install, steps: seq<Step>, p: Process): seq<Act>
    decreases steps
  {
    if steps == [] then []
    else
      var before, last := Reach(i, steps[..|steps| - 1]), steps[|steps| - 1];
      Taken(i, steps[..|steps| - 1], p)
      + (if last == Enter(p) && p !in before.heads && p in Next(before, last).heads
         then [Next(before, last).heads[p].act] else [])
  }

  lemma RegroupQueues(taken: seq<Act>, now: seq<Act>, first: seq<Act>, rest: seq<Act>, more: seq<Act>,
                      waited: seq<Act>, given: seq<Act>)
    requires taken + now == waited + given && first + rest == now + more
    ensures (taken + first) + rest == waited + (given + more)
  {
    assert (taken + first) + rest == taken + (now + more) == (taken + now) + more == waited + (given + more);
  }

  /** A process takes its acts up in the order it is given them, and loses none. */
  lemma {:induction false} ActsAreTakenInOrder(i: Install, steps: seq<Step>, p: Process)
    ensures Taken(i, steps, p) + Waiting(Reach(i, steps), p) == Waiting(i, p) + Given(steps, p)
    decreases steps
  {
    if steps == [] {
      assert [] + Waiting(i, p) == Waiting(i, p) + [];
    } else {
      hide Next, Waiting;
      var before, last := Reach(i, steps[..|steps| - 1]), steps[|steps| - 1];
      ActsAreTakenInOrder(i, steps[..|steps| - 1], p);
      AStepKeepsTheQueue(before, last, p);
      RegroupQueues(Taken(i, steps[..|steps| - 1], p), Waiting(before, p),
                    if last == Enter(p) && p !in before.heads && p in Next(before, last).heads
                    then [Next(before, last).heads[p].act] else [],
                    Waiting(Next(before, last), p), if last.Submit? && last.process == p then [last.act] else [],
                    Waiting(i, p), Given(steps[..|steps| - 1], p));
    }
  }

  lemma AStepKeepsTheQueue(i: Install, step: Step, p: Process)
    ensures var t := Next(i, step);
            var taken := if step == Enter(p) && p !in i.heads && p in t.heads then [t.heads[p].act] else [];
            taken + Waiting(t, p) == Waiting(i, p) + (if step.Submit? && step.process == p then [step.act] else [])
  {
    hide Statement;
  }

  // --- The stranding refusal --------------------------------------------------

  /** With its roster in hand, a disable strands exactly a target that administers and is not listed with the caller. */
  lemma DisablingStrandsOnlyTheUnlisted(i: Install, p: Process)
    requires Sound(i) && Running(i, p) && i.heads[p].act.kind == Disabling && i.heads[p].stage.Resolving?
    ensures var act, everyone := i.heads[p].act, i.heads[p].stage.everyone;
            Statement(i.users, i.heads[p]) == Finished(i.users, LastAdministrator) <==>
              act.target != act.caller && CanAdminister(i.users, act.target)
              && act.target !in everyone && Enabled(everyone) == {act.caller}
  {
    var act, everyone := i.heads[p].act, i.heads[p].stage.everyone;
    assert TurnSound(i.users, i.heads[p]);
    OnlyOneMeansJustIt(Enabled(everyone), act.caller);
    assert act.target in everyone && CanAdminister(i.users, act.target) ==> act.target in Enabled(everyone);
  }

  /** A role act strands exactly the caller alone on its roster giving the role up, or a target not listed beside it. */
  lemma GivingARoleStrandsOnlyTheAloneOrTheUnlisted(i: Install, p: Process)
    requires Sound(i) && Running(i, p) && i.heads[p].act.kind.Giving? && i.heads[p].stage.Resolving?
    ensures var act, everyone := i.heads[p].act, i.heads[p].stage.everyone;
            Statement(i.users, i.heads[p]) == Finished(i.users, LastAdministrator) <==>
              act.kind.role != AdminRole && CanAdminister(i.users, act.target)
              && (act.target == act.caller || act.target !in everyone) && Enabled(everyone) == {act.caller}
  {
    var act, everyone := i.heads[p].act, i.heads[p].stage.everyone;
    assert TurnSound(i.users, i.heads[p]);
    OnlyOneMeansJustIt(Enabled(everyone), act.caller);
    assert act.target in everyone && CanAdminister(i.users, act.target) ==> act.target in Enabled(everyone);
  }

  /** Nothing is under way. */
  ghost predicate Idle(i: Install) { i.lock.None? && forall p: Process :: !Running(i, p) }

  lemma IdleIsSound(i: Install)
    requires Idle(i)
    ensures Sound(i)
  {}

  /** `p`'s act read its roster at step `k`, and has run no statement since. */
  ghost predicate ListedAt(i: Install, steps: seq<Step>, p: Process, k: nat) {
    && k < |steps| && steps[k] == Run(p)
    && Running(Reach(i, steps[..k]), p) && Reach(i, steps[..k]).heads[p].stage == Listing
    && forall m :: k < m < |steps| ==> steps[m] != Run(p)
  }

  /** An account is made of the id, in the role, after step `k`. */
  ghost predicate CreatedAfter(i: Install, steps: seq<Step>, k: nat, id: Id, role: Role) {
    exists j :: k < j < |steps| && steps[j] == Create(id, role) && id !in Reach(i, steps[..j]).users
  }

  /** With a roster in hand for the right act, and its listing at step `k`. */
  ghost predicate HoldsRoster(i: Install, steps: seq<Step>, p: Process, k: nat) {
    && ListedAt(i, steps, p, k)
    && var t := Reach(i, steps);
       && Running(t, p) && t.heads[p].stage.Resolving?
       && t.heads[p].act == Reach(i, steps[..k]).heads[p].act
       && t.heads[p].stage.everyone == Administrators(Reach(i, steps[..k]).users)
       && forall id :: id in t.heads[p].stage.everyone <==>
            id in Reach(i, steps[..k]).users && Reach(i, steps[..k]).users[id].role == AdminRole
  }

  /** While one act is under way, no other step but a creation writes an account. */
  lemma OnlyACreationWrites(i: Install, step: Step, p: Process)
    requires Sound(i) && Running(i, p) && step != Run(p)
    ensures Next(i, step).users
         == if step.Create? && step.id !in i.users then i.users[step.id := Account(step.role, false)] else i.users
  {
    hide TurnSound, Statement;
  }

  /** A step that is not `p`'s own statement leaves its act where it stands, or ends it. */
  lemma OthersLeaveATurnAlone(i: Install, step: Step, p: Process)
    requires Running(Next(i, step), p) && step != Run(p) && Next(i, step).heads[p].stage != Checking
    ensures Running(i, p) && i.heads[p] == Next(i, step).heads[p]
  {
    hide Statement;
  }

  /** A roster comes from the statement before it, which changes nothing else. */
  lemma ARosterIsListed(i: Install, p: Process)
    requires Running(Next(i, Run(p)), p)
    requires Next(i, Run(p)).heads[p].stage.Resolving? && Next(i, Run(p)).heads[p].act.kind != Enabling
    ensures Running(i, p) && i.heads[p].stage == Listing && i.heads[p].act == Next(i, Run(p)).heads[p].act
    ensures Next(i, Run(p)).heads[p].stage.everyone == Administrators(i.users) && Next(i, Run(p)).users == i.users
  {}

  /** Every roster in hand was listed at some step, by the act that holds it. */
  lemma {:induction false} EveryRosterWasListed(i: Install, steps: seq<Step>, p: Process) returns (k: nat)
    requires Idle(i) && Running(Reach(i, steps), p)
    requires Reach(i, steps).heads[p].stage.Resolving? && Reach(i, steps).heads[p].act.kind != Enabling
    ensures HoldsRoster(i, steps, p, k)
    decreases steps
  {
    hide Next;
    var last := |steps| - 1;
    var before := Reach(i, steps[..last]);
    if steps[last] == Run(p) {
      ARosterIsListed(before, p);
      k := last;
    } else {
      OthersLeaveATurnAlone(before, steps[last], p);
      k := EveryRosterWasListed(i, steps[..last], p);
      assert steps[..last][..k] == steps[..k];
      assert forall m :: k < m < last ==> steps[m] == steps[..last][m];
    }
  }

  /** Since a roster was listed the accounts are those there were, and those created since, as they were created. */
  lemma {:induction false} AccountsSinceTheListing(i: Install, steps: seq<Step>, p: Process, k: nat, id: Id, role: Role)
    requires Idle(i) && HoldsRoster(i, steps, p, k) && Reach(i, steps).heads[p].act.kind != Enabling
    ensures var then', now := Reach(i, steps[..k]).users, Reach(i, steps).users;
            && (id in then' ==> id in now && now[id] == then'[id])
            && (CreatedAfter(i, steps, k, id, role) <==> id !in then' && id in now && now[id] == Account(role, false))
            && (id !in then' && id in now ==> now[id] == Account(now[id].role, false))
    decreases |steps|
  {
    hide Next;
    var last := |steps| - 1;
    var before := Reach(i, steps[..last]);
    IdleIsSound(i);
    AnInstallStaysAdministered(i, steps[..last]);
    if k == last {
      ARosterIsListed(before, p);
    } else {
      OthersLeaveATurnAlone(before, steps[last], p);
      OnlyACreationWrites(before, steps[last], p);
      assert steps[..last][..k] == steps[..k];
      forall m | k < m < last ensures steps[..last][m] == steps[m] && steps[..last][..m] == steps[..m] {}
      AccountsSinceTheListing(i, steps[..last], p, k, id, role);
      CreatedAfterOneMore(i, steps, k, id, role);
    }
  }

  lemma CreatedAfterOneMore(i: Install, steps: seq<Step>, k: nat, id: Id, role: Role)
    requires k < |steps| - 1
    ensures var last := |steps| - 1;
            CreatedAfter(i, steps, k, id, role) <==>
              CreatedAfter(i, steps[..last], k, id, role)
              || (steps[last] == Create(id, role) && id !in Reach(i, steps[..last]).users)
  {
    hide Reach;
    var last := |steps| - 1;
    forall m | k < m < last ensures steps[..last][m] == steps[m] && steps[..last][..m] == steps[..m] {}
    if j :| k < j < last && steps[..last][j] == Create(id, role) && id !in Reach(i, steps[..last][..j]).users {
      assert steps[j] == Create(id, role) && id !in Reach(i, steps[..j]).users;
    }
    if j :| k < j < |steps| && steps[j] == Create(id, role) && id !in Reach(i, steps[..j]).users {
      if j < last { assert steps[..last][j] == Create(id, role) && id !in Reach(i, steps[..last][..j]).users; }
    }
  }

  lemma ARefusalEndsTheAct(t: Install, p: Process)
    requires Running(t, p) && t.heads[p].stage.Resolving?
    ensures Next(t, Run(p)).ended == t.ended + [Ended(t.heads[p].act, LastAdministrator)]
       <==> Statement(t.users, t.heads[p]) == Finished(t.users, LastAdministrator)
  {
    hide Stranding;
    var act, ended := t.heads[p].act, Next(t, Run(p)).ended;
    var e := Statement(t.users, t.heads[p]);
    assert (t.ended + [Ended(act, LastAdministrator)])[|t.ended|].result == LastAdministrator;
    if e.Finished? { assert ended[|t.ended|] == Ended(act, e.result) && e.users == t.users; }
  }

  /**
   * Over every run of an install: a disable that resolves its target is
   * refused as stranding exactly when its caller was the only enabled
   * administrator as the roster was read, and the target has been created an
   * administrator since.
   */
  lemma DisablingStrandsOnlyTheJustCreated(i: Install, steps: seq<Step>, p: Process) returns (k: nat)
    requires Idle(i) && Running(Reach(i, steps), p)
    requires Reach(i, steps).heads[p].act.kind == Disabling && Reach(i, steps).heads[p].stage.Resolving?
    ensures ListedAt(i, steps, p, k)
    ensures var t := Reach(i, steps);
            var act := t.heads[p].act;
            Next(t, Run(p)).ended == t.ended + [Ended(act, LastAdministrator)] <==>
              && Enabled(Administrators(Reach(i, steps[..k]).users)) == {act.caller}
              && CreatedAfter(i, steps, k, act.target, AdminRole)
  {
    hide Enabled, CreatedAfter, Statement, Next;
    var t := Reach(i, steps);
    var act := t.heads[p].act;
    k := EveryRosterWasListed(i, steps, p);
    ARefusalEndsTheAct(t, p);
    IdleIsSound(i);
    AnInstallStaysAdministered(i, steps);
    DisablingStrandsOnlyTheUnlisted(t, p);
    AccountsSinceTheListing(i, steps, p, k, act.target, AdminRole);
    assert TurnSound(t.users, t.heads[p]);
  }

  /**
   * And a role change is, exactly when its caller was the only enabled
   * administrator as the roster was read and gives up its own role, or that of
   * an administrator created since.
   */
  lemma GivingARoleStrandsOnlyTheAloneOrTheJustCreated(i: Install, steps: seq<Step>, p: Process) returns (k: nat)
    requires Idle(i) && Running(Reach(i, steps), p)
    requires Reach(i, steps).heads[p].act.kind.Giving? && Reach(i, steps).heads[p].stage.Resolving?
    ensures ListedAt(i, steps, p, k)
    ensures var t := Reach(i, steps);
            var act := t.heads[p].act;
            Next(t, Run(p)).ended == t.ended + [Ended(act, LastAdministrator)] <==>
              && act.kind.role != AdminRole
              && Enabled(Administrators(Reach(i, steps[..k]).users)) == {act.caller}
              && (act.target == act.caller || CreatedAfter(i, steps, k, act.target, AdminRole))
  {
    hide Enabled, CreatedAfter, Statement, Next;
    var t := Reach(i, steps);
    var act := t.heads[p].act;
    k := EveryRosterWasListed(i, steps, p);
    ARefusalEndsTheAct(t, p);
    IdleIsSound(i);
    AnInstallStaysAdministered(i, steps);
    GivingARoleStrandsOnlyTheAloneOrTheUnlisted(t, p);
    AccountsSinceTheListing(i, steps, p, k, act.target, AdminRole);
    assert TurnSound(t.users, t.heads[p]);
  }

  /** Every roster in hand is the install's administrators as they stand. */
  ghost predicate RosterCurrent(i: Install) {
    forall p: Process :: Running(i, p) && i.heads[p].act.kind != Enabling && i.heads[p].stage.Resolving? ==>
      i.heads[p].stage.everyone == Administrators(i.users)
  }

  ghost predicate NoDisableStranded(ended: seq<Ended>) {
    forall k :: 0 <= k < |ended| ==> !(ended[k].act.kind == Disabling && ended[k].result == LastAdministrator)
  }

  lemma AStatementKeepsTheRoster(users: Users, turn: Turn)
    requires turn.stage.Resolving? && turn.act.kind != Enabling ==> turn.stage.everyone == Administrators(users)
    ensures var e := Statement(users, turn);
            e.On? && e.stage.Resolving? && turn.act.kind != Enabling && turn.stage != Queued ==>
              e.stage.everyone == Administrators(e.users)
    ensures var e := Statement(users, turn);
            e.Finished? && e.result == LastAdministrator ==> turn.stage.Resolving?
  {}

  lemma AStepWithoutCreationStrandsNoDisable(i: Install, step: Step)
    requires Sound(i) && RosterCurrent(i) && NoDisableStranded(i.ended) && !step.Create?
    ensures RosterCurrent(Next(i, step)) && NoDisableStranded(Next(i, step).ended)
  {
    hide TurnSound, Stranding, Enabled;
    AStepKeepsTheLock(i, step);
    if step.Run? && Running(i, step.process) {
      var p := step.process;
      assert i.lock == Some(p);
      AStatementKeepsTheRoster(i.users, i.heads[p]);
      if i.heads[p].act.kind == Disabling && i.heads[p].stage.Resolving? {
        DisablingStrandsOnlyTheUnlisted(i, p);
      }
    }
  }

  /** Where no account is created while an act runs, no disable is ever refused as stranding. */
  lemma {:induction false} WithoutCreationNoDisableStrands(i: Install, steps: seq<Step>)
    requires Sound(i) && RosterCurrent(i) && NoDisableStranded(i.ended)
    requires forall k :: 0 <= k < |steps| ==> !steps[k].Create?
    ensures RosterCurrent(Reach(i, steps)) && NoDisableStranded(Reach(i, steps).ended)
    decreases steps
  {
    if steps != [] {
      hide Next, Sound, RosterCurrent, NoDisableStranded;
      var before := steps[..|steps| - 1];
      WithoutCreationNoDisableStrands(i, before);
      AnInstallStaysAdministered(i, before);
      AStepWithoutCreationStrandsNoDisable(Reach(i, before), steps[|steps| - 1]);
    }
  }

  /**
   * Creation is not one of the serialised acts, so one can fall between a
   * disable's roster and its target: the newcomer is then refused as the last
   * administrator, though the caller is another.
   */
  lemma AJustCreatedAdministratorReadsAsTheLast(caller: Id, target: Id, p: Process)
    requires caller != target
    ensures var act := Act(Disabling, caller, target);
            var i := Install(map[caller := Account(AdminRole, false)], None, map[], map[], []);
            var t := Reach(i, Approach(act, p) + [Create(target, AdminRole)] + [Run(p)]);
            && Idle(i)
            && t.ended == [Ended(act, LastAdministrator)]
            && CanAdminister(t.users, caller) && CanAdminister(t.users, target)
  {
    hide Reach, Next, Approach;
    var act := Act(Disabling, caller, target);
    var i := Install(map[caller := Account(AdminRole, false)], None, map[], map[], []);
    AnActComesToItsRoster(i, act, p);
    OneMoreStep(i, Approach(act, p), Create(target, AdminRole));
    OneMoreStep(i, Approach(act, p) + [Create(target, AdminRole)], Run(p));
    ANewcomerIsRefused(Reach(i, Approach(act, p)), act, p);
  }

  /** An act submitted, taken from the queue with the lock, and run until its roster is read. */
  function Approach(act: Act, p: Process): seq<Step> {
    [Submit(p, act)] + [Enter(p)] + [TakeLock(p)] + [Run(p)] + [Run(p)]
  }

  lemma OneMoreStep(i: Install, steps: seq<Step>, step: Step)
    ensures Reach(i, steps + [step]) == Next(Reach(i, steps), step)
  {
    hide Next;
    assert (steps + [step])[..|steps|] == steps;
  }

  lemma ATurnIsTaken(i: Install, act: Act, p: Process)
    requires i == Install(i.users, None, map[], map[], [])
    ensures Next(Next(Next(i, Submit(p, act)), Enter(p)), TakeLock(p))
         == Install(i.users, Some(p), map[p := Turn(act, Checking)], map[p := []], [])
  {
    var submitted := Install(i.users, None, map[], map[p := [act]], []);
    assert [] + [act] == [act] && [act][1..] == [];
    assert Next(i, Submit(p, act)) == submitted;
    var entered := Install(i.users, None, map[p := Turn(act, Queued)], map[p := []], []);
    assert Next(submitted, Enter(p)) == entered;
  }

  lemma ATurnReadsItsRoster(i: Install, act: Act, p: Process)
    requires act.kind == Disabling && CanAdminister(i.users, act.caller)
    requires i == Install(i.users, Some(p), map[p := Turn(act, Checking)], map[p := []], [])
    ensures Next(Next(i, Run(p)), Run(p)) == i.(heads := map[p := Turn(act, Resolving(Administrators(i.users)))])
  {
    assert Next(i, Run(p)) == i.(heads := map[p := Turn(act, Listing)]);
  }

  /** From an idle install of one administrator, its act comes to a roster of itself alone. */
  lemma AnActComesToItsRoster(i: Install, act: Act, p: Process)
    requires act.kind == Disabling
    requires i == Install(map[act.caller := Account(AdminRole, false)], None, map[], map[], [])
    ensures Idle(i)
    ensures Reach(i, Approach(act, p))
         == Install(i.users, Some(p), map[p := Turn(act, Resolving(i.users))], map[p := []], [])
  {
    hide Next;
    assert Administrators(i.users) == i.users;
    assert [] + [Submit(p, act)] == [Submit(p, act)] && Reach(i, []) == i;
    OneMoreStep(i, [], Submit(p, act));
    OneMoreStep(i, [Submit(p, act)], Enter(p));
    OneMoreStep(i, [Submit(p, act)] + [Enter(p)], TakeLock(p));
    ATurnIsTaken(i, act, p);
    OneMoreStep(i, [Submit(p, act)] + [Enter(p)] + [TakeLock(p)], Run(p));
    OneMoreStep(i, [Submit(p, act)] + [Enter(p)] + [TakeLock(p)] + [Run(p)], Run(p));
    ATurnReadsItsRoster(Reach(i, [Submit(p, act)] + [Enter(p)] + [TakeLock(p)]), act, p);
  }

  /** With its target created beside a roster of the caller alone, the disable is refused. */
  lemma ANewcomerIsRefused(i: Install, act: Act, p: Process)
    requires act.kind == Disabling && act.caller != act.target
    requires i.users == map[act.caller := Account(AdminRole, false)] && i.ended == []
    requires p in i.heads && i.heads[p] == Turn(act, Resolving(i.users))
    ensures var t := Next(Next(i, Create(act.target, AdminRole)), Run(p));
            && t.ended == [Ended(act, LastAdministrator)]
            && CanAdminister(t.users, act.caller) && CanAdminister(t.users, act.target)
  {
    assert Enabled(i.users) == {act.caller};
  }
}
