/**
 * Claiming a fresh install: any number of claims at once, each a row of
 * statements with the others' between them, settled by one inserted row.
 */
module FirstClaim {
  import opened Wrappers

  /** An address, folded as `sameAddress` folds it. */
  type Address = string
  type Process = nat
  type Token = string

  datatype Role = AdminRole | AnalystRole

  /** An account, and the claim that signed it up. */
  datatype Account = Account(claim: nat, role: Role)

  type Users = map<Address, Account>

  function RoleForNewUser(asked: Option<Role>, installHasAccounts: bool): Role {
    if !installHasAccounts then AdminRole else if asked.Some? then asked.value else AnalystRole
  }

  function Promoted(users: Users, address: Address): Users {
    if address in users then users[address := users[address].(role := AdminRole)] else users
  }

  /** The tables and the token one process holds, for claims that run alone. */
  class Setup {
    var users: Users
    var claimed: bool
    var token: Option<Token>

    constructor (token: Token)
      ensures users == map[] && !claimed && this.token == Some(token)
    {
      users, claimed, this.token := map[], false, Some(token);
    }

    /** The insert that does nothing on conflict. */
    method TakeTheClaim() returns (taken: bool)
      modifies this`claimed
      ensures claimed && taken == !old(claimed)
    {
      taken := !claimed;
      claimed := true;
    }

    /**
     * A claim with nothing beside it wins exactly where the install has no
     * account, the token is right and nobody has taken the claim; a claim that
     * does not win leaves no account behind.
     */
    method Claim(id: nat, address: Address, given: Token) returns (won: bool)
      modifies this
      ensures won <==> old(users) == map[] && old(token) == Some(given) && !old(claimed)
      ensures won ==> users == map[address := Account(id, AdminRole)] && claimed && token == None
      ensures !won ==> users == old(users) && token == old(token)
    {
      if users != map[] { return false; }
      if token != Some(given) { return false; }
      users := users[address := Account(id, RoleForNewUser(None, users != map[]))];
      var taken := TakeTheClaim();
      if taken {
        users := Promoted(users, address);
        token := None;
        return true;
      }
      users := users - {address};
      return false;
    }
  }

  // --- Claims at once -------------------------------------------------------

  datatype Stage =
    | Asked
    | SigningUp
    | Hooked
    | Inserting(role: Role)
    | Claiming
    | Losing
    | Winning
    | SigningIn
    | Refused
    | Claimed(signedIn: bool)

  datatype Call = Call(address: Address, process: Process, stage: Stage)

  /** `voided` are the processes whose token a claim has cleared. */
  datatype Race = Race(users: Users, claimed: bool, voided: set<Process>, calls: map<nat, Call>)

  datatype Step = Ask(id: nat, address: Address, process: Process) | Advance(id: nat)

  /** One statement's effect on the tables and the tokens, and the stage after it. */
  datatype Effect = Effect(users: Users, claimed: bool, voided: set<Process>, stage: Stage)

  /** The next statement of one claim, every claim offering the right token. */
  function Statement(r: Race, id: nat): Effect
    requires id in r.calls
  {
    var call, users := r.calls[id], r.users;
    var Go := (stage: Stage) => Effect(users, r.claimed, r.voided, stage);
    match call.stage
    case Asked => Go(if users != map[] || call.process in r.voided then Refused else SigningUp)
    case SigningUp => Go(if users != map[] then Refused else Hooked)
    case Hooked => Go(Inserting(RoleForNewUser(None, users != map[])))
    case Inserting(role) =>
      if call.address in users then Go(Refused)
      else Effect(users[call.address := Account(id, role)], r.claimed, r.voided, Claiming)
    case Claiming =>
      if r.claimed then Go(Losing) else Effect(Promoted(users, call.address), true, r.voided, Winning)
    case Losing => Effect(users - {call.address}, r.claimed, r.voided, Refused)
    case Winning => Effect(users, r.claimed, r.voided + {call.process}, SigningIn)
    case SigningIn => Go(Claimed(call.address in users && users[call.address].claim == id))
    case Refused => Go(Refused)
    case Claimed(_) => Go(call.stage)
  }

  function Next(r: Race, step: Step): Race {
    match step
    case Ask(id, address, process) =>
      if id in r.calls then r else r.(calls := r.calls[id := Call(address, process, Asked)])
    case Advance(id) =>
      if id !in r.calls then r
      else
        var e := Statement(r, id);
        Race(e.users, e.claimed, e.voided, r.calls[id := r.calls[id].(stage := e.stage)])
  }

  function Reach(r: Race, steps: seq<Step>): Race
    decreases steps
  {
    if steps == [] then r else Next(Reach(r, steps[..|steps| - 1]), steps[|steps| - 1])
  }

  const FRESH := Race(map[], false, {}, map[])

  /** Its account is in the table: from its insert until its own delete. */
  predicate Holds(call: Call) { call.stage.Claiming? || call.stage.Losing? || Won(call) }

  predicate Won(call: Call) { call.stage.Winning? || call.stage.SigningIn? || call.stage.Claimed? }

  /** Each account is the one claim's that holds it. */
  ghost predicate AccountsHeld(r: Race) {
    && (forall id :: id in r.calls && Holds(r.calls[id]) ==>
          r.calls[id].address in r.users && r.users[r.calls[id].address].claim == id)
    && (forall a :: a in r.users ==>
          var id := r.users[a].claim; id in r.calls && Holds(r.calls[id]) && r.calls[id].address == a)
  }

  ghost predicate AtMostOneWon(r: Race) {
    forall i, j :: i in r.calls && j in r.calls && Won(r.calls[i]) && Won(r.calls[j]) ==> i == j
  }

  ghost predicate WinnersStand(r: Race) {
    forall i :: i in r.calls && Won(r.calls[i]) ==>
      r.claimed && r.calls[i].address in r.users && r.users[r.calls[i].address].role == AdminRole
  }

  ghost predicate SomebodyHasWon(r: Race) { exists i :: i in r.calls && Won(r.calls[i]) }

  ghost predicate OneWinner(r: Race) {
    && AtMostOneWon(r) && WinnersStand(r)
    && (r.claimed ==> SomebodyHasWon(r))
    && (forall i :: i in r.calls && r.calls[i].stage.Claimed? ==> r.calls[i].stage.signedIn)
  }

  /** Nobody is refused, and no token cleared, before an account stands or the claim is taken. */
  ghost predicate RefusedForCause(r: Race) {
    && (forall i :: i in r.calls && r.calls[i].stage.Refused? ==> r.users != map[] || r.claimed)
    && (forall i :: i in r.calls && r.calls[i].stage.Losing? ==> r.claimed)
    && (r.voided != {} ==> r.claimed)
  }

  ghost predicate Fair(r: Race) { AccountsHeld(r) && OneWinner(r) && RefusedForCause(r) }

  /** A statement writes nothing, its own claim's account, or that account's removal. */
  lemma AStatementWritesOneAccount(r: Race, id: nat)
    requires AccountsHeld(r) && id in r.calls
    ensures var e, a, before := Statement(r, id), r.calls[id].address, r.calls[id];
            var after := before.(stage := e.stage);
            || (e.users == r.users && Holds(after) == Holds(before))
            || (a in e.users && e.users == r.users[a := Account(id, e.users[a].role)]
                && Holds(after) && (a in r.users ==> Holds(before)))
            || (e.users == r.users - {a} && Holds(before) && !Holds(after))
  {}

  /** A statement leaves every other claim's account as it was. */
  lemma AStatementTouchesItsOwnAccount(r: Race, id: nat)
    requires AccountsHeld(r) && id in r.calls
    ensures var e, a := Statement(r, id), r.calls[id].address;
            && (forall b :: b in r.users && r.users[b].claim != id ==> b in e.users && e.users[b] == r.users[b])
            && (forall b :: b in e.users ==>
                  (b == a && e.users[b].claim == id) || (b in r.users && e.users[b] == r.users[b]))
            && (Holds(r.calls[id].(stage := e.stage)) ==> a in e.users && e.users[a].claim == id)
            && (a in e.users && e.users[a].claim == id ==> Holds(r.calls[id].(stage := e.stage)))
  {
    AStatementWritesOneAccount(r, id);
    hide Statement, Holds;
    assert Holds(r.calls[id]) ==> r.calls[id].address in r.users && r.users[r.calls[id].address].claim == id;
  }

  lemma AStepKeepsAccountsHeld(r: Race, step: Step)
    requires AccountsHeld(r)
    ensures AccountsHeld(Next(r, step))
  {
    hide Statement, Holds;
    if step.Advance? && step.id in r.calls {
      AStatementTouchesItsOwnAccount(r, step.id);
      var t := Next(r, step);
      forall a | a in t.users
        ensures t.users[a].claim in t.calls && Holds(t.calls[t.users[a].claim])
             && t.calls[t.users[a].claim].address == a
      {
        if a in r.users && t.users[a] == r.users[a] {
          assert r.users[a].claim in r.calls && r.calls[r.users[a].claim].address == a;
        }
      }
    } else {
      ANewClaimHoldsNothing(step);
    }
  }

  lemma ANewClaimHoldsNothing(step: Step)
    ensures step.Ask? ==> !Holds(Call(step.address, step.process, Asked))
  {}

  lemma AStatementWinsOnce(r: Race, id: nat)
    requires AccountsHeld(r) && OneWinner(r) && id in r.calls
    ensures var e, call := Statement(r, id), r.calls[id];
            var after := call.(stage := e.stage);
            && (Won(call) ==> Won(after) && e.users == r.users)
            && (Won(after) && !Won(call) ==> !r.claimed)
            && (e.claimed <==> r.claimed || Won(after))
            && (Won(after) ==> call.address in e.users && e.users[call.address].role == AdminRole)
            && (after.stage.Claimed? ==> after.stage.signedIn)
  {
    assert Won(r.calls[id]) ==> Holds(r.calls[id]);
  }

  lemma AStepKeepsTheWinners(r: Race, step: Step)
    requires AccountsHeld(r) && OneWinner(r)
    ensures var t := Next(r, step);
            && (forall w :: w in r.calls && Won(r.calls[w]) ==> w in t.calls && Won(t.calls[w]))
            && (forall w :: w in t.calls && Won(t.calls[w]) ==>
                  w in r.calls && (Won(r.calls[w]) || (step == Advance(w) && !r.claimed)))
            && (t.claimed <==> r.claimed || (step.Advance? && step.id in r.calls && Won(t.calls[step.id])))
  {
    hide Statement, Won, Holds, AccountsHeld, OneWinner;
    if step.Advance? && step.id in r.calls {
      AStatementWinsOnce(r, step.id);
    } else {
      ANewClaimHasNotWon(step);
    }
  }

  lemma AStepKeepsOneWinner(r: Race, step: Step)
    requires AccountsHeld(r) && OneWinner(r)
    ensures OneWinner(Next(r, step))
  {
    var t := Next(r, step);
    AStepKeepsTheWinners(r, step);
    assert AtMostOneWon(t) && (t.claimed ==> SomebodyHasWon(t)) by { hide Statement, Won, Holds, AccountsHeld; }
    AStepLeavesWinnersStanding(r, step);
  }

  lemma AStepLeavesWinnersStanding(r: Race, step: Step)
    requires AccountsHeld(r) && OneWinner(r)
    ensures WinnersStand(Next(r, step))
    ensures var t := Next(r, step); forall i :: i in t.calls && t.calls[i].stage.Claimed? ==> t.calls[i].stage.signedIn
  {
    hide Statement, Won, Holds, AccountsHeld;
    WinnersHold(r);
    AStepKeepsTheWinners(r, step);
    if step.Advance? && step.id in r.calls {
      AStatementTouchesItsOwnAccount(r, step.id);
      AStatementWinsOnce(r, step.id);
    }
  }

  lemma ANewClaimHasNotWon(step: Step)
    ensures step.Ask? ==> !Won(Call(step.address, step.process, Asked))
  {}

  lemma WinnersHold(r: Race)
    requires AccountsHeld(r)
    ensures forall w :: w in r.calls && Won(r.calls[w]) ==>
              r.calls[w].address in r.users && r.users[r.calls[w].address].claim == w
  {
    forall w | w in r.calls && Won(r.calls[w])
      ensures r.calls[w].address in r.users && r.users[r.calls[w].address].claim == w
    {
      assert Holds(r.calls[w]);
    }
  }

  lemma AStepRefusesForCause(r: Race, step: Step)
    requires AccountsHeld(r) && OneWinner(r) && RefusedForCause(r)
    ensures RefusedForCause(Next(r, step))
  {
    hide AccountsHeld, Holds;
    if step.Advance? && step.id in r.calls {
      AStatementTouchesItsOwnAccount(r, step.id);
    }
  }

  lemma {:induction false} RacesStayFair(r: Race, steps: seq<Step>)
    requires Fair(r)
    ensures Fair(Reach(r, steps))
    decreases steps
  {
    if steps != [] {
      hide AccountsHeld, OneWinner, RefusedForCause, Next;
      var before, step := Reach(r, steps[..|steps| - 1]), steps[|steps| - 1];
      RacesStayFair(r, steps[..|steps| - 1]);
      AStepKeepsAccountsHeld(before, step);
      AStepKeepsOneWinner(before, step);
      AStepRefusesForCause(before, step);
    }
  }

  predicate Finished(call: Call) { call.stage.Refused? || call.stage.Claimed? }

  /** In any interleaving at most one claim is ever told it won, and it is signed in. */
  lemma AtMostOneClaimWins(steps: seq<Step>, one: nat, other: nat)
    ensures var r := Reach(FRESH, steps);
            one in r.calls && other in r.calls && r.calls[one].stage.Claimed? && r.calls[other].stage.Claimed? ==>
              one == other && r.calls[one].stage.signedIn
  {
    hide Next, AccountsHeld, RefusedForCause;
    AFreshInstallIsFair();
    RacesStayFair(FRESH, steps);
  }

  lemma AFreshInstallIsFair()
    ensures Fair(FRESH)
  {}

  lemma SomebodyWon(r: Race, id: nat)
    requires Fair(r) && id in r.calls && forall i :: i in r.calls ==> Finished(r.calls[i])
    ensures r.claimed
  {
    if r.calls[id].stage.Claimed? {
      assert Won(r.calls[id]);
    } else if a :| a in r.users {
      assert Won(r.calls[r.users[a].claim]);
    }
  }

  /** Once every claim has its answer one account stands, the winner's, an administrator; everybody else was refused. */
  lemma OneAccountIsLeft(steps: seq<Step>, some: nat) returns (winner: nat)
    requires var r := Reach(FRESH, steps); some in r.calls && forall id :: id in r.calls ==> Finished(r.calls[id])
    ensures var r := Reach(FRESH, steps);
            && winner in r.calls && r.calls[winner].stage == Claimed(true)
            && r.users == map[r.calls[winner].address := Account(winner, AdminRole)]
            && forall id :: id in r.calls && id != winner ==> r.calls[id].stage == Refused
  {
    hide Next, RefusedForCause;
    AFreshInstallIsFair();
    RacesStayFair(FRESH, steps);
    var r := Reach(FRESH, steps);
    SomebodyWon(r, some);
    winner :| winner in r.calls && Won(r.calls[winner]);
    WinnersHold(r);
    forall a | a in r.users ensures a == r.calls[winner].address {
      assert Won(r.calls[r.users[a].claim]);
    }
    forall id | id in r.calls && id != winner ensures r.calls[id].stage == Refused {
      assert Finished(r.calls[id]) && !Won(r.calls[id]);
    }
  }

  /** No step, a loser's delete included, takes the winner's account away or its role. */
  lemma NothingRemovesTheWinner(steps: seq<Step>, step: Step, winner: nat)
    requires var r := Reach(FRESH, steps); winner in r.calls && Won(r.calls[winner])
    ensures var r, t := Reach(FRESH, steps), Next(Reach(FRESH, steps), step);
            && r.calls[winner].address in t.users
            && t.users[r.calls[winner].address] == Account(winner, AdminRole)
  {
    AFreshInstallIsFair();
    RacesStayFair(FRESH, steps);
    AStandingWinnerStays(Reach(FRESH, steps), step, winner);
  }

  lemma AStandingWinnerStays(r: Race, step: Step, winner: nat)
    requires Fair(r) && winner in r.calls && Won(r.calls[winner])
    ensures var t := Next(r, step);
            && r.calls[winner].address in t.users
            && t.users[r.calls[winner].address] == Account(winner, AdminRole)
  {
    hide Statement, RefusedForCause, Holds, Won, AccountsHeld;
    AStepKeepsAccountsHeld(r, step);
    AStepKeepsTheWinners(r, step);
    AStepKeepsOneWinner(r, step);
    WinnersHold(Next(r, step));
    assert Next(r, step).calls[winner].address == r.calls[winner].address;
  }

  // --- Claims that come late --------------------------------------------------

  /** It has written nothing: it is not there yet, has not signed up, or was refused. */
  ghost predicate HasWrittenNothing(r: Race, id: nat) {
    id in r.calls ==> r.calls[id].stage.Asked? || r.calls[id].stage.SigningUp? || r.calls[id].stage.Refused?
  }

  lemma ALateClaimIsRefused(r: Race, id: nat)
    requires r.users != map[] && id in r.calls && HasWrittenNothing(r, id)
    ensures Next(r, Advance(id)) == r.(calls := r.calls[id := r.calls[id].(stage := Refused)])
  {}

  /** Once a claim has won, one that had not signed up by then never makes an account, however the rest goes on. */
  lemma {:induction false} AWonInstallShutsOutLaterClaims(r: Race, later: seq<Step>, winner: nat, id: nat)
    requires Fair(r) && winner in r.calls && Won(r.calls[winner]) && HasWrittenNothing(r, id)
    ensures var t := Reach(r, later);
            && Fair(t) && winner in t.calls && Won(t.calls[winner]) && HasWrittenNothing(t, id)
            && forall a :: a in t.users ==> t.users[a].claim != id
    decreases later
  {
    hide Next, AccountsHeld, OneWinner, RefusedForCause;
    RacesStayFair(r, later);
    if later != [] {
      var before, step := Reach(r, later[..|later| - 1]), later[|later| - 1];
      AWonInstallShutsOutLaterClaims(r, later[..|later| - 1], winner, id);
      AStepKeepsTheWinners(before, step);
      WinnersHold(before);
      AStepKeepsItWriteless(before, step, id);
    }
    WhoeverHasWrittenNothingHoldsNothing(Reach(r, later), id);
  }

  lemma AStepKeepsItWriteless(r: Race, step: Step, id: nat)
    requires r.users != map[] && HasWrittenNothing(r, id)
    ensures HasWrittenNothing(Next(r, step), id)
  {
    hide Statement;
    if step == Advance(id) && id in r.calls {
      ALateClaimIsRefused(r, id);
    }
  }

  lemma WhoeverHasWrittenNothingHoldsNothing(r: Race, id: nat)
    requires AccountsHeld(r) && HasWrittenNothing(r, id)
    ensures forall a :: a in r.users ==> r.users[a].claim != id
  {}

  // --- One claim alone --------------------------------------------------------

  /** The first account is an administrator's; after it a new one is what it is asked to be, or an analyst's. */
  lemma TheFirstAccountAdministers(asked: Option<Role>, installHasAccounts: bool)
    ensures RoleForNewUser(asked, installHasAccounts) == AdminRole <==> !installHasAccounts || asked == Some(AdminRole)
  {}

  function Uninterrupted(r: Race, id: nat, n: nat): Race
    decreases n
  {
    if n == 0 then r else Uninterrupted(Next(r, Advance(id)), id, n - 1)
  }

  /** The race with these tables and the claim at this stage. */
  function With(r: Race, id: nat, users: Users, claimed: bool, voided: set<Process>, stage: Stage): Race
    requires id in r.calls
  {
    Race(users, claimed, voided, r.calls[id := r.calls[id].(stage := stage)])
  }

  /** One statement of the claim, and those after it. */
  lemma OneMove(r: Race, id: nat, users: Users, claimed: bool, voided: set<Process>, stage: Stage, n: nat)
    requires id in r.calls && n > 0
    ensures var e := Statement(With(r, id, users, claimed, voided, stage), id);
            Uninterrupted(With(r, id, users, claimed, voided, stage), id, n)
              == Uninterrupted(With(r, id, e.users, e.claimed, e.voided, e.stage), id, n - 1)
  {
    hide Statement;
    var before := With(r, id, users, claimed, voided, stage);
    var e := Statement(before, id);
    assert Next(before, Advance(id)) == With(r, id, e.users, e.claimed, e.voided, e.stage);
  }

  lemma {:induction false} AnAnsweredClaimStands(
      r: Race, id: nat, users: Users, claimed: bool, voided: set<Process>, stage: Stage, n: nat)
    requires id in r.calls && (stage.Refused? || stage.Claimed?)
    ensures Uninterrupted(With(r, id, users, claimed, voided, stage), id, n)
         == With(r, id, users, claimed, voided, stage)
    decreases n
  {
    if n > 0 {
      OneMove(r, id, users, claimed, voided, stage, n);
      AnAnsweredClaimStands(r, id, users, claimed, voided, stage, n - 1);
    }
  }

  lemma AClaimAsks(r: Race, id: nat)
    requires id in r.calls && r.calls[id].stage == Asked
    ensures r == With(r, id, r.users, r.claimed, r.voided, Asked)
  {
    assert r.calls == r.calls[id := r.calls[id].(stage := Asked)];
  }

  /** From an empty install the claim comes to its own account. */
  lemma AClaimSignsUp(r: Race, id: nat)
    requires id in r.calls && r.calls[id].process !in r.voided
    ensures Uninterrupted(With(r, id, map[], r.claimed, r.voided, Asked), id, 7)
         == (var own := map[r.calls[id].address := Account(id, AdminRole)];
             Uninterrupted(With(r, id, own, r.claimed, r.voided, Claiming), id, 3))
  {
    hide Uninterrupted, Next;
    OneMove(r, id, map[], r.claimed, r.voided, Asked, 7);
    OneMove(r, id, map[], r.claimed, r.voided, SigningUp, 6);
    OneMove(r, id, map[], r.claimed, r.voided, Hooked, 5);
    OneMove(r, id, map[], r.claimed, r.voided, Inserting(AdminRole), 4);
  }

  lemma AClaimIsSettled(r: Race, id: nat)
    requires id in r.calls
    ensures var call := r.calls[id];
            var own := map[call.address := Account(id, AdminRole)];
            Uninterrupted(With(r, id, own, r.claimed, r.voided, Claiming), id, 3)
              == if r.claimed then With(r, id, map[], true, r.voided, Refused)
                 else With(r, id, own, true, r.voided + {call.process}, Claimed(true))
  {
    hide Uninterrupted, Next;
    var call := r.calls[id];
    var own: Users := map[call.address := Account(id, AdminRole)];
    OneMove(r, id, own, r.claimed, r.voided, Claiming, 3);
    if r.claimed {
      assert own - {call.address} == map[];
      OneMove(r, id, own, true, r.voided, Losing, 2);
      AnAnsweredClaimStands(r, id, map[], true, r.voided, Refused, 1);
    } else {
      assert Promoted(own, call.address) == own;
      OneMove(r, id, own, true, r.voided, Winning, 2);
      OneMove(r, id, own, true, r.voided + {call.process}, SigningIn, 1);
      AnAnsweredClaimStands(r, id, own, true, r.voided + {call.process}, Claimed(true), 0);
    }
  }

  /**
   * With nothing between its statements a claim with the right token wins and
   * is signed in exactly on an install with no account whose token stands and
   * whose claim is not taken; a win leaves its own account, an administrator's,
   * and anything else leaves the accounts as they were.
   */
  lemma AnUninterruptedClaim(r: Race, id: nat)
    requires id in r.calls && r.calls[id].stage == Asked
    ensures var call, t := r.calls[id], Uninterrupted(r, id, 7);
            var wins := r.users == map[] && call.process !in r.voided && !r.claimed;
            && t.calls == r.calls[id := call.(stage := if wins then Claimed(true) else Refused)]
            && t.users == (if wins then map[call.address := Account(id, AdminRole)] else r.users)
            && t.claimed == (r.claimed || wins)
            && t.voided == (if wins then r.voided + {call.process} else r.voided)
  {
    hide Uninterrupted, Next;
    AClaimAsks(r, id);
    if r.users != map[] || r.calls[id].process in r.voided {
      OneMove(r, id, r.users, r.claimed, r.voided, Asked, 7);
      AnAnsweredClaimStands(r, id, r.users, r.claimed, r.voided, Refused, 6);
    } else {
      AClaimSignsUp(r, id);
      AClaimIsSettled(r, id);
    }
  }
}
