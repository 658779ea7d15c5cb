/** The reveal request lifecycle, gated by the authorization decision. */
module RevealFlow {
  import opened Common

  // ---- the decision -------------------------------------------------------------------------------

  datatype Sensitivity = Low | Medium | High {
    function Rank(): nat {
      if Low? then 0 else if Medium? then 1 else 2
    }
  }

  datatype SecurityProfile = Relaxed | Balanced | Paranoid

  datatype DeviceClass = Software | SecureEnclave | HardwareToken {
    function Rank(): nat {
      if Software? then 0 else if SecureEnclave? then 1 else 2
    }
  }

  datatype SignedConfigFlag = SignedConfigFlag(jwt: string, keyId: string)

  datatype OperatorConfirmation = OperatorConfirmation(
    slashCommand: bool, oobAck: bool, signedConfigFlag: Option<SignedConfigFlag>)

  predicate SlashConfirmed(c: OperatorConfirmation) {
    c.slashCommand || c.signedConfigFlag.Some?
  }

  datatype Authorization = Allow | Deny(reason: string)

  /** The decision's six inputs. */
  datatype Inputs = Inputs(
    confirm: OperatorConfirmation, sensitivity: Sensitivity, oobThreshold: Sensitivity,
    profile: SecurityProfile, boundDevice: DeviceClass, requiredDevice: DeviceClass)

  predicate OobRequired(i: Inputs) {
    i.sensitivity.Rank() >= i.oobThreshold.Rank() || i.profile == Paranoid
  }

  /** The first failing rule names the denial. */
  function Evaluate(i: Inputs): (a: Authorization) {
    if !SlashConfirmed(i.confirm) then Deny("missing_slash_command")
    else if OobRequired(i) && !i.confirm.oobAck then Deny("oob_ack_required")
    else if i.boundDevice.Rank() < i.requiredDevice.Rank() then Deny("device_class_insufficient")
    else Allow
  }

  // The rules, spelled out case by case.

  predicate OperatorConfirmed(i: Inputs) {
    i.confirm.slashCommand || i.confirm.signedConfigFlag.Some?
  }

  /** Only a secret strictly below the threshold, outside the paranoid profile, needs no acknowledgement. */
  predicate AcknowledgedAsNeeded(i: Inputs) {
    || i.confirm.oobAck
    || (&& (i.profile.Relaxed? || i.profile.Balanced?)
        && ((i.sensitivity.Low? && (i.oobThreshold.Medium? || i.oobThreshold.High?))
            || (i.sensitivity.Medium? && i.oobThreshold.High?)))
  }

  predicate DeviceSuffices(i: Inputs) {
    match i.requiredDevice
    case Software => true
    case SecureEnclave => i.boundDevice.SecureEnclave? || i.boundDevice.HardwareToken?
    case HardwareToken => i.boundDevice.HardwareToken?
  }

  /** All three rules hold. */
  predicate RulesHold(i: Inputs) {
    OperatorConfirmed(i) && AcknowledgedAsNeeded(i) && DeviceSuffices(i)
  }

  /** The decision, and its reason, for every combination of inputs. */
  lemma EvaluateIff(i: Inputs)
    ensures Evaluate(i) == Allow <==> RulesHold(i)
    ensures Evaluate(i) == Deny("missing_slash_command") <==> !OperatorConfirmed(i)
    ensures Evaluate(i) == Deny("oob_ack_required") <==> OperatorConfirmed(i) && !AcknowledgedAsNeeded(i)
    ensures Evaluate(i) == Deny("device_class_insufficient") <==>
            OperatorConfirmed(i) && AcknowledgedAsNeeded(i) && !DeviceSuffices(i)
  {
    assert |"missing_slash_command"| == 21 && |"oob_ack_required"| == 16 && |"device_class_insufficient"| == 25;
  }

  /** Stronger evidence never turns an allowed reveal into a denied one, and vice versa for the policy. */
  predicate AtLeastAsStrong(i: Inputs, j: Inputs) {
    && (SlashConfirmed(i.confirm) ==> SlashConfirmed(j.confirm)) && (i.confirm.oobAck ==> j.confirm.oobAck)
    && i.boundDevice.Rank() <= j.boundDevice.Rank()
    && j.sensitivity.Rank() <= i.sensitivity.Rank() && i.oobThreshold.Rank() <= j.oobThreshold.Rank()
    && (j.profile == Paranoid ==> i.profile == Paranoid)
    && j.requiredDevice.Rank() <= i.requiredDevice.Rank()
  }

  /** How many of the rules, in order, a decision has passed. */
  function RulesPassed(a: Authorization): (n: nat) {
    if a.Allow? then 3
    else if a.reason == "device_class_insufficient" then 2
    else if a.reason == "oob_ack_required" then 1
    else 0
  }

  /** Stronger evidence or a laxer policy is allowed if the weaker was, and is never denied earlier. */
  lemma EvaluateMonotone(i: Inputs, j: Inputs)
    requires AtLeastAsStrong(i, j)
    ensures Evaluate(i) == Allow ==> Evaluate(j) == Allow
    ensures RulesPassed(Evaluate(i)) <= RulesPassed(Evaluate(j))
  {
    assert |"missing_slash_command"| == 21 && |"oob_ack_required"| == 16 && |"device_class_insufficient"| == 25;
  }

  // ---- the request --------------------------------------------------------------------------------

  datatype State = Pending | AwaitingOob | Approved | Denied | Expired | Error

  predicate Terminal(s: State) {
    s.Approved? || s.Denied? || s.Expired? || s.Error?
  }

  datatype Challenge = Challenge(challengeId: nat, nonce: nat, expiresAt: int)
  datatype OobResolution = OobResolution(challengeId: nat, outcome: string, authorizedAt: Option<int>)

  datatype Request = Request(state: State, challenge: Option<Challenge>, resolution: Option<OobResolution>)

  datatype DomainError = InvalidStateTransition(from: State) | ChallengeMismatch(expected: nat, got: nat)

  function IssueChallenge(r: Request, ch: Challenge): (s: Result<Request, DomainError>) {
    if r.state != Pending then Err(InvalidStateTransition(r.state))
    else Ok(r.(challenge := Some(ch), state := AwaitingOob))
  }

  function Resolve(r: Request, res: OobResolution, a: Authorization): (s: Result<Request, DomainError>) {
    if !(r.state.Pending? || r.state.AwaitingOob?) then Err(InvalidStateTransition(r.state))
    else if r.challenge.Some? && r.challenge.value.challengeId != res.challengeId then
      Err(ChallengeMismatch(r.challenge.value.challengeId, res.challengeId))
    else Ok(r.(state := if a.Allow? then Approved else Denied, resolution := Some(res)))
  }

  function Expire(r: Request): (s: Result<Request, DomainError>) {
    if Terminal(r.state) then Err(InvalidStateTransition(r.state)) else Ok(r.(state := Expired))
  }

  class RevealRequest {
    var state: State
    var challenge: Option<Challenge>
    var resolution: Option<OobResolution>

    ghost function View(): Request
      reads this
    {
      Request(state, challenge, resolution)
    }

    constructor ()
      ensures View() == FRESH
    {
      state, challenge, resolution := Pending, None, None;
    }

    method Issue(ch: Challenge) returns (r: Result<(), DomainError>)
      modifies this
      ensures r.Ok? ==> IssueChallenge(old(View()), ch) == Ok(View())
      ensures r.Err? ==> IssueChallenge(old(View()), ch) == Err(r.error) && View() == old(View())
    {
      if state != Pending {
        return Err(InvalidStateTransition(state));
      }
      challenge := Some(ch);
      state := AwaitingOob;
      return Ok(());
    }

    method ResolveWith(res: OobResolution, a: Authorization) returns (r: Result<Authorization, DomainError>)
      modifies this
      ensures r.Ok? ==> r.value == a && Resolve(old(View()), res, a) == Ok(View())
      ensures r.Err? ==> Resolve(old(View()), res, a) == Err(r.error) && View() == old(View())
    {
      if !(state.Pending? || state.AwaitingOob?) {
        return Err(InvalidStateTransition(state));
      }
      if challenge.Some? && challenge.value.challengeId != res.challengeId {
        return Err(ChallengeMismatch(challenge.value.challengeId, res.challengeId));
      }
      state := if a.Allow? then Approved else Denied;
      resolution := Some(res);
      return Ok(a);
    }

    method ExpireNow() returns (r: Result<(), DomainError>)
      modifies this
      ensures r.Ok? ==> Expire(old(View())) == Ok(View())
      ensures r.Err? ==> Expire(old(View())) == Err(r.error) && View() == old(View())
    {
      if Terminal(state) {
        return Err(InvalidStateTransition(state));
      }
      state := Expired;
      return Ok(());
    }
  }

  // ---- runs ---------------------------------------------------------------------------------------

  const FRESH := Request(Pending, None, None)

  /** Calls on the request; a resolve is given the verdict of the decision on its inputs. */
  datatype Action = DoIssue(challenge: Challenge) | DoResolve(res: OobResolution, inputs: Inputs) | DoExpire

  function Attempt(r: Request, a: Action): Result<Request, DomainError> {
    match a
    case DoIssue(ch) => IssueChallenge(r, ch)
    case DoResolve(res, inputs) => Resolve(r, res, Evaluate(inputs))
    case DoExpire => Expire(r)
  }

  function Step(r: Request, a: Action): (s: Request) {
    var t := Attempt(r, a);
    if t.Ok? then t.value else r
  }

  function Run(actions: seq<Action>): (r: Request) {
    if actions == [] then FRESH else Step(Run(actions[..|actions| - 1]), actions[|actions| - 1])
  }

  /** Terminal states are absorbing, and what is recorded is never replaced, over any continuation. */
  lemma {:induction false} RecordedForGood(actions: seq<Action>, later: seq<Action>)
    ensures var r, s := Run(actions), Run(actions + later);
            && (Terminal(r.state) ==> s == r)
            && (r.challenge.Some? ==> s.challenge == r.challenge)
            && (r.resolution.Some? ==> s.resolution == r.resolution)
  {
    if later == [] {
      assert actions + later == actions;
    } else {
      var n := |later| - 1;
      assert (actions + later)[..|actions| + n] == actions + later[..n];
      RecordedForGood(actions, later[..n]);
      RunInvariant(actions + later[..n]);
    }
  }

  ghost predicate Invariant(r: Request) {
    && (r.state.Pending? ==> r.challenge.None? && r.resolution.None?)
    && (r.state.AwaitingOob? ==> r.challenge.Some? && r.resolution.None?)
    && (r.resolution.Some? <==> r.state.Approved? || r.state.Denied?)
    && (r.challenge.Some? && r.resolution.Some? ==> r.challenge.value.challengeId == r.resolution.value.challengeId)
    && !r.state.Error?
  }

  lemma {:induction false} RunInvariant(actions: seq<Action>)
    ensures Invariant(Run(actions))
  {
    if actions != [] {
      RunInvariant(actions[..|actions| - 1]);
    }
  }

  /** The call at `j` settled the request: it was still open and this call closed it. */
  predicate SettledAt(actions: seq<Action>, j: nat) {
    j < |actions| && !Terminal(Run(actions[..j]).state) && Terminal(Run(actions[..j + 1]).state)
  }

  lemma {:induction false} TerminalWasSettled(actions: seq<Action>) returns (j: nat)
    requires Terminal(Run(actions).state)
    ensures SettledAt(actions, j) && Run(actions[..j + 1]) == Run(actions)
  {
    var n := |actions| - 1;
    if !Terminal(Run(actions[..n]).state) {
      j := n;
      assert actions[..n + 1] == actions;
    } else {
      j := TerminalWasSettled(actions[..n]);
      assert actions[..n][..j] == actions[..j] && actions[..n][..j + 1] == actions[..j + 1];
      RecordedForGood(actions[..n], [actions[n]]);
      assert actions[..n] + [actions[n]] == actions;
    }
  }

  /**
   Over every run the request is approved exactly when the call that settled it was a resolve whose
   inputs satisfied all three rules at that step; denied when they did not; expired by an expire.
   */
  lemma OutcomeExplained(actions: seq<Action>)
    requires Terminal(Run(actions).state)
    ensures exists j: nat :: SettledAt(actions, j) &&
              match actions[j]
              case DoResolve(res, inputs) =>
                && Run(actions).resolution == Some(res)
                && Run(actions).state == (if RulesHold(inputs) then Approved else Denied)
              case DoExpire => Run(actions).state == Expired && Run(actions).resolution == None
              case DoIssue(_) => false
  {
    var j := TerminalWasSettled(actions);
    assert actions[..j + 1][..j] == actions[..j] && actions[..j + 1][j] == actions[j];
    RunInvariant(actions[..j]);
    if actions[j].DoResolve? {
      EvaluateIff(actions[j].inputs);
    }
  }

  lemma StaysTerminal(actions: seq<Action>, i: nat, j: nat)
    requires i <= j <= |actions| && Terminal(Run(actions[..i]).state)
    ensures Terminal(Run(actions[..j]).state)
  {
    assert actions[..i] + actions[i..j] == actions[..j];
    RecordedForGood(actions[..i], actions[i..j]);
  }

  /** There is only one such call in a run. */
  lemma SettledOnce(actions: seq<Action>, i: nat, j: nat)
    requires SettledAt(actions, i) && SettledAt(actions, j)
    ensures i == j
  {
    if i < j {
      StaysTerminal(actions, i + 1, j);
    } else if j < i {
      StaysTerminal(actions, j + 1, i);
    }
  }

  // ---- read off the calls ---------------------------------------------------------------------------

  /** The challenge of the first issue among the calls. */
  function FirstIssue(actions: seq<Action>): (ch: Option<Challenge>) {
    if actions == [] then None
    else
      var before := FirstIssue(actions[..|actions| - 1]);
      if before.None? && actions[|actions| - 1].DoIssue? then Some(actions[|actions| - 1].challenge) else before
  }

  /** A call that settles an open request with this challenge: an expiry, or a resolve for its id. */
  predicate Settles(a: Action, ch: Option<Challenge>) {
    a.DoExpire? || (a.DoResolve? && (ch.Some? ==> ch.value.challengeId == a.res.challengeId))
  }

  ghost predicate Settled(actions: seq<Action>) {
    exists j :: 0 <= j < |actions| && Settles(actions[j], FirstIssue(actions[..j]))
  }

  /**
   The whole state machine, from the calls alone: a request is open until the first call that settles
   it, and an open request holds the first challenge issued.
   */
  lemma {:induction false} OpenUntilSettled(actions: seq<Action>)
    ensures Terminal(Run(actions).state) <==> Settled(actions)
    ensures !Settled(actions) ==>
              && Run(actions).challenge == FirstIssue(actions) && Run(actions).resolution.None?
              && Run(actions).state == if FirstIssue(actions).None? then Pending else AwaitingOob
  {
    if actions != [] {
      var n := |actions| - 1;
      OpenUntilSettled(actions[..n]);
      SettledSnoc(actions);
    }
  }

  lemma SettledSnoc(actions: seq<Action>)
    requires actions != []
    ensures var n := |actions| - 1;
            Settled(actions) <==> Settled(actions[..n]) || Settles(actions[n], FirstIssue(actions[..n]))
  {
    var n := |actions| - 1;
    forall j | 0 <= j < n
      ensures actions[..n][..j] == actions[..j] && actions[..n][j] == actions[j]
    {
    }
  }

  /** Which calls succeed after any run, and the error of one that does not. */
  lemma {:induction false} CallOutcome(actions: seq<Action>, a: Action)
    ensures var r, issued, settled := Attempt(Run(actions), a), FirstIssue(actions), Settled(actions);
            if settled then r == Err(InvalidStateTransition(Run(actions).state))
            else
              match a
              case DoIssue(ch) =>
                if issued.None? then r.Ok? && r.value.challenge == Some(ch) && r.value.state == AwaitingOob
                else r == Err(InvalidStateTransition(AwaitingOob))
              case DoResolve(res, inputs) =>
                if issued.Some? && issued.value.challengeId != res.challengeId then
                  r == Err(ChallengeMismatch(issued.value.challengeId, res.challengeId))
                else
                  && r.Ok? && r.value.resolution == Some(res) && r.value.challenge == issued
                  && r.value.state == if RulesHold(inputs) then Approved else Denied
              case DoExpire => r == Ok(Request(Expired, issued, None))
  {
    OpenUntilSettled(actions);
    RunInvariant(actions);
    if a.DoResolve? {
      EvaluateIff(a.inputs);
    }
  }
}
