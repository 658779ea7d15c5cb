/** Single-use token accounting: the registry keyed by the token's base64url text. */
module UseTokens {
  import opened Common
  import opened Base64

  type Handle = string

  datatype UseToken = UseToken(
    token: seq<Byte>, secretId: nat, sessionId: nat, handle: Handle, issuedAt: int, expiresAt: int, consumed: bool)

  /** The registry key is the token's display form. */
  function Key(t: UseToken): string {
    EncodeUrl(t.token)
  }

  datatype ConsumeError = UnknownToken | HandleMismatch | TokenExpired | TokenAlreadyConsumed

  type Tokens = map<string, UseToken>

  /** The checks in the source's order; success marks the token as consumed. */
  function Consume(tokens: Tokens, key: string, handle: Handle, now: int): (r: Result<Tokens, ConsumeError>) {
    if key !in tokens then Err(UnknownToken)
    else if tokens[key].handle != handle then Err(HandleMismatch)
    else if tokens[key].expiresAt <= now then Err(TokenExpired)
    else if tokens[key].consumed then Err(TokenAlreadyConsumed)
    else Ok(tokens[key := tokens[key].(consumed := true)])
  }

  class TokenRegistry {
    var tokens: Tokens

    constructor ()
      ensures tokens == map[]
    {
      tokens := map[];
    }

    method RegisterUseToken(t: UseToken)
      modifies this
      ensures tokens == old(tokens)[Key(t) := t]
    {
      tokens := tokens[Key(t) := t];
    }

    /** A failed consume leaves the registry unchanged. */
    method ConsumeUseToken(key: string, handle: Handle, now: int) returns (r: Result<(), ConsumeError>)
      modifies this
      ensures r.Ok? <==> Consume(old(tokens), key, handle, now).Ok?
      ensures r.Ok? ==> tokens == Consume(old(tokens), key, handle, now).value
      ensures r.Err? ==> tokens == old(tokens) && r.error == Consume(old(tokens), key, handle, now).error
    {
      if key !in tokens {
        return Err(UnknownToken);
      }
      var token := tokens[key];
      if token.handle != handle {
        return Err(HandleMismatch);
      }
      if token.expiresAt <= now {
        return Err(TokenExpired);
      }
      if token.consumed {
        return Err(TokenAlreadyConsumed);
      }
      tokens := tokens[key := token.(consumed := true)];
      return Ok(());
    }

    method CloseSessionState() returns (revoked: nat)
      modifies this
      ensures tokens == map[]
      ensures revoked == if |old(tokens)| <= 0xffff_ffff then |old(tokens)| else 0xffff_ffff
    {
      revoked := if |tokens| <= 0xffff_ffff then |tokens| else 0xffff_ffff;
      tokens := map[];
    }
  }

  // ---- runs ---------------------------------------------------------------------------------------

  datatype Action =
    | Register(token: UseToken)
    | Use(key: string, handle: Handle, now: int)
    | CloseSession

  function Step(tokens: Tokens, a: Action): (r: Tokens) {
    match a
    case Register(t) => tokens[Key(t) := t]
    case Use(key, handle, now) =>
      var r := Consume(tokens, key, handle, now);
      if r.Ok? then r.value else tokens
    case CloseSession => map[]
  }

  function Run(tokens: Tokens, actions: seq<Action>): (r: Tokens) {
    if actions == [] then tokens else Step(Run(tokens, actions[..|actions| - 1]), actions[|actions| - 1])
  }

  /** The key holds a token that has not been used. */
  predicate Live(tokens: Tokens, key: string) {
    key in tokens && !tokens[key].consumed
  }

  predicate Registers(a: Action, key: string) {
    a.Register? && Key(a.token) == key
  }

  predicate Succeeds(tokens: Tokens, a: Action, key: string) {
    a.Use? && a.key == key && Consume(tokens, key, a.handle, a.now).Ok?
  }

  /** An unused token leaves without being used: overwritten, or revoked with its session. */
  predicate Discards(tokens: Tokens, a: Action, key: string) {
    Live(tokens, key) && (a.CloseSession? || Registers(a, key))
  }

  function Registrations(actions: seq<Action>, key: string): nat {
    if actions == [] then 0
    else Registrations(actions[..|actions| - 1], key) + One(Registers(actions[|actions| - 1], key))
  }

  function Successes(tokens: Tokens, actions: seq<Action>, key: string): nat {
    if actions == [] then 0
    else Successes(tokens, actions[..|actions| - 1], key)
         + One(Succeeds(Run(tokens, actions[..|actions| - 1]), actions[|actions| - 1], key))
  }

  function Discarded(tokens: Tokens, actions: seq<Action>, key: string): nat {
    if actions == [] then 0
    else Discarded(tokens, actions[..|actions| - 1], key)
         + One(Discards(Run(tokens, actions[..|actions| - 1]), actions[|actions| - 1], key))
  }

  /** Registered tokens are new ones, which start unconsumed. */
  ghost predicate OnlyFresh(actions: seq<Action>) {
    forall a <- actions :: a.Register? ==> !a.token.consumed
  }

  lemma StepConserves(tokens: Tokens, a: Action, key: string)
    requires a.Register? ==> !a.token.consumed
    ensures One(Live(tokens, key)) + One(Registers(a, key)) ==
            One(Live(Step(tokens, a), key)) + One(Succeeds(tokens, a, key)) + One(Discards(tokens, a, key))
  {
  }

  /**
   Conservation over every run from any registry: tokens present at the start plus registrations
   equal tokens still live, plus successful uses, plus those discarded unused.
   */
  lemma {:induction false} TokensConserved(tokens: Tokens, actions: seq<Action>, key: string)
    requires OnlyFresh(actions)
    ensures One(Live(tokens, key)) + Registrations(actions, key) ==
            One(Live(Run(tokens, actions), key)) + Successes(tokens, actions, key) + Discarded(tokens, actions, key)
  {
    if actions != [] {
      var n := |actions| - 1;
      assert actions[n] in actions && forall a <- actions[..n] :: a in actions;
      TokensConserved(tokens, actions[..n], key);
      StepConserves(Run(tokens, actions[..n]), actions[n], key);
    }
  }

  /** So from an empty registry no key is used more often than it was registered. */
  lemma UsesBoundedByRegistrations(actions: seq<Action>, key: string)
    requires OnlyFresh(actions)
    ensures Successes(map[], actions, key) <= Registrations(actions, key)
  {
    TokensConserved(map[], actions, key);
  }

  /** A replay in any continuation without a new registration fails. */
  lemma NoReplay(tokens: Tokens, key: string, handle: Handle, now: int, later: seq<Action>)
    requires Consume(tokens, key, handle, now).Ok? && OnlyFresh(later) && Registrations(later, key) == 0
    ensures Successes(Consume(tokens, key, handle, now).value, later, key) == 0
  {
    TokensConserved(Consume(tokens, key, handle, now).value, later, key);
  }

  // ---- when a use succeeds ------------------------------------------------------------------------

  /** `j` is the last registration of the key, and no session was closed after it. */
  predicate CurrentRegistration(actions: seq<Action>, key: string, j: nat) {
    && j < |actions| && Registers(actions[j], key)
    && forall t :: j < t < |actions| ==> !Registers(actions[t], key) && !actions[t].CloseSession?
  }

  /** The key was used successfully after position `j`. */
  predicate UsedSince(actions: seq<Action>, key: string, j: nat) {
    exists t :: j < t < |actions| && Succeeds(Run(map[], actions[..t]), actions[t], key)
  }

  lemma CurrentSnoc(actions: seq<Action>, key: string, j: nat)
    requires j < |actions|
    ensures var n := |actions| - 1;
            CurrentRegistration(actions, key, j) <==>
            if j == n then Registers(actions[n], key)
            else CurrentRegistration(actions[..n], key, j) && !Registers(actions[n], key) && !actions[n].CloseSession?
  {
    var n := |actions| - 1;
    assert forall t :: 0 <= t < n ==> actions[..n][t] == actions[t];
  }

  /** The registry holds a token under the key exactly when some registration of it is current. */
  lemma {:induction false} StoredIffCurrent(actions: seq<Action>, key: string)
    ensures key in Run(map[], actions) <==> exists j: nat :: CurrentRegistration(actions, key, j)
  {
    if actions != [] {
      var n := |actions| - 1;
      StoredIffCurrent(actions[..n], key);
      CurrentSnoc(actions, key, n);
      if j: nat :| CurrentRegistration(actions[..n], key, j) {
        CurrentSnoc(actions, key, j);
      }
      if j: nat :| CurrentRegistration(actions, key, j) {
        CurrentSnoc(actions, key, j);
      }
    }
  }

  /** A registration starts unused. */
  lemma JustRegistered(actions: seq<Action>, key: string)
    requires actions != [] && Registers(actions[|actions| - 1], key)
    ensures key in Run(map[], actions) && Run(map[], actions)[key] == actions[|actions| - 1].token
    ensures !UsedSince(actions, key, |actions| - 1)
  {
  }

  /** What is held is the current registration's own token, marked exactly when it has been used. */
  lemma {:induction false} StoredIsCurrent(actions: seq<Action>, key: string, j: nat)
    requires CurrentRegistration(actions, key, j) && !actions[j].token.consumed
    ensures key in Run(map[], actions)
    ensures Run(map[], actions)[key] == actions[j].token.(consumed := UsedSince(actions, key, j))
  {
    var n := |actions| - 1;
    if j == n {
      JustRegistered(actions, key);
    } else {
      CurrentSnoc(actions, key, j);
      StoredIsCurrent(actions[..n], key, j);
      UsedSinceSnoc(actions, key, j);
      StoredStep(Run(map[], actions[..n]), actions[n], key);
    }
  }

  lemma StoredStep(tokens: Tokens, a: Action, key: string)
    requires key in tokens && !Registers(a, key) && !a.CloseSession?
    ensures key in Step(tokens, a)
    ensures Step(tokens, a)[key] == if Succeeds(tokens, a, key) then tokens[key].(consumed := true) else tokens[key]
  {
  }

  lemma UsedSinceSnoc(actions: seq<Action>, key: string, j: nat)
    requires j < |actions| - 1
    ensures var n := |actions| - 1;
            UsedSince(actions, key, j) <==>
            UsedSince(actions[..n], key, j) || Succeeds(Run(map[], actions[..n]), actions[n], key)
  {
    var n := |actions| - 1;
    forall t | 0 <= t < n
      ensures actions[..n][..t] == actions[..t] && actions[..n][t] == actions[t]
    {
    }
  }

  /** What a use returns after any run, error by error, for the key's current registration. */
  lemma UseOutcome(actions: seq<Action>, key: string, handle: Handle, now: int)
    requires OnlyFresh(actions)
    ensures var r := Consume(Run(map[], actions), key, handle, now);
            && (r == Err(UnknownToken) <==> forall j: nat :: !CurrentRegistration(actions, key, j))
            && forall j: nat :: CurrentRegistration(actions, key, j) ==>
                 var token := actions[j].token;
                 && (r == Err(HandleMismatch) <==> token.handle != handle)
                 && (r == Err(TokenExpired) <==> token.handle == handle && token.expiresAt <= now)
                 && (r == Err(TokenAlreadyConsumed) <==>
                     token.handle == handle && now < token.expiresAt && UsedSince(actions, key, j))
                 && (r.Ok? <==> token.handle == handle && now < token.expiresAt && !UsedSince(actions, key, j))
  {
    StoredIffCurrent(actions, key);
    forall j: nat | CurrentRegistration(actions, key, j)
      ensures key in Run(map[], actions)
      ensures Run(map[], actions)[key] == actions[j].token.(consumed := UsedSince(actions, key, j))
    {
      assert actions[j] in actions;
      StoredIsCurrent(actions, key, j);
    }
  }

  /**
   After any run, a use succeeds exactly when the key has a current registration, neither replaced nor
   revoked, that has not been used, was made for this handle and has not expired.
   */
  lemma UseSucceedsIff(actions: seq<Action>, key: string, handle: Handle, now: int)
    requires OnlyFresh(actions)
    ensures Succeeds(Run(map[], actions), Use(key, handle, now), key) <==>
            exists j: nat :: CurrentRegistration(actions, key, j) && !UsedSince(actions, key, j)
                             && actions[j].token.handle == handle && now < actions[j].token.expiresAt
  {
    UseOutcome(actions, key, handle, now);
  }

  /** Different 32-byte tokens never share a key, so the bounds above are per token. */
  lemma KeysIdentifyTokens(s: UseToken, t: UseToken)
    ensures Key(s) == Key(t) <==> s.token == t.token
    ensures |s.token| == 32 ==> |Key(s)| == 43
  {
    UrlFormInjective(s.token, t.token);
    UrlFormLength(s.token);
  }
}
