/** Attributing a backend answer to an account: the test it must pass and the identity it is stored under. */
module BackendIdentity {
  import opened Characters
  import opened Wrappers

  const MAX_ID_CHARS := 256
  const MAX_PLAN_CHARS := 64

  datatype Identity = Identity(user: Option<string>, account: Option<string>)
  datatype Plans = Plans(auth: Option<string>, backend: Option<string>)
  datatype Demands = Demands(backendIdentity: bool, backendAccount: bool, rejectAmbiguous: bool)
  datatype Error = InvalidField | NoIdentity | Ambiguous | DifferentAccount

  predicate FieldValid(value: Option<string>, maximum: nat) {
    value.Some? ==>
      && 0 < |value.value| <= maximum
      && forall i :: 0 <= i < |value.value| ==>
           var c := value.value[i]; !Space(c) && c >= ' ' && !('\U{007F}' <= c <= '\U{009F}')
  }

  predicate FieldsValid(backend: Identity, auth: Identity, plans: Plans) {
    && FieldValid(backend.user, MAX_ID_CHARS) && FieldValid(backend.account, MAX_ID_CHARS)
    && FieldValid(auth.user, MAX_ID_CHARS) && FieldValid(auth.account, MAX_ID_CHARS)
    && FieldValid(plans.auth, MAX_PLAN_CHARS) && FieldValid(plans.backend, MAX_PLAN_CHARS)
  }

  /** Two optional ids do not contradict each other. */
  predicate Compatible(x: Option<string>, y: Option<string>) { x.None? || y.None? || x == y }

  predicate Matches(backend: Identity, auth: Identity) {
    if backend.account.Some? && auth.account.Some? then
      if backend.account == auth.account then Compatible(backend.user, auth.user)
      else backend.account == auth.user && (backend.user.None? || backend.user == auth.user)
    else if backend.account.Some? && auth.user.Some? then
      backend.account == auth.user && (backend.user.None? || backend.user == auth.user)
    else
      Compatible(auth.user, backend.user)
  }

  function Or(x: Option<string>, y: Option<string>): Option<string> { if x.Some? then x else y }

  /** `normalize` stands for the case folding and the alias table of plan names. */
  predicate PlansDiffer(plans: Plans, normalize: string -> string) {
    plans.auth.Some? && plans.backend.Some? && normalize(plans.auth.value) != normalize(plans.backend.value)
  }

  function Canonical(backend: Identity, auth: Identity, plans: Plans, demands: Demands, normalize: string -> string)
    : Result<Identity, Error>
  {
    if !FieldsValid(backend, auth, plans) then Err(InvalidField)
    else if demands.backendIdentity && backend.user.None? && backend.account.None? then Err(NoIdentity)
    else if demands.backendAccount && auth.account.Some? && backend.account.None? then Err(Ambiguous)
    else if demands.rejectAmbiguous && auth.user.Some? && auth.account.None? then Err(Ambiguous)
    else if PlansDiffer(plans, normalize) then Err(DifferentAccount)
    else if plans.auth.Some? && auth.user.Some? && auth.account.Some? && backend.account == auth.user
            && backend.account != auth.account && plans.backend.None? then Err(DifferentAccount)
    else if demands.rejectAmbiguous && auth.user.Some? && auth.account.Some? && backend.account != auth.account then
      Err(Ambiguous)
    else if !Matches(backend, auth) then Err(DifferentAccount)
    else Ok(Identity(Or(auth.user, backend.user), Or(auth.account, backend.account)))
  }

  /** Empty, too long, or with a character that is white space or a control character. */
  predicate Unfit(text: string, most: nat) {
    |text| == 0 || |text| > most ||
      exists i :: 0 <= i < |text| && (Space(text[i]) || text[i] < ' ' || '\U{007F}' <= text[i] <= '\U{009F}')
  }

  predicate UnfitField(field: Option<string>, most: nat) { field.Some? && Unfit(field.value, most) }

  lemma UnfitExactly(field: Option<string>, most: nat)
    ensures FieldValid(field, most) <==> !UnfitField(field, most)
  {}

  /**
   An answer is refused for its fields exactly if an id is unfit or longer than 256, or a plan unfit or longer than 64.
   */
  lemma UnfitFieldsRefused(backend: Identity, auth: Identity, plans: Plans, demands: Demands,
      normalize: string -> string)
    ensures Canonical(backend, auth, plans, demands, normalize) == Err(InvalidField) <==>
      || UnfitField(backend.user, 256) || UnfitField(backend.account, 256)
      || UnfitField(auth.user, 256) || UnfitField(auth.account, 256)
      || UnfitField(plans.auth, 64) || UnfitField(plans.backend, 64)
  {
    UnfitExactly(backend.user, 256);
    UnfitExactly(backend.account, 256);
    UnfitExactly(auth.user, 256);
    UnfitExactly(auth.account, 256);
    UnfitExactly(plans.auth, 64);
    UnfitExactly(plans.backend, 64);
    hide FieldValid, UnfitField;
  }

  /** What is accepted is stored under the known ids, completed by those of the answer. */
  lemma KnownIdsAreKept(backend: Identity, auth: Identity, plans: Plans, demands: Demands, normalize: string -> string)
    requires Canonical(backend, auth, plans, demands, normalize).Ok?
    ensures var r := Canonical(backend, auth, plans, demands, normalize).value;
      && r.user == (if auth.user.Some? then auth.user else backend.user)
      && r.account == (if auth.account.Some? then auth.account else backend.account)
  {
    hide FieldValid;
  }

  /**
   While the account is not known, an answer is accepted exactly if it is valid and names what is demanded, and its user
   is not another one than the known user, nor its account, if it gives one.
   */
  lemma UnknownAccountAccepts(backend: Identity, auth: Identity, plans: Plans, demands: Demands,
      normalize: string -> string)
    requires auth.account.None?
    ensures Canonical(backend, auth, plans, demands, normalize).Ok? <==>
      && FieldsValid(backend, auth, plans)
      && (plans.auth.Some? && plans.backend.Some? ==> normalize(plans.auth.value) == normalize(plans.backend.value))
      && (demands.backendIdentity ==> backend.user.Some? || backend.account.Some?)
      && (demands.rejectAmbiguous ==> auth.user.None?)
      && Compatible(backend.user, auth.user) && Compatible(backend.account, auth.user)
  {
    hide FieldValid;
  }

  const NO_PLANS := Plans(None, None)
  const RECHECK := Demands(true, false, false)

  /** The test a stored usage must pass before it is shown: it is its own canonical identity. */
  predicate UsageMatchesAuth(usage: Identity, auth: Identity, normalize: string -> string) {
    (auth.user.Some? || auth.account.Some?) && Canonical(usage, auth, NO_PLANS, RECHECK, normalize) == Ok(usage)
  }

  /**
   The identities that pass the test for a known authentication are exactly the canonical ones: whatever was accepted
   once, under any plans and demands, passes again unchanged, and nothing else does.
   */
  lemma RecheckAcceptsExactlyCanonical(usage: Identity, auth: Identity, normalize: string -> string)
    requires auth.user.Some? || auth.account.Some?
    ensures UsageMatchesAuth(usage, auth, normalize) <==>
      exists backend, plans, demands :: Canonical(backend, auth, plans, demands, normalize) == Ok(usage)
  {
    forall backend, plans, demands | Canonical(backend, auth, plans, demands, normalize) == Ok(usage)
      ensures UsageMatchesAuth(usage, auth, normalize)
    {
      CanonicalIsFixed(backend, auth, plans, demands, normalize);
    }
  }

  lemma CanonicalIsFixed(backend: Identity, auth: Identity, plans: Plans, demands: Demands, normalize: string -> string)
    requires auth.user.Some? || auth.account.Some?
    requires Canonical(backend, auth, plans, demands, normalize).Ok?
    ensures var usage := Canonical(backend, auth, plans, demands, normalize).value;
            Canonical(usage, auth, NO_PLANS, RECHECK, normalize) == Ok(usage)
  {
    hide Space, FieldValid;
    var usage := Canonical(backend, auth, plans, demands, normalize).value;
    assert FieldValid(usage.user, MAX_ID_CHARS) && FieldValid(usage.account, MAX_ID_CHARS);
    assert FieldValid(None, MAX_PLAN_CHARS) by { NoneValid(MAX_PLAN_CHARS); }
    assert Matches(usage, auth);
  }

  lemma NoneValid(maximum: nat)
    ensures FieldValid(None, maximum)
  {}

  /** The demands the browser bridge makes of a payload. */
  function BridgeDemands(backend: Identity, auth: Identity, hasUsage: bool): Demands {
    Demands(auth.user.Some? || auth.account.Some?, auth.account.Some? && hasUsage,
            auth.account.Some? && backend.account.Some?)
  }

  /**
   Under the bridge's demands, a usage-bearing payload is accepted for a known account exactly when it names that
   account.
   */
  lemma BridgeAcceptsOnlyNamedAccount(backend: Identity, auth: Identity, plans: Plans, normalize: string -> string)
    requires auth.account.Some?
    ensures Canonical(backend, auth, plans, BridgeDemands(backend, auth, true), normalize).Ok? <==>
      && FieldsValid(backend, auth, plans) && backend.account == auth.account
      && Compatible(backend.user, auth.user)
      && (plans.auth.Some? && plans.backend.Some? ==> normalize(plans.auth.value) == normalize(plans.backend.value))
  {
    hide Space, FieldValid;
  }

  /** Two accounts with different known ids never both accept one usage-bearing payload, whatever else they share. */
  lemma BridgeAttributesOnce(backend: Identity, auth1: Identity, auth2: Identity, plans1: Plans, plans2: Plans,
                             normalize: string -> string)
    requires auth1.account.Some? && auth2.account.Some? && auth1.account != auth2.account
    ensures Canonical(backend, auth1, plans1, BridgeDemands(backend, auth1, true), normalize).Err?
         || Canonical(backend, auth2, plans2, BridgeDemands(backend, auth2, true), normalize).Err?
  {
    BridgeAcceptsOnlyNamedAccount(backend, auth1, plans1, normalize);
    BridgeAcceptsOnlyNamedAccount(backend, auth2, plans2, normalize);
  }

  /**
   A payload without usage is attributed more loosely: two accounts with different known ids both accept it exactly when
   it is valid for both, contradicts the plan of neither, names no account, and names a user that contradicts neither.
   */
  lemma IdentityOnlyPayloadsMayBeShared(backend: Identity, auth1: Identity, auth2: Identity, plans1: Plans,
                                        plans2: Plans, normalize: string -> string)
    requires auth1.account.Some? && auth2.account.Some? && auth1.account != auth2.account
    ensures Canonical(backend, auth1, plans1, BridgeDemands(backend, auth1, false), normalize).Ok?
         && Canonical(backend, auth2, plans2, BridgeDemands(backend, auth2, false), normalize).Ok?
      <==> && FieldsValid(backend, auth1, plans1) && !PlansDiffer(plans1, normalize)
           && FieldsValid(backend, auth2, plans2) && !PlansDiffer(plans2, normalize)
           && backend.account.None? && backend.user.Some?
           && Compatible(backend.user, auth1.user) && Compatible(backend.user, auth2.user)
  {
    hide Space, FieldValid;
  }

  /** The demands the direct backend makes; `strict` is set for accounts that share their user with another. */
  function DirectDemands(strict: bool): Demands { Demands(true, true, strict) }

  /** The answer names the account, and no other user. */
  predicate Names(backend: Identity, auth: Identity) {
    backend.account == auth.account && Compatible(backend.user, auth.user)
  }

  /** The answer gives the user of the authentication in place of its account. */
  predicate Echoes(backend: Identity, auth: Identity) {
    auth.user.Some? && backend.account == auth.user && backend.account != auth.account &&
      Compatible(backend.user, auth.user)
  }

  /**
   An echo is taken for the account when that is not forbidden and the answer names its plan if the account has one.
   */
  predicate TakesEcho(backend: Identity, auth: Identity, plans: Plans, strict: bool) {
    Echoes(backend, auth) && !strict && (plans.auth.None? || plans.backend.Some?)
  }

  /**
   The direct backend accepts an answer for a known account exactly when it names that account, or echoes its user.
   */
  lemma DirectAcceptsNamedOrEchoed(backend: Identity, auth: Identity, plans: Plans, strict: bool,
      normalize: string -> string)
    requires auth.account.Some?
    ensures Canonical(backend, auth, plans, DirectDemands(strict), normalize).Ok? <==>
      && FieldsValid(backend, auth, plans)
      && (plans.auth.Some? && plans.backend.Some? ==> normalize(plans.auth.value) == normalize(plans.backend.value))
      && (Names(backend, auth) || TakesEcho(backend, auth, plans, strict))
  {
    hide Space, FieldValid;
  }

  /**
   Under the direct backend's demands two accounts with different known ids both accept one answer exactly when it is
   valid for both and at least one of them takes it as an echo of its user, the other one by name or as an echo as well.
   Accounts that are both treated strictly never do.
   */
  lemma DirectSharesOnlyEchoes(backend: Identity, auth1: Identity, auth2: Identity, plans1: Plans, plans2: Plans,
                               strict1: bool, strict2: bool, normalize: string -> string)
    requires auth1.account.Some? && auth2.account.Some? && auth1.account != auth2.account
    ensures Canonical(backend, auth1, plans1, DirectDemands(strict1), normalize).Ok?
         && Canonical(backend, auth2, plans2, DirectDemands(strict2), normalize).Ok?
      <==> && FieldsValid(backend, auth1, plans1) && !PlansDiffer(plans1, normalize)
           && FieldsValid(backend, auth2, plans2) && !PlansDiffer(plans2, normalize)
           && ((TakesEcho(backend, auth1, plans1, strict1) && TakesEcho(backend, auth2, plans2, strict2))
               || (Names(backend, auth1) && TakesEcho(backend, auth2, plans2, strict2))
               || (TakesEcho(backend, auth1, plans1, strict1) && Names(backend, auth2)))
    ensures strict1 && strict2 ==>
      Canonical(backend, auth1, plans1, DirectDemands(strict1), normalize).Err? ||
        Canonical(backend, auth2, plans2, DirectDemands(strict2), normalize).Err?
  {
    DirectAcceptsNamedOrEchoed(backend, auth1, plans1, strict1, normalize);
    DirectAcceptsNamedOrEchoed(backend, auth2, plans2, strict2, normalize);
  }

  /** For instance, an answer that echoes a shared user as its account is accepted for every account of that user. */
  lemma EchoedUserIsAmbiguous(user: string, account1: string, account2: string, normalize: string -> string)
    requires FieldsValid(Identity(Some(user), Some(account1)), Identity(None, Some(account2)), NO_PLANS)
    requires account1 != account2
    ensures var echo := Identity(None, Some(user));
            && Canonical(echo, Identity(Some(user), Some(account1)), NO_PLANS, DirectDemands(false), normalize).Ok?
            && Canonical(echo, Identity(Some(user), Some(account2)), NO_PLANS, DirectDemands(false), normalize).Ok?
  {
    hide Space;
    NoneValid(MAX_ID_CHARS);
  }
}
