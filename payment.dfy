/** The entitlement state of the client's `PaymentService`
    (frontend/src/utils/paymentService.js): a session token, the active
    plan and the browser's key/value storage, and the synchronous decisions
    taken on them. Network replies, timers, clocks and random numbers are
    parameters. */
module Payment {
  import opened Results
  import opened Tiers
  import Planets

  const TOKEN_KEY: string := "gravitas_payment_token"
  const USER_ID_KEY: string := "gravitas_user_id"
  const PLAN_KEY: string := "gravitas_premium_plan"
  const INTENT_KEY: string := "gravitas_payment_intent"

  const NO_PENDING_MESSAGE: string := "No pending payment found"
  const VERIFIED_MESSAGE: string := "Payment verified successfully"

  /** `localStorage.getItem(key)` is truthy: present and not empty. */
  predicate HasEntry(storage: map<string, string>, key: string) {
    key in storage && storage[key] != ""
  }

  /** `localStorage.getItem(TOKEN_KEY) || null`: the stored token, with an
      empty one read as none. */
  function StoredToken(storage: map<string, string>): (r: Option<string>)
    ensures r != Some("")
    ensures r.Some? ==> TOKEN_KEY in storage && r.value == storage[TOKEN_KEY]
    ensures r.None? ==> TOKEN_KEY !in storage || storage[TOKEN_KEY] == ""
  {
    if HasEntry(storage, TOKEN_KEY) then Some(storage[TOKEN_KEY]) else None
  }

  /** `localStorage.getItem(PLAN_KEY) || PREMIUM_TIERS.FREE`: the stored
      plan, never empty, with free standing in for a missing one. */
  function StoredPlan(storage: map<string, string>): (plan: string)
    ensures plan != ""
    ensures PLAN_KEY in storage && storage[PLAN_KEY] != "" ==> plan == storage[PLAN_KEY]
    ensures PLAN_KEY !in storage || storage[PLAN_KEY] == "" ==> plan == FREE
  {
    if HasEntry(storage, PLAN_KEY) then storage[PLAN_KEY] else FREE
  }

  /** Loading from empty storage gives no token and the free plan. */
  lemma EmptyStorageLoadsFree()
    ensures StoredToken(map[]) == None && StoredPlan(map[]) == FREE
  {
  }

  /** `_getPlanAmount(plan)`, in euros: nothing for the free plan and for
      any string that names no tier. */
  function PlanAmount(plan: string): (euros: real)
    ensures euros >= 0.0
    ensures Parse(plan) == Free || Parse(plan).Unknown? <==> euros == 0.0
  {
    if plan == BASIC then 2.0
    else if plan == PLUS then 4.0
    else if plan == EXPLORER then 7.0
    else 0.0
  }

  /** The price list: 0, 2, 4 and 7 euros for free, basic, plus and
      explorer. */
  lemma PlanPrices()
    ensures PlanAmount(FREE) == 0.0 && PlanAmount(BASIC) == 2.0
    ensures PlanAmount(PLUS) == 4.0 && PlanAmount(EXPLORER) == 7.0
  {
  }

  /** Prices rise strictly along the tier order. */
  lemma PlanAmountIncreasing(a: Tier, b: Tier)
    requires Rank(a) < Rank(b)
    ensures PlanAmount(Name(a)) < PlanAmount(Name(b))
  {
  }

  /** The comparison of `hasAccessToPlan`: the active plan's index in
      `Object.values(PREMIUM_TIERS)` is at least the required plan's. */
  function Covers(active: string, required: string): (r: bool)
    ensures r <==> Rank(Parse(active)) >= Rank(Parse(required))
  {
    IndexOfTierValues(active);
    IndexOfTierValues(required);
    IndexOf(TierValues, active) >= IndexOf(TierValues, required)
  }

  /** An unrecognised required plan has index -1, so every plan covers it. */
  lemma UnknownRequiredIsCovered(active: string, required: string)
    requires required !in TierValues
    ensures Covers(active, required)
  {
    assert Parse(required).Unknown?;
  }

  /** An unrecognised active plan covers none of the four tiers. */
  lemma UnknownActiveCoversNoTier(active: string, required: Tier)
    requires active !in TierValues
    ensures !Covers(active, Name(required))
  {
    assert Parse(active).Unknown?;
    ParseName(required);
  }

  /** On the four tiers, `Covers` is a total order: reflexive, antisymmetric,
      transitive and total. */
  lemma CoversOrdersTiers(a: Tier, b: Tier, c: Tier)
    ensures Covers(Name(a), Name(a))
    ensures Covers(Name(a), Name(b)) && Covers(Name(b), Name(a)) ==> a == b
    ensures Covers(Name(a), Name(b)) && Covers(Name(b), Name(c)) ==> Covers(Name(a), Name(c))
    ensures Covers(Name(a), Name(b)) || Covers(Name(b), Name(a))
  {
    ParseName(a);
    ParseName(b);
    ParseName(c);
    RankIsInjectiveOnTiers(a, b);
  }

  /** The payment service's plan comparison and the catalog filter agree:
      a plan sees a body exactly when it covers the body's tier. */
  lemma CoversAgreesWithCatalogAccess(t: Tier, b: Planets.Body)
    requires b in Planets.Catalog
    ensures b in Planets.GetAccessiblePlanets(Some(Name(t))) <==> Covers(Name(t), Name(b.premiumTier))
  {
    ParseName(t);
    ParseName(b.premiumTier);
    Planets.AccessibleIsUpToRank(Planets.Catalog, Some(Name(t)));
    Planets.InUpToRank(Planets.Catalog, Rank(t), b);
  }

  /** What the status `fetch` of `_validateStoredToken` came to: it threw
      (network error or unreadable body, both caught), answered with a
      non-ok status, or answered with a body whose `valid` and `plan`
      fields are given (`None` for a missing plan). */
  datatype StatusReply = Threw | NotOk | Answer(valid: bool, plan: Option<string>)

  /** `JSON.parse` of a stored payment intent and the read of its `plan`:
      `Malformed` when either throws (a text that does not parse, or one
      that parses to `null`), else the `plan` field (`None` when it is
      missing or not a string). */
  datatype IntentRead = Malformed | Parsed(plan: Option<string>)

  /** The object `_simulateVerification` resolves with. */
  datatype Verification = Verification(success: bool, plan: Option<string>, token: Option<string>, message: string)

  class PaymentService {
    var token: Option<string>
    var userId: string
    var activePlan: string
    var storage: map<string, string>

    /** The in-memory entitlement is what loading from storage would give. */
    predicate Synced()
      reads this
    {
      token == StoredToken(storage) && activePlan == StoredPlan(storage)
    }

    /** `new PaymentService()` over the storage `stored`; `randomId` stands
        for the random part of a generated user id. The constructor then
        starts `_validateStoredToken`, whose reply arrives later
        (`ValidateStoredToken`); its synchronous part changes nothing. */
    constructor (stored: map<string, string>, randomId: string)
      ensures token == StoredToken(stored) && activePlan == StoredPlan(stored)
      ensures HasEntry(stored, USER_ID_KEY) ==> userId == stored[USER_ID_KEY] && storage == stored
      ensures !HasEntry(stored, USER_ID_KEY) ==>
        userId == "user_" + randomId && storage == stored[USER_ID_KEY := userId]
      ensures stored == map[] ==> token == None && activePlan == FREE
      ensures Synced()
    {
      token := StoredToken(stored);
      if HasEntry(stored, USER_ID_KEY) {
        userId := stored[USER_ID_KEY];
        storage := stored;
      } else {
        userId := "user_" + randomId;
        storage := stored[USER_ID_KEY := "user_" + randomId];
      }
      activePlan := StoredPlan(stored);
    }

    /** `_clearPaymentData()`: forget the token and the plan, in memory and
        in storage; the user id and any payment intent stay. */
    method ClearPaymentData()
      modifies this
      ensures storage == old(storage) - {TOKEN_KEY, PLAN_KEY}
      ensures USER_ID_KEY in old(storage) ==> USER_ID_KEY in storage && storage[USER_ID_KEY] == old(storage)[USER_ID_KEY]
      ensures INTENT_KEY in old(storage) ==> INTENT_KEY in storage && storage[INTENT_KEY] == old(storage)[INTENT_KEY]
      ensures token == None && activePlan == FREE && userId == old(userId)
      ensures Synced() && !HasPremiumAccess()
    {
      storage := storage - {TOKEN_KEY, PLAN_KEY};
      token := None;
      activePlan := FREE;
    }

    /** The body of `_simulateVerification`'s timer callback. `readIntent`
        is `JSON.parse` applied to the stored intent and `stamp` stands for
        the time and random part of the fake token. `None` is a callback
        that throws (an intent that does not parse): the promise never
        settles and nothing changes. */
    method SimulateVerification(readIntent: string -> IntentRead, stamp: string) returns (result: Option<Verification>)
      modifies this
      ensures var read := if HasEntry(old(storage), INTENT_KEY) then readIntent(old(storage)[INTENT_KEY]) else Parsed(None);
        if read.Malformed? then
          result == None && unchanged(this)
        else if read.plan.None? || read.plan.value == "" then
          result == Some(Verification(false, None, None, NO_PENDING_MESSAGE)) && unchanged(this)
        else
          var plan, tok := read.plan.value, "VERIFIED-" + stamp;
          && result == Some(Verification(true, Some(plan), Some(tok), VERIFIED_MESSAGE))
          && token == Some(tok) && activePlan == plan && userId == old(userId)
          && storage == old(storage)[TOKEN_KEY := tok][PLAN_KEY := plan] - {INTENT_KEY}
          && HasAccessToPlan(plan)
      ensures old(Synced()) ==> Synced()
    {
      var read := if HasEntry(storage, INTENT_KEY) then readIntent(storage[INTENT_KEY]) else Parsed(None);
      if read.Malformed? {
        return None;
      }
      if read.plan.None? || read.plan.value == "" {
        return Some(Verification(false, None, None, NO_PENDING_MESSAGE));
      }
      var plan, tok := read.plan.value, "VERIFIED-" + stamp;
      token := Some(tok);
      activePlan := plan;
      storage := storage[TOKEN_KEY := tok][PLAN_KEY := plan] - {INTENT_KEY};
      result := Some(Verification(true, Some(plan), Some(tok), VERIFIED_MESSAGE));
    }

    /** `_validateStoredToken()`, once the status reply is in. The result
        is `None` for the early `return` (undefined), else the boolean the
        source returns. */
    method ValidateStoredToken(reply: StatusReply) returns (result: Option<bool>)
      modifies this
      ensures old(token).None? || old(token).value == "" ==> result == None && unchanged(this)
      ensures old(token).Some? && old(token).value != "" ==>
        match reply
        case Threw =>
          result == Some(false) && unchanged(this)
        case NotOk =>
          && result == Some(false) && token == None && activePlan == FREE
          && storage == old(storage) - {TOKEN_KEY, PLAN_KEY} && userId == old(userId)
        case Answer(valid, plan) =>
          if valid && plan.Some? && plan.value != "" then
            && result == Some(true) && activePlan == plan.value && token == old(token)
            && storage == old(storage)[PLAN_KEY := plan.value] && userId == old(userId)
          else
            && result == Some(false) && token == None && activePlan == FREE
            && storage == old(storage) - {TOKEN_KEY, PLAN_KEY} && userId == old(userId)
      ensures old(Synced()) ==> Synced()
    {
      if token.None? || token.value == "" {
        return None;
      }
      match reply {
        case Threw =>
          result := Some(false);
        case NotOk =>
          ClearPaymentData();
          result := Some(false);
        case Answer(valid, plan) =>
          if valid && plan.Some? && plan.value != "" {
            activePlan := plan.value;
            storage := storage[PLAN_KEY := plan.value];
            result := Some(true);
          } else {
            ClearPaymentData();
            result := Some(false);
          }
      }
    }

    /** `hasPremiumAccess()`: any plan but free, an unrecognised one included. */
    function HasPremiumAccess(): (r: bool)
      reads this
      ensures r <==> Parse(activePlan) != Free
    {
      activePlan != FREE
    }

    /** `hasAccessToPlan(requiredPlan)`. */
    function HasAccessToPlan(requiredPlan: string): (r: bool)
      reads this
      ensures r <==> Rank(Parse(activePlan)) >= Rank(Parse(requiredPlan))
    {
      Covers(activePlan, requiredPlan)
    }
  }

  /** On a recognised plan, premium access is access to the basic plan; an
      unrecognised stored plan has premium access yet covers no tier above
      free, nor free itself. */
  lemma PremiumAccessIsBasicAccess(s: PaymentService)
    ensures s.activePlan in TierValues ==> (s.HasPremiumAccess() <==> s.HasAccessToPlan(BASIC))
    ensures s.activePlan !in TierValues ==> s.HasPremiumAccess() && !s.HasAccessToPlan(FREE)
  {
    assert s.activePlan !in TierValues ==> Parse(s.activePlan).Unknown?;
  }
}
