# Gravitas: planet weights and premium access, in Dafny

Gravitas shows what a person would weigh on other bodies of the solar
system and beyond. The client has a catalog of 22 bodies, each with a
gravity relative to Earth's and a premium tier: free, basic, plus or
explorer. It computes a weight for every body, rounded to one decimal, and
shows only the bodies the user's plan opens. A small payment service keeps
the plan, a session token and a user id in the browser's storage. Any plan
other than free counts as premium access. Access to a given plan compares
the two plans' positions in the tier list.
The server has its own handler. It validates an Earth weight and answers
with eight weights written with two decimals.

This project models those pieces and proves what they promise.

- `results.dfy`: `Option` and `Result`.
- `decimal.dfy`: `Number.prototype.toFixed` over exact reals. It covers the
  rounding (`Rounded`), the written text (`FixedText`) and a reader of such
  texts (`TextValue`). The reader is there to state the round trip:
  reading the text back gives the rounded number.
- `tiers.dfy`: the plan names of `PREMIUM_TIERS` and their order. A plan
  string is read into `Free | Basic | Plus | Explorer | Unknown(name)`.
  `Rank` is the position `indexOf` gives, and an unrecognised string has
  rank -1.
- `planets.js`'s catalog, `calculatePlanetWeight` and
  `getAccessiblePlanets` are in `planets.dfy`. The tier switch is proved
  equal to a reference definition of access by rank (`UpToRank`).
- `payment.dfy` is `PaymentService` as a class. Its fields are the token,
  the user id, the active plan and the storage, a `map` standing for
  `localStorage`. Each method that changes state states the whole new
  state. Each also keeps `Synced`: the fields in memory equal what loading
  from storage would give.
- `controller.dfy` is the server's `calculatePlanetWeight(req, res)` as a
  function from the request to its response. Lemmas relate it to the
  client: the gravities agree with the catalog, and the two validations
  differ only for negative weights.

## Model

| member | source | states |
|---|---|---|
| Tiers.Parse | frontend/src/utils/planets.js:9-14 | reading a plan string gives a canonical plan whose name is that same string |
| Tiers.ParseName | frontend/src/utils/planets.js:9-14 | writing a canonical plan as its name and reading it back gives the plan |
| Tiers.IndexOf | frontend/src/utils/paymentService.js:299-301 | `indexOf`: -1 exactly when absent; otherwise the first position holding the value |
| Tiers.IndexOfTierValues | frontend/src/utils/paymentService.js:299-301 | the index of a string in `Object.values(PREMIUM_TIERS)` is the rank of the plan it names, -1 for any other string |
| Tiers.RankIsInjectiveOnTiers | frontend/src/utils/planets.js:9-14 | the four tiers have distinct ranks between 0 and 3 |
| Decimal.Rounded | frontend/src/utils/planets.js:380 | `parseFloat(x.toFixed(p))` keeps the sign of `x` |
| Decimal.RoundedNear | frontend/src/utils/planets.js:380 | the rounded value is within half a unit of the last place of `x` |
| Decimal.RoundedMonotone | frontend/src/utils/planets.js:380 | rounding never reverses the order of two numbers |
| Decimal.RoundedOnGrid | frontend/src/utils/planets.js:380 | the rounded value is a whole number of units of the `p`-th decimal place |
| Decimal.RoundedTie | backend/controllers/planetWeightController.js:33 | a value exactly halfway between two candidates rounds away from zero, for either sign |
| Decimal.RoundedExact | frontend/src/utils/planets.js:380 | a number that already has `p` decimals is left unchanged |
| Decimal.FixedText | backend/controllers/planetWeightController.js:33 | `x.toFixed(p)` is a non-empty text |
| Decimal.ParseFixedText | backend/controllers/planetWeightController.js:33 | reading the text of `x.toFixed(p)` gives exactly `x` rounded to `p` decimals |
| Decimal.FixedTextParts | backend/controllers/planetWeightController.js:33 | the text is a sign followed by digits that read back as the rounded magnitude over `10^p` |
| Decimal.NatTextValue | backend/controllers/planetWeightController.js:33 | the digits written for a whole number read back as that number |
| Decimal.PaddedTextValue | backend/controllers/planetWeightController.js:33 | the zero-padded fraction digits read back as the last `p` digits of the scaled number |
| Planets.CatalogGravityPositive | frontend/src/utils/planets.js:29-367 | every catalog body has a positive gravity |
| Planets.CatalogSections | frontend/src/utils/planets.js:29-367 | the catalog lists its free, basic, plus and explorer bodies as consecutive groups, in tier order |
| Planets.WeightOn | frontend/src/utils/planets.js:380 | a non-negative weight on a non-negative gravity is shown non-negative, and every shown weight has at most one decimal |
| Planets.WeightOnNear | frontend/src/utils/planets.js:380 | the shown weight is the product rounded to one decimal, within 0.05 of it |
| Planets.WeighAll | frontend/src/utils/planets.js:375-383 | the map keeps every body in place and gives body `i` the weight of its own gravity |
| Planets.CalculatePlanetWeight | frontend/src/utils/planets.js:370-384 | throws exactly for NaN or a weight at most 0, with its message; otherwise one entry per catalog body, in catalog order |
| Planets.WeightIsRoundedProduct | frontend/src/utils/planets.js:380 | each weight is the exact product rounded to one decimal, within 0.05 of it |
| Planets.WeighedNear | frontend/src/utils/planets.js:375-383 | in any mapped list, body `i` gets its own product rounded to one decimal, within 0.05 of it |
| Planets.WeightMonotone | frontend/src/utils/planets.js:380 | a heavier Earth weight is never shown lighter on any body |
| Planets.SeventyOnMarsAndJupiter | frontend/src/utils/planets.js:375-383 | 70 gives 26.6 on Mars and 163.8 on Jupiter |
| Planets.KeepTiers | frontend/src/utils/planets.js:392-404 | the filter keeps exactly the bodies whose tier is allowed, and no more than it was given |
| Planets.AccessibleIn | frontend/src/utils/planets.js:387-405 | the switch returns no more bodies than it is given, and a body is returned exactly when it is given and its tier ranks at or below the tier the subscription resolves to |
| Planets.GetAccessiblePlanets | frontend/src/utils/planets.js:387-405 | over the catalog, the result is the reference access list for the subscription's rank: the catalog bodies of that rank or below, in catalog order |
| Planets.EffectiveTierDecidesAccess | frontend/src/utils/planets.js:387-405 | a subscription sees what the tier it resolves to sees; an omitted or unrecognised one sees what free sees |
| Planets.InUpToRank | frontend/src/utils/planets.js:387-405 | a body is in the reference access list exactly when it is given and its tier ranks at most the limit |
| Planets.AccessibleIsUpToRank | frontend/src/utils/planets.js:387-405 | the tier switch gives exactly the bodies whose tier ranks at or below the subscription's, in order |
| Planets.ExplorerSeesAll | frontend/src/utils/planets.js:389-390 | the explorer plan sees the whole catalog, unchanged |
| Planets.AccessIsNested | frontend/src/utils/planets.js:387-405 | a higher plan sees everything a lower one sees, in the same order |
| Planets.AccessiblePrefixes | frontend/src/utils/planets.js:387-405 | free and unrecognised plans see the first 8 bodies, basic the first 11, plus the first 16, explorer all 22 |
| Payment.StoredToken | frontend/src/utils/paymentService.js:18 | the loaded token is the stored one; a missing or empty entry loads none, so the token is never empty |
| Payment.StoredPlan | frontend/src/utils/paymentService.js:20 | the loaded plan is the stored one when there is a non-empty one, and free otherwise; it is never empty |
| Payment.EmptyStorageLoadsFree | frontend/src/utils/paymentService.js:18-20 | empty storage loads no token and the free plan |
| Payment.PlanAmount | frontend/src/utils/paymentService.js:132-143 | the price is never negative, and it is zero exactly for the free plan and for strings that name no tier |
| Payment.PlanPrices | frontend/src/utils/paymentService.js:132-143 | the prices are 0, 2, 4 and 7 euros for free, basic, plus and explorer |
| Payment.PlanAmountIncreasing | frontend/src/utils/paymentService.js:132-143 | prices rise strictly along the tier order |
| Payment.Covers | frontend/src/utils/paymentService.js:298-305 | the index comparison holds exactly when the active plan's rank is at least the required plan's |
| Payment.UnknownRequiredIsCovered | frontend/src/utils/paymentService.js:298-305 | every plan, unrecognised ones included, covers a required string that names no tier |
| Payment.UnknownActiveCoversNoTier | frontend/src/utils/paymentService.js:298-305 | an unrecognised active plan covers none of the four tiers |
| Payment.CoversOrdersTiers | frontend/src/utils/paymentService.js:298-305 | on the four tiers the comparison is a total order |
| Payment.CoversAgreesWithCatalogAccess | frontend/src/utils/paymentService.js:298-305 | a plan sees a catalog body exactly when it covers the body's tier, so the service and the catalog filter agree |
| Payment.PaymentService.constructor | frontend/src/utils/paymentService.js:16-34 | loads token and plan from storage, with free for a missing plan; keeps a stored user id or generates and stores `user_…`; the service starts synced |
| Payment.PaymentService.ClearPaymentData | frontend/src/utils/paymentService.js:78-83 | removes exactly the token and plan entries and resets the fields; nothing else in storage changes, and premium access is gone |
| Payment.PaymentService.SimulateVerification | frontend/src/utils/paymentService.js:240-275 | with no pending plan it reports failure and changes nothing; otherwise it stores the `VERIFIED-` token and the plan, drops the intent, grants that plan and keeps the service synced |
| Payment.PaymentService.ValidateStoredToken | frontend/src/utils/paymentService.js:39-73 | returns early without a token; a thrown fetch leaves everything as it was; a non-ok or invalid reply clears the payment data; a valid reply with a plan stores that plan; each case keeps the service synced |
| Payment.PaymentService.HasPremiumAccess | frontend/src/utils/paymentService.js:289-291 | premium access is any plan other than free, unrecognised plans included |
| Payment.PaymentService.HasAccessToPlan | frontend/src/utils/paymentService.js:298-305 | access holds exactly when the active plan's rank is at least the required plan's |
| Payment.PremiumAccessIsBasicAccess | frontend/src/utils/paymentService.js:289-305 | on a recognised plan premium access equals access to basic; an unrecognised plan has premium access but not even access to free |
| WeightController.Status | backend/controllers/planetWeightController.js:13-45 | the handler answers with 200, 400 or 500 |
| WeightController.EntryFor | backend/controllers/planetWeightController.js:31-34 | an entry names its row's planet, and its weight text reads back as the product rounded to two decimals |
| WeightController.WeighEntries | backend/controllers/planetWeightController.js:31-34 | one entry per table row, in order, with that row's planet and its weight text |
| WeightController.EntryWeightIsRounded | backend/controllers/planetWeightController.js:33 | an entry's weight text reads back as the product rounded to two decimals, within 0.005 of it |
| WeightController.CentsText | backend/controllers/planetWeightController.js:33 | `x.toFixed(2)` reads back as `x` rounded to cents, within 0.005 |
| WeightController.WholeCentsText | backend/controllers/planetWeightController.js:33 | a whole number of cents is written as its units, a point and its last two digits |
| WeightController.CalculatePlanetWeight | backend/controllers/planetWeightController.js:2-47 | 500 exactly when there is no body (with Node's message) or converting the value throws (with the thrown message); 400 with the value received exactly for NaN or zero; otherwise eight entries |
| WeightController.SuccessfulReply | backend/controllers/planetWeightController.js:31-39 | a success has status 200, names the table's planets in order, and is built from the parsed weight |
| WeightController.PlanetsOfEntries | backend/controllers/planetWeightController.js:31-34 | the entries name the table's planets in the table's order |
| WeightController.ServerTableNames | backend/controllers/planetWeightController.js:20-29 | the table lists Mercury, Venus, Mars, Jupiter, Saturn, Uranus, Neptune and Pluto in that order, and not Earth |
| WeightController.GravitiesMatchCatalog | backend/controllers/planetWeightController.js:20-29 | each server gravity equals the client catalog's gravity for the first body of that name |
| WeightController.ValidationDifference | backend/controllers/planetWeightController.js:8-11 | when the conversion does not throw, whatever the server refuses with a 400 the client refuses too, and the client refuses something the server accepts exactly when the weight is negative |
| WeightController.SeventyOnMars | backend/controllers/planetWeightController.js:20-34 | the third table row is Mars, and 70 times its gravity is written "26.60" |
| WeightController.SeventyOnJupiter | backend/controllers/planetWeightController.js:20-34 | the fourth table row is Jupiter, and 70 times its gravity is written "163.80" |

## Left out

- The user interface, the NASA image lookup, the API client, the sitemap
  script, the Express server and its routes are not part of this model.
  The model keeps the computations these call and leaves out what they draw
  or send.
- Numbers are exact reals, not IEEE doubles. A product whose binary value
  sits just below a rounding half may print differently in JavaScript.
  `toFixed` of a magnitude of 1e21 or more (exponential form) and of
  Infinity is not modelled.
- Decimal.FixedText: its own contract states only that the text is not
  empty. What the text denotes is stated by `ParseFixedText`. Its exact
  shape (no leading zeros, exactly `p` fraction digits) is not stated
  separately.
- `PLANET_ACCESS_TIERS` is not modelled. Nothing in the core reads it, and
  it tags bodies differently from the catalog's `premiumTier`.
- Catalog bodies keep `id`, `name`, `gravitationalForce` and `premiumTier`.
  Mass, diameter, distance, day and year length, colour, description,
  image and fun fact are display data and are left out.
- Planets.CalculatePlanetWeight takes the argument's numeric value, with
  `None` for NaN. JavaScript's coercion of a string argument by `isNaN` and
  `<=` happens before that value and is not modelled. The copied body
  objects (`{ ...planet }`) are values here.
- Planets.GetAccessiblePlanets returns values. The sharing between the
  explorer result and the catalog array (the same array, not a copy) is
  not modelled.
- `initiatePayment`, `_simulatePaymentFlow` and the production branch of
  `verifyPayment` are left out. They build URLs and call payment gateways.
  The one piece of them the modelled code reads is the stored payment
  intent's `plan`, which is an input of `SimulateVerification`.
- `getActivePlan` is a field read (`activePlan`) and has no member of its
  own.
- `_generateUserId`'s random string is the constructor's `randomId`
  parameter. The timer delay, `Date.now()` and `Math.random()` of the fake
  token are the `stamp` parameter. Node's and the browser's console
  logging is left out.
- The constructor starts `_validateStoredToken` without waiting for it.
  The model has the reply arrive as a later `ValidateStoredToken` call.
  Interleavings with other calls while the request is pending are not
  modelled.
- `fetch` and `response.json()` are the `StatusReply` parameter. A rejected
  request and an unreadable body both arrive as `Threw`. `data.valid` is a
  boolean, and `data.plan` is a string or missing. A truthy plan that is
  not a string is not modelled, in either `ValidateStoredToken` or
  `SimulateVerification`.
- `localStorage` holds strings only. It is the `storage` map, and a
  missing key and an empty value read the same (both falsy).
- WeightController.CalculatePlanetWeight takes `parseFloat` as a
  parameter, because its treatment of text such as "70kg" is JavaScript's
  own. The parameter returns the parsed number or the message of the error
  the string conversion throws (an object from the JSON body whose
  `toString` is not a function). A missing `req.body` and a thrown
  conversion both give a 500, the first with Node's `TypeError` message.
  Which values make the conversion throw is the parameter's business. The
  JSON encoding of the response (an undefined `receivedValue` is dropped)
  is not modelled.
- Where the documented design and the code disagree, the model follows the
  code:
  - The design calls a negative weight invalid everywhere. The server's
    check (`!earthWeight || isNaN(earthWeight)`) accepts it
    (`ValidationDifference`).
  - The design has the server answer with numeric weights under `name`.
    The code answers with `toFixed(2)` strings under `planet`.
  - The design falls back to free for an unrecognised tier. The catalog
    filter does so. The payment service instead counts one as premium
    access that covers no tier (`PremiumAccessIsBasicAccess`).
  - The design says no transition lowers the tier automatically. The
    service's `_validateStoredToken` drops the plan to free when the
    server's reply is not ok or not valid (`ValidateStoredToken`).
