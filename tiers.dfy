/** The subscription plans of `PREMIUM_TIERS`: four names in a fixed order,
    free < basic < plus < explorer. The client keeps a plan as a plain
    string, so the model also has a case for any other string. */
module Tiers {

  const FREE: string := "free"
  const BASIC: string := "basic"
  const PLUS: string := "plus"
  const EXPLORER: string := "explorer"

  /** `Object.values(PREMIUM_TIERS)`, in declaration order. */
  const TierValues: seq<string> := [FREE, BASIC, PLUS, EXPLORER]

  /** A plan string read into a value: one of the four tiers, or an
      unrecognised string carried as it is. */
  datatype Plan = Free | Basic | Plus | Explorer | Unknown(name: string)

  /** The tiers a catalog body can be tagged with. */
  type Tier = p: Plan | !p.Unknown? witness Free

  /** The plan `Parse` gives: an unrecognised string is never a tier name. */
  predicate Canonical(p: Plan) {
    p.Unknown? ==> p.name !in TierValues
  }

  /** The string the client stores for a plan. */
  function Name(p: Plan): string {
    match p
    case Free => FREE
    case Basic => BASIC
    case Plus => PLUS
    case Explorer => EXPLORER
    case Unknown(s) => s
  }

  /** Reading a plan string; the string comes back unchanged. */
  function Parse(s: string): (p: Plan)
    ensures Canonical(p) && Name(p) == s
  {
    if s == FREE then Free
    else if s == BASIC then Basic
    else if s == PLUS then Plus
    else if s == EXPLORER then Explorer
    else Unknown(s)
  }

  /** Writing a canonical plan and reading it back loses nothing. */
  lemma ParseName(p: Plan)
    requires Canonical(p)
    ensures Parse(Name(p)) == p
  {
  }

  /** The position of a plan in `TierValues`, -1 for an unrecognised one. */
  function Rank(p: Plan): int {
    match p
    case Free => 0
    case Basic => 1
    case Plus => 2
    case Explorer => 3
    case Unknown(_) => -1
  }

  /** `xs.indexOf(x)`: the first position of `x` in `xs`, or -1. */
  function IndexOf(xs: seq<string>, x: string): (i: int)
    ensures -1 <= i < |xs|
    ensures i == -1 <==> x !in xs
    ensures 0 <= i ==> xs[i] == x && forall j :: 0 <= j < i ==> xs[j] != x
  {
    if xs == [] then -1
    else if xs[0] == x then 0
    else
      var k := IndexOf(xs[1..], x);
      if k == -1 then -1 else k + 1
  }

  /** `TierValues.indexOf(s)` is the rank of the plan `s` names. */
  lemma IndexOfTierValues(s: string)
    ensures IndexOf(TierValues, s) == Rank(Parse(s))
  {
    var i := IndexOf(TierValues, s);
    if 0 <= i {
      assert TierValues[i] == s;
    } else {
      assert s !in TierValues;
    }
  }

  /** Rank orders the four tiers strictly and tells them apart. */
  lemma RankIsInjectiveOnTiers(a: Tier, b: Tier)
    ensures 0 <= Rank(a) <= 3
    ensures Rank(a) == Rank(b) <==> a == b
  {
  }
}
