/** The backend's weight calculation handler
    (backend/controllers/planetWeightController.js): input validation, a
    fixed table of eight gravities and the JSON response. The handler keeps
    no state, so it is a function of its input. */
module WeightController {
  import opened Results
  import Decimal
  import Planets

  /** One element of the success body: `{ planet, weight }`, the weight as
      the string `toFixed(2)` writes. */
  datatype Entry = Entry(planet: string, weight: string)

  /** The response the handler sends, by status: 200 with the entries,
      400 with the error and the value received, 500 with the error and the
      thrown error's message. */
  datatype Response<R> =
    | Calculated(entries: seq<Entry>)
    | BadRequest(error: string, receivedValue: R)
    | ServerError(error: string, details: string)

  function Status<R>(r: Response<R>): (code: nat)
    ensures code == 200 || code == 400 || code == 500
  {
    match r
    case Calculated(_) => 200
    case BadRequest(_, _) => 400
    case ServerError(_, _) => 500
  }

  const INVALID_INPUT: string := "Invalid weight input"
  const INTERNAL_ERROR: string := "Internal server error"

  /** The message of the `TypeError` that reading `req.body.earthWeight`
      throws when the request has no parsed body (Node's wording). */
  const NO_BODY_MESSAGE: string := "Cannot read properties of undefined (reading 'earthWeight')"

  /** `planetGravities`, in insertion order (the order of `Object.entries`). */
  const PlanetGravities: seq<(string, real)> := [
    ("Mercury", 0.38),
    ("Venus", 0.91),
    ("Mars", 0.38),
    ("Jupiter", 2.34),
    ("Saturn", 1.06),
    ("Uranus", 0.92),
    ("Neptune", 1.19),
    ("Pluto", 0.06)
  ]

  /** The exact weight on a body: `earthWeight * gravity`. */
  function Weight(earthWeight: real, gravity: real): real {
    earthWeight * gravity
  }

  /** The element the handler writes for one table entry: the row's planet
      and a weight string that reads back as the product rounded to cents. */
  function EntryFor(gravity: (string, real), earthWeight: real): (e: Entry)
    ensures e.planet == gravity.0
    ensures Decimal.TextValue(e.weight) == Some(Decimal.Rounded(Weight(earthWeight, gravity.1), 2))
  {
    CentsText(Weight(earthWeight, gravity.1));
    Entry(gravity.0, Decimal.FixedText(Weight(earthWeight, gravity.1), 2))
  }

  /** `Object.entries(gravities).map(([planet, gravity]) => ...)`: one
      element per entry, in order. */
  function WeighEntries(gravities: seq<(string, real)>, earthWeight: real): (r: seq<Entry>)
    ensures |r| == |gravities|
    ensures forall i :: 0 <= i < |r| ==> r[i] == EntryFor(gravities[i], earthWeight)
  {
    if gravities == [] then []
    else [EntryFor(gravities[0], earthWeight)] + WeighEntries(gravities[1..], earthWeight)
  }

  /** Each written weight reads back as the exact product rounded to two
      decimals, within 0.005 of it. */
  lemma EntryWeightIsRounded(gravity: (string, real), earthWeight: real)
    ensures var x := Weight(earthWeight, gravity.1);
      && EntryFor(gravity, earthWeight).planet == gravity.0
      && Decimal.TextValue(EntryFor(gravity, earthWeight).weight) == Some(Decimal.Rounded(x, 2))
      && -0.005 <= Decimal.Rounded(x, 2) - x <= 0.005
  {
    CentsText(Weight(earthWeight, gravity.1));
  }

  /** `x.toFixed(2)` reads back as `x` rounded to cents, within 0.005. */
  lemma CentsText(x: real)
    ensures Decimal.TextValue(Decimal.FixedText(x, 2)) == Some(Decimal.Rounded(x, 2))
    ensures -0.005 <= Decimal.Rounded(x, 2) - x <= 0.005
  {
    Decimal.ParseFixedText(x, 2);
    Decimal.RoundedNear(x, 2);
    assert Decimal.Pow10(2) == 100;
  }

  /** `calculatePlanetWeight(req, res)`. `earthWeight` is the value of
      `req.body.earthWeight`, `None` when `req.body` is undefined (reading
      it throws). `parseFloat` gives the number of a value, `None` for NaN,
      or the message of the error its string conversion throws (an object
      whose `toString` is not callable). Validation is
      `!earthWeight || isNaN(earthWeight)`: NaN and zero are refused, a
      negative weight is accepted. Every throw lands in the `catch`. */
  function CalculatePlanetWeight<R>(earthWeight: Option<R>, parseFloat: R -> Result<Option<real>, string>): (r: Response<R>)
    ensures r.ServerError? <==> earthWeight.None? || parseFloat(earthWeight.value).Err?
    ensures earthWeight.None? ==> r == ServerError(INTERNAL_ERROR, NO_BODY_MESSAGE)
    ensures earthWeight.Some? && parseFloat(earthWeight.value).Err? ==>
      r == ServerError(INTERNAL_ERROR, parseFloat(earthWeight.value).error)
    ensures r.BadRequest? <==>
      earthWeight.Some? && parseFloat(earthWeight.value).Ok? &&
      (parseFloat(earthWeight.value).value.None? || parseFloat(earthWeight.value).value.value == 0.0)
    ensures r.BadRequest? ==> r.error == INVALID_INPUT && r.receivedValue == earthWeight.value
    ensures r.Calculated? ==> |r.entries| == 8
  {
    if earthWeight.None? then ServerError(INTERNAL_ERROR, NO_BODY_MESSAGE)
    else
      match parseFloat(earthWeight.value)
      case Err(message) => ServerError(INTERNAL_ERROR, message)
      case Ok(parsed) =>
        if parsed.None? || parsed.value == 0.0 then BadRequest(INVALID_INPUT, earthWeight.value)
        else Calculated(WeighEntries(PlanetGravities, parsed.value))
  }

  /** A successful reply has one entry per table row, in the table's order,
      each carrying the weight of that row's gravity. */
  lemma SuccessfulReply<R>(earthWeight: R, parseFloat: R -> Result<Option<real>, string>)
    requires parseFloat(earthWeight).Ok? && parseFloat(earthWeight).value.Some?
    requires parseFloat(earthWeight).value.value != 0.0
    ensures var r := CalculatePlanetWeight(Some(earthWeight), parseFloat);
      && r.Calculated? && Status(r) == 200
      && PlanetNames(r.entries) == Names(PlanetGravities)
      && (forall k :: 0 <= k < 8 ==> r.entries[k] == EntryFor(PlanetGravities[k], parseFloat(earthWeight).value.value))
  {
    var r := CalculatePlanetWeight(Some(earthWeight), parseFloat);
    PlanetsOfEntries(PlanetGravities, parseFloat(earthWeight).value.value);
  }

  /** The planet names of a list of entries. */
  function PlanetNames(entries: seq<Entry>): (names: seq<string>)
    ensures |names| == |entries|
    ensures forall i :: 0 <= i < |entries| ==> names[i] == entries[i].planet
  {
    seq(|entries|, i requires 0 <= i < |entries| => entries[i].planet)
  }

  /** The names of a table, in order. */
  function Names(gravities: seq<(string, real)>): (names: seq<string>)
    ensures |names| == |gravities|
    ensures forall i :: 0 <= i < |gravities| ==> names[i] == gravities[i].0
  {
    seq(|gravities|, i requires 0 <= i < |gravities| => gravities[i].0)
  }

  /** The entries name the planets of the table, in the table's order. */
  lemma PlanetsOfEntries(gravities: seq<(string, real)>, earthWeight: real)
    ensures PlanetNames(WeighEntries(gravities, earthWeight)) == Names(gravities)
  {
  }

  /** The table lists Mercury, Venus, Mars, Jupiter, Saturn, Uranus, Neptune
      and Pluto, in that order: Earth has no entry of its own. */
  lemma ServerTableNames()
    ensures Names(PlanetGravities) == ["Mercury", "Venus", "Mars", "Jupiter", "Saturn", "Uranus", "Neptune", "Pluto"]
    ensures "Earth" !in Names(PlanetGravities)
  {
    var names := Names(PlanetGravities);
    assert names[0] == "Mercury" && names[1] == "Venus" && names[2] == "Mars" && names[3] == "Jupiter";
    assert names[4] == "Saturn" && names[5] == "Uranus" && names[6] == "Neptune" && names[7] == "Pluto";
  }

  /** Where each table row's planet sits in the client catalog. */
  const CatalogIndex: seq<nat> := [0, 1, 3, 4, 5, 6, 7, 8]

  /** The handler's gravity for each name is the client catalog's
      `gravitationalForce` for the first body of that name. */
  lemma GravitiesMatchCatalog(k: nat)
    requires k < |PlanetGravities|
    ensures var i := CatalogIndex[k];
      && i < |Planets.Catalog|
      && Planets.Catalog[i].name == PlanetGravities[k].0
      && Planets.Catalog[i].gravitationalForce == PlanetGravities[k].1
      && forall j :: 0 <= j < i ==> Planets.Catalog[j].name != PlanetGravities[k].0
  {
    var free := Planets.FreeBodies;
    assert Planets.Catalog[..8] == free;
    if k == 7 {
      assert Planets.Catalog[8] == Planets.BasicBodies[0];
    }
  }

  /** The server's check lets through what the client's refuses exactly
      for negative weights: both refuse NaN and zero, both accept a
      positive weight, and only the server accepts a negative one. The
      client is given the number the server's conversion produced. */
  lemma ValidationDifference<R>(earthWeight: R, parseFloat: R -> Result<Option<real>, string>)
    ensures parseFloat(earthWeight).Ok? ==>
      var n := parseFloat(earthWeight).value;
      var server := CalculatePlanetWeight(Some(earthWeight), parseFloat);
      var client := Planets.CalculatePlanetWeight(n);
      && (server.BadRequest? ==> client.Err?)
      && (client.Err? && !server.BadRequest? <==> n.Some? && n.value < 0.0)
  {
  }

  /** A non-negative weight that is a whole number `m` of cents is written
      as `m / 100`, a point and the last two digits of `m`. */
  lemma WholeCentsText(x: real, m: nat)
    requires x >= 0.0 && x * 100.0 == m as real
    ensures Decimal.FixedText(x, 2) == Decimal.NatText(Decimal.DropDigits(m, 2)) + "." + Decimal.PaddedText(m, 2)
  {
    assert Decimal.Pow10(2) == 100;
    assert Decimal.ScaledMagnitude(x, 2) == m;
  }

  /** 70 gives "26.60" on Mars: the third row is Mars and its weight is
      written as "26.60". */
  lemma SeventyOnMars()
    ensures var row := PlanetGravities[2];
      row.0 == "Mars" && Decimal.FixedText(Weight(70.0, row.1), 2) == "26.60"
  {
    assert Weight(70.0, 0.38) == 26.6;
    CentsOfWhole(26.6, 2660, 26, "26", "60");
  }

  /** 70 gives "163.80" on Jupiter: the fourth row is Jupiter and its
      weight is written as "163.80". */
  lemma SeventyOnJupiter()
    ensures var row := PlanetGravities[3];
      row.0 == "Jupiter" && Decimal.FixedText(Weight(70.0, row.1), 2) == "163.80"
  {
    assert Weight(70.0, 2.34) == 163.8;
    CentsOfWhole(163.8, 16380, 163, "163", "80");
  }

  /** A non-negative weight of `m` cents is written as the digits of its
      units, a point and its two cent digits. */
  lemma CentsOfWhole(x: real, m: nat, units: nat, unitsText: string, centsText: string)
    requires x >= 0.0 && x * 100.0 == m as real
    requires units == m / 10 / 10 && unitsText == Decimal.NatText(units)
    requires centsText == [Decimal.DigitChar(m / 10 % 10), Decimal.DigitChar(m % 10)]
    ensures Decimal.FixedText(x, 2) == unitsText + "." + centsText
  {
    WholeCentsText(x, m);
    DigitsOf(m, units, unitsText, centsText);
  }

  /** The two parts `WholeCentsText` writes, for a given number of cents. */
  lemma DigitsOf(m: nat, units: nat, unitsText: string, centsText: string)
    requires units == m / 10 / 10 && unitsText == Decimal.NatText(units)
    requires centsText == [Decimal.DigitChar(m / 10 % 10), Decimal.DigitChar(m % 10)]
    ensures Decimal.NatText(Decimal.DropDigits(m, 2)) == unitsText
    ensures Decimal.PaddedText(m, 2) == centsText
  {
    assert Decimal.DropDigits(m / 10, 1) == units;
    assert Decimal.PaddedText(m / 10, 1) == [Decimal.DigitChar(m / 10 % 10)];
  }
}
