/** The idle economy of `games/ClickerHero.tsx`: clicks add data, every
    100 ms tick adds a tenth of the data-per-second rate, and buying an
    upgrade spends its cost, raises the rate by the upgrade's own rate,
    and scales that upgrade's cost by 1.15 (rounded down). */
module ClickerHero {
  import opened Wrappers

  datatype Upgrade = Upgrade(id: int, name: string, cost: nat, dps: nat, count: nat)

  const CATALOG: seq<Upgrade> := [
    Upgrade(1, "Cache Buffer", 15, 1, 0),
    Upgrade(2, "Node Processor", 100, 5, 0),
    Upgrade(3, "Server Rack", 500, 20, 0),
    Upgrade(4, "Quantum Core", 2000, 100, 0)
  ]

  const CLICK_POWER: nat := 1

  /** `Math.floor(cost * 1.15)` in double precision: never below the old
      cost and never above the exact `cost * 115 / 100`. */
  predicate ScaledCost(cost: nat, scaled: nat)
  {
    cost <= scaled && 100 * scaled <= 115 * cost
  }

  /** `upgrades.find(u => u.id === id)`, as the index of the first match. */
  function FindIndex(ups: seq<Upgrade>, id: int): (r: Option<nat>)
    ensures r.Some? ==> r.value < |ups| && ups[r.value].id == id &&
                        forall j :: 0 <= j < r.value ==> ups[j].id != id
    ensures r.None? <==> forall j :: 0 <= j < |ups| ==> ups[j].id != id
  {
    if ups == [] then None
    else if ups[0].id == id then Some(0)
    else match FindIndex(ups[1..], id)
      case None => None
      case Some(k) => Some(k + 1)
  }

  /** The `map` of a purchase: each upgrade with the bought id counts one
      more and costs `scaled`. */
  function Purchased(ups: seq<Upgrade>, id: int, scaled: nat): seq<Upgrade>
  {
    seq(|ups|, j requires 0 <= j < |ups| =>
      if ups[j].id == id then ups[j].(count := ups[j].count + 1, cost := scaled) else ups[j])
  }

  /** The rate the owned upgrades add up to. */
  function TotalRate(ups: seq<Upgrade>): nat
  {
    if ups == [] then 0 else ups[0].count * ups[0].dps + TotalRate(ups[1..])
  }

  predicate UniqueIds(ups: seq<Upgrade>)
  {
    forall i, j :: 0 <= i < j < |ups| ==> ups[i].id != ups[j].id
  }

  /** The upgrade list keeps the catalogue's entries in order: same ids,
      names and rates, a cost at least the catalogue's. */
  predicate FromCatalog(ups: seq<Upgrade>)
  {
    && |ups| == |CATALOG|
    && forall j :: 0 <= j < |ups| ==>
         ups[j].id == CATALOG[j].id && ups[j].name == CATALOG[j].name &&
         ups[j].dps == CATALOG[j].dps && ups[j].cost >= CATALOG[j].cost
  }

  /** A purchase makes a one-entry change; with unique ids it is exactly
      the bought entry updated. */
  lemma {:induction false} PurchasedIsOneUpdate(ups: seq<Upgrade>, i: nat, scaled: nat)
    requires UniqueIds(ups) && i < |ups|
    ensures Purchased(ups, ups[i].id, scaled) ==
      ups[i := ups[i].(count := ups[i].count + 1, cost := scaled)]
  {
  }

  /** Buying one more of an upgrade raises the total rate by its rate. */
  lemma {:induction false} TotalRateUpdate(ups: seq<Upgrade>, i: nat, u: Upgrade)
    requires i < |ups|
    ensures TotalRate(ups[i := u]) == TotalRate(ups) - ups[i].count * ups[i].dps + u.count * u.dps
  {
    if i > 0 {
      assert ups[i := u][1..] == ups[1..][i - 1 := u];
      TotalRateUpdate(ups[1..], i - 1, u);
    }
  }

  lemma CatalogFacts()
    ensures FromCatalog(CATALOG) && UniqueIds(CATALOG) && TotalRate(CATALOG) == 0
  {
  }

  /** The purchase guard: the id is in the list and data covers its cost. */
  predicate Affordable(ups: seq<Upgrade>, id: int, data: real)
  {
    FindIndex(ups, id).Some? && data >= ups[FindIndex(ups, id).value].cost as real
  }

  /** The state invariant: data never negative, the rate is what the
      owned upgrades add up to, and the list keeps the catalogue's shape. */
  ghost predicate Inv(data: real, dps: nat, clickPower: nat, ups: seq<Upgrade>)
  {
    data >= 0.0 && dps == TotalRate(ups) && clickPower == CLICK_POWER && FromCatalog(ups)
  }

  /** A successful purchase keeps the invariant: data drops by the cost
      but stays non-negative, the rate rises by the upgrade's rate, and
      no cost decreases. */
  lemma PurchaseKeepsInv(data: real, dps: nat, clickPower: nat, ups: seq<Upgrade>, i: nat, scaled: nat)
    requires Inv(data, dps, clickPower, ups) && i < |ups|
    requires data >= ups[i].cost as real && ScaledCost(ups[i].cost, scaled)
    ensures var r := Purchased(ups, ups[i].id, scaled);
            && r == ups[i := ups[i].(count := ups[i].count + 1, cost := scaled)]
            && Inv(data - ups[i].cost as real, dps + ups[i].dps, clickPower, r)
            && forall j :: 0 <= j < |ups| ==> r[j].cost >= ups[j].cost
  {
    var u := ups[i].(count := ups[i].count + 1, cost := scaled);
    assert UniqueIds(ups);
    PurchasedIsOneUpdate(ups, i, scaled);
    TotalRateUpdate(ups, i, u);
  }

  class Clicker {
    var data: real
    var dps: nat
    var clickPower: nat
    var upgrades: seq<Upgrade>

    ghost predicate Valid()
      reads this
    {
      Inv(data, dps, clickPower, upgrades)
    }

    constructor ()
      ensures Valid()
      ensures data == 0.0 && dps == 0 && clickPower == CLICK_POWER && upgrades == CATALOG
    {
      data := 0.0;
      dps := 0;
      clickPower := CLICK_POWER;
      upgrades := CATALOG;
      CatalogFacts();
    }

    /** The core button: add `clickPower` to data. */
    method Click()
      requires Valid()
      modifies this
      ensures Valid()
      ensures data == old(data) + clickPower as real
      ensures dps == old(dps) && clickPower == old(clickPower) && upgrades == old(upgrades)
    {
      data := data + clickPower as real;
    }

    /** One firing of the 100 ms interval: a tenth of the rate. */
    method Tick()
      requires Valid()
      modifies this
      ensures Valid()
      ensures data == old(data) + dps as real / 10.0
      ensures dps == old(dps) && clickPower == old(clickPower) && upgrades == old(upgrades)
    {
      data := data + dps as real / 10.0;
    }

    /** `handleUpgrade(id)`. `scaled` is the double-precision
        `Math.floor(cost * 1.15)` of the upgrade found. */
    method HandleUpgrade(id: int, scaled: nat)
      requires Valid()
      requires FindIndex(upgrades, id).Some? ==>
        ScaledCost(upgrades[FindIndex(upgrades, id).value].cost, scaled)
      modifies this
      ensures Valid()
      ensures clickPower == old(clickPower)
      ensures !Affordable(old(upgrades), id, old(data)) ==>
        data == old(data) && dps == old(dps) && upgrades == old(upgrades)
      ensures Affordable(old(upgrades), id, old(data)) ==>
        var i := FindIndex(old(upgrades), id).value;
        var u := old(upgrades)[i];
        && data == old(data) - u.cost as real
        && dps == old(dps) + u.dps
        && upgrades == old(upgrades)[i := u.(count := u.count + 1, cost := scaled)]
      ensures forall j :: 0 <= j < |upgrades| ==> upgrades[j].cost >= old(upgrades)[j].cost
    {
      var found := FindIndex(upgrades, id);
      if found.None? || data < upgrades[found.value].cost as real {
        return;
      }
      var i := found.value;
      var upgrade := upgrades[i];
      PurchaseKeepsInv(data, dps, clickPower, upgrades, i, scaled);
      var bought := Purchased(upgrades, id, scaled);
      data, dps, upgrades := data - upgrade.cost as real, dps + upgrade.dps, bought;
    }
  }
}
