/** The fixed table of baseline annual mortality rates by single age (`default_mortality_rates`). */
module Mortality {
  import opened Cohorts

  /** The hypothetical rate per 1,000 at each age, as listed for the infant .. centenarian ranges. */
  function MortalityPerThousand(age: nat): (r: nat)
    requires age <= MaxAge
    ensures 1 <= r <= 100
    ensures age >= 100 <==> r == 100
  {
    if age < 1 then 5
    else if age < 5 then 2
    else if age < 15 then 1
    else if age < 20 then 2
    else if age < 30 then 3
    else if age < 40 then 5
    else if age < 50 then 8
    else if age < 60 then 10
    else if age < 70 then 20
    else if age < 80 then 30
    else if age < 90 then 50
    else if age < 100 then 70
    else 100
  }

  const DefaultMortalityRates: map<nat, real> :=
    map age: nat | age <= MaxAge :: MortalityPerThousand(age) as real / 1000.0

  /** The table has a rate for exactly the ages 0..104, and each lies between 1 and 100 per 1,000. */
  lemma DefaultMortalityRatesBounded()
    ensures forall a: nat :: a in DefaultMortalityRates <==> a <= MaxAge
    ensures forall a :: a in DefaultMortalityRates ==> 0.001 <= DefaultMortalityRates[a] <= 0.1
  {
  }

  /**
   * For a mortality factor in [0, 10] the survival multiplier `1 - m[a] * f` of every age
   * lies in [0, 1].
   */
  lemma SurvivalMultiplierInUnitInterval(age: nat, factor: real)
    requires age <= MaxAge
    requires 0.0 <= factor <= 10.0
    ensures age in DefaultMortalityRates
    ensures 0.0 <= 1.0 - DefaultMortalityRates[age] * factor <= 1.0
  {
    DefaultMortalityRatesBounded();
    var m := DefaultMortalityRates[age];
    assert m * factor <= 0.1 * factor;
    assert m * factor >= 0.0;
  }

}
