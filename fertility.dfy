/**
 * Age-specific fertility rates synthesised from a total fertility rate
 * (`base_asfr_percentages` and `compute_dynamic_asf_rs`), and the key the births
 * calculation derives from a single age.
 */
module Fertility {
  import opened Text

  /** The seven reproductive age groups, youngest first, as they are spelled in the rate dictionaries. */
  const FertilityGroups: seq<string> := ["15_19", "20_24", "25_29", "30_34", "35_39", "40_44", "45_49"]

  /** The share of the total fertility rate that falls in each reproductive group. */
  const BaseAsfrPercentages: map<string, real> := map[
    "15_19" := 0.02, "20_24" := 0.20, "25_29" := 0.30, "30_34" := 0.25,
    "35_39" := 0.15, "40_44" := 0.05, "45_49" := 0.03
  ]

  /** Sum of `m[k]` over the keys `keys[from..]`, in order. */
  function SumOver(keys: seq<string>, m: map<string, real>, from: nat := 0): real
    requires from <= |keys|
    requires forall i :: from <= i < |keys| ==> keys[i] in m
    decreases |keys| - from
  {
    if from == |keys| then 0.0 else m[keys[from]] + SumOver(keys, m, from + 1)
  }

  /** The base shares are defined for exactly the seven groups and add up to one. */
  lemma BaseSharesSumToOne()
    ensures forall k :: k in BaseAsfrPercentages <==> k in FertilityGroups
    ensures SumOver(FertilityGroups, BaseAsfrPercentages) == 1.0
  {
    var g := FertilityGroups;
    var b := BaseAsfrPercentages;
    assert SumOver(g, b, 6) == 0.03;
    assert SumOver(g, b, 5) == 0.05 + 0.03;
    assert SumOver(g, b, 4) == 0.15 + 0.05 + 0.03;
    assert SumOver(g, b, 3) == 0.25 + 0.15 + 0.05 + 0.03;
    assert SumOver(g, b, 2) == 0.30 + 0.25 + 0.15 + 0.05 + 0.03;
    assert SumOver(g, b, 1) == 0.20 + 0.30 + 0.25 + 0.15 + 0.05 + 0.03;
  }

  /** The annual rate of a group that holds `share` of the total fertility rate `tfr`. */
  function AnnualRate(tfr: real, share: real): real
  {
    tfr * share / 5.0
  }

  /** `compute_dynamic_asf_rs`: each group's annual rate is its share of `tfr`, spread over its five ages. */
  function ComputeDynamicAsfrs(tfr: real): (r: map<string, real>)
    ensures r.Keys == BaseAsfrPercentages.Keys
  {
    map k | k in BaseAsfrPercentages :: AnnualRate(tfr, BaseAsfrPercentages[k])
  }

  lemma {:induction false} SumOverScaled(keys: seq<string>, m: map<string, real>, r: map<string, real>, tfr: real, from: nat)
    requires from <= |keys|
    requires forall i :: from <= i < |keys| ==> keys[i] in m && keys[i] in r && r[keys[i]] == AnnualRate(tfr, m[keys[i]])
    ensures 5.0 * SumOver(keys, r, from) == tfr * SumOver(keys, m, from)
    decreases |keys| - from
  {
    if from < |keys| {
      SumOverScaled(keys, m, r, tfr, from + 1);
      var x, rest := m[keys[from]], SumOver(keys, m, from + 1);
      assert 5.0 * AnnualRate(tfr, x) == tfr * x;
      assert tfr * (x + rest) == tfr * x + tfr * rest;
    }
  }

  /** Five times the sum of the synthesised rates gives back the total fertility rate. */
  lemma AsfrsRecoverTfr(tfr: real)
    ensures forall i :: 0 <= i < |FertilityGroups| ==> FertilityGroups[i] in ComputeDynamicAsfrs(tfr)
    ensures 5.0 * SumOver(FertilityGroups, ComputeDynamicAsfrs(tfr)) == tfr
  {
    BaseSharesSumToOne();
    SumOverScaled(FertilityGroups, BaseAsfrPercentages, ComputeDynamicAsfrs(tfr), tfr, 0);
  }

  /** For a non-negative total fertility rate every synthesised rate is non-negative. */
  lemma AsfrsNonNegative(tfr: real)
    requires tfr >= 0.0
    ensures forall k :: k in ComputeDynamicAsfrs(tfr) ==> ComputeDynamicAsfrs(tfr)[k] >= 0.0
  {
    forall k | k in ComputeDynamicAsfrs(tfr)
      ensures ComputeDynamicAsfrs(tfr)[k] >= 0.0
    {
      var share := BaseAsfrPercentages[k];
      assert share >= 0.0;
      assert tfr * share >= 0.0;
    }
  }

  /** A total fertility rate of zero gives a zero rate in every group. */
  lemma ZeroTfrGivesZeroAsfrs()
    ensures forall k :: k in ComputeDynamicAsfrs(0.0) ==> ComputeDynamicAsfrs(0.0)[k] == 0.0
  {
  }

  /** The key `f'{age // 5 * 5}_{age // 5 * 5 + 4}'` the births calculation looks up for a single age. */
  function BirthBandKey(age: nat): string
  {
    DecimalString(age / 5 * 5) + "_" + DecimalString(age / 5 * 5 + 4)
  }

  /** `asfrs.get(key, 0)` for the key of `age`. */
  function AsfrFor(asfrs: map<string, real>, age: nat): real
  {
    var key := BirthBandKey(age);
    if key in asfrs then asfrs[key] else 0.0
  }

  /** The key spelled from the bounds of reproductive group `g` is that group's own key. */
  lemma KeyOfGroup(g: nat)
    requires g < |FertilityGroups|
    ensures DecimalString(5 * g + 15) + "_" + DecimalString(5 * g + 19) == FertilityGroups[g]
  {
    if g == 0 {
    } else if g == 1 {
    } else if g == 2 {
    } else if g == 3 {
    } else if g == 4 {
    } else if g == 5 {
    } else {
    }
  }

  /**
   * Every reproductive age 15..49, boundary ages included, is attributed to its own
   * five-year group, whose key the synthesised rates define, so the default of 0 never applies.
   */
  lemma BirthBandKeyInRange(age: nat)
    requires 15 <= age < 50
    ensures BirthBandKey(age) == FertilityGroups[age / 5 - 3]
    ensures BirthBandKey(age) in BaseAsfrPercentages
  {
    var g := age / 5 - 3;
    assert age / 5 * 5 == 5 * g + 15;
    KeyOfGroup(g);
  }

  /** The rate the births calculation applies at a reproductive age. */
  lemma AsfrForReproductiveAge(tfr: real, age: nat)
    requires 15 <= age < 50
    ensures AsfrFor(ComputeDynamicAsfrs(tfr), age) == AnnualRate(tfr, BaseAsfrPercentages[FertilityGroups[age / 5 - 3]])
  {
    BirthBandKeyInRange(age);
  }

  /** All ages of one five-year group share one key, so the same rate. */
  lemma AsfrForSameGroup(asfrs: map<string, real>, a: nat, b: nat)
    requires a / 5 == b / 5
    ensures AsfrFor(asfrs, a) == AsfrFor(asfrs, b)
  {
  }

}
