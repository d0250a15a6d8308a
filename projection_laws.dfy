/**
 * What the projection promises, stated on the transition and on the series the method
 * returns: the aging rule, the births rule and its even split, that the age-104 cohort
 * has no successor, non-negativity under the stated bounds, and conservation when
 * nothing dies, nobody migrates and nobody is born.
 */
module ProjectionLaws {
  import opened Sums
  import opened Cohorts
  import opened Fertility
  import opened Projection

  /** Year `t` of a projection's series is the state the transition reaches after `t` steps. */
  lemma ProjectedYear(m: map<Cohort, seq<real>>, init: map<Cohort, real>, sc: Scenario, years: int, t: nat)
    requires Projects(m, init, sc, years) && years >= 2 && t < years
    ensures HasYear(m, t)
    ensures SnapshotOf(m, t) == State(sc, InitialSnapshot(init), t)
  {
    CohortsInAll(init);
    forall s: Sex, a: nat | a <= MaxAge ensures Cohort(s, a) in m && t < |m[Cohort(s, a)]| {
      assert IsCohort(Cohort(s, a));
    }
    var y := State(sc, InitialSnapshot(init), t);
    forall a | 0 <= a < AgeCount ensures SnapshotOf(m, t).male[a] == y.male[a] && SnapshotOf(m, t).female[a] == y.female[a] {
      assert y.At(Cohort(Male, a)) == y.male[a] && y.At(Cohort(Female, a)) == y.female[a];
    }
  }

  /** Consecutive years of a projection's series are one transition apart. */
  lemma ProjectionFollowsStep(m: map<Cohort, seq<real>>, init: map<Cohort, real>, sc: Scenario, years: int, t: nat)
    requires Projects(m, init, sc, years) && years >= 2 && 1 <= t < years
    ensures HasYear(m, t - 1) && HasYear(m, t)
    ensures SnapshotOf(m, t) == Step(sc, SnapshotOf(m, t - 1))
  {
    ProjectedYear(m, init, sc, years, t - 1);
    ProjectedYear(m, init, sc, years, t);
  }

  /**
   * The aging rule: in every year t >= 1, age a >= 1 of either sex holds age a - 1 of the
   * year before, times the survival `1 - m[a] * f` and the migration factor `1 + mig / 100`.
   */
  lemma ProjectedAgingRule(m: map<Cohort, seq<real>>, init: map<Cohort, real>, sc: Scenario, years: int,
                           c: Cohort, t: nat)
    requires Projects(m, init, sc, years) && years >= 2 && 1 <= t < years
    requires IsCohort(c) && c.age >= 1
    ensures c in m && Cohort(c.sex, c.age - 1) in m && |m[c]| == |m[Cohort(c.sex, c.age - 1)]| == years
    ensures m[c][t] == m[Cohort(c.sex, c.age - 1)][t - 1] * (1.0 - sc.mortality[c.age] * sc.factor) * (1.0 + sc.migration / 100.0)
  {
    var below := Cohort(c.sex, c.age - 1);
    CohortsInAll(init);
    assert IsCohort(below);
    ProjectionFollowsStep(m, init, sc, years, t);
    SnapshotAt(m, t, c);
    SnapshotAt(m, t - 1, below);
    AgedEntry(sc, SnapshotOf(m, t - 1), SnapshotOf(m, t), c);
  }

  /** A snapshot read from `m` holds, for each cohort, that cohort's value for the year. */
  lemma SnapshotAt(m: map<Cohort, seq<real>>, t: nat, c: Cohort)
    requires HasYear(m, t) && IsCohort(c)
    ensures c in m && t < |m[c]| && SnapshotOf(m, t).At(c) == m[c][t]
  {
    match c.sex
    case Male =>
    case Female =>
  }

  /** The aging rule of one step, written out. */
  lemma AgedEntry(sc: Scenario, y: Snapshot, z: Snapshot, c: Cohort)
    requires y.Valid() && MortalityCovers(sc.mortality) && z == Step(sc, y)
    requires IsCohort(c) && c.age >= 1
    ensures z.At(c) == y.At(Cohort(c.sex, c.age - 1)) * (1.0 - sc.mortality[c.age] * sc.factor) * (1.0 + sc.migration / 100.0)
  {
    StepAged(sc, y, c);
  }

  /**
   * The births rule: in every year t >= 1, age 0 of each sex holds half the births of the
   * year before, the female counts of ages 15..49 weighted by the rates of their groups.
   */
  lemma ProjectedBirths(m: map<Cohort, seq<real>>, init: map<Cohort, real>, sc: Scenario, years: int, t: nat)
    requires Projects(m, init, sc, years) && years >= 2 && 1 <= t < years
    ensures HasYear(m, t - 1) && HasYear(m, t)
    ensures m[Cohort(Male, 0)][t] == m[Cohort(Female, 0)][t] == Births(SnapshotOf(m, t - 1).female, sc.asfrs) / 2.0
  {
    ProjectionFollowsStep(m, init, sc, years, t);
    StepNewborns(sc, SnapshotOf(m, t - 1), Male);
    StepNewborns(sc, SnapshotOf(m, t - 1), Female);
    assert SnapshotOf(m, t).At(Cohort(Male, 0)) == m[Cohort(Male, 0)][t];
    assert SnapshotOf(m, t).At(Cohort(Female, 0)) == m[Cohort(Female, 0)][t];
  }

  /** Two snapshots that differ at most at age 104 lead to the same next year. */
  lemma OldestCohortDropped(sc: Scenario, y: Snapshot, z: Snapshot)
    requires y.Valid() && z.Valid() && MortalityCovers(sc.mortality)
    requires forall a :: 0 <= a < MaxAge ==> y.male[a] == z.male[a] && y.female[a] == z.female[a]
    ensures Step(sc, y) == Step(sc, z)
  {
    forall i | 0 <= i < EndFertileAge - FirstFertileAge
      ensures BirthsByAge(y.female, sc.asfrs)[i] == BirthsByAge(z.female, sc.asfrs)[i]
    {
      assert y.female[FirstFertileAge + i] == z.female[FirstFertileAge + i];
    }
    assert BirthsByAge(y.female, sc.asfrs) == BirthsByAge(z.female, sc.asfrs);
    assert Advance(sc, y.male, Births(y.female, sc.asfrs) / 2.0) == Advance(sc, z.male, Births(z.female, sc.asfrs) / 2.0);
    assert Advance(sc, y.female, Births(y.female, sc.asfrs) / 2.0) == Advance(sc, z.female, Births(z.female, sc.asfrs) / 2.0);
  }

  /** No count of `y` is negative. */
  predicate NonNegative(y: Snapshot)
    requires y.Valid()
  {
    forall a :: 0 <= a < AgeCount ==> y.male[a] >= 0.0 && y.female[a] >= 0.0
  }

  /**
   * The bounds under which no count can turn negative: every scaled mortality rate is at
   * most 1, migration removes at most everyone, and no fertility rate is negative.
   */
  predicate Sustaining(sc: Scenario)
  {
    && MortalityCovers(sc.mortality)
    && (forall a: nat :: 1 <= a <= MaxAge ==> sc.mortality[a] * sc.factor <= 1.0)
    && sc.migration >= -100.0
    && (forall k :: k in sc.asfrs ==> sc.asfrs[k] >= 0.0)
  }

  lemma ProductNonNegative(x: real, y: real, z: real)
    requires x >= 0.0 && y >= 0.0 && z >= 0.0
    ensures x * y * z >= 0.0
  {
    assert x * y >= 0.0;
  }

  lemma NonNegativeProduct(p: real, x: real, y: real)
    requires p == x * y && x >= 0.0 && y >= 0.0
    ensures p >= 0.0
  {
  }

  /** Births from non-negative women at non-negative rates are non-negative. */
  lemma BirthsNonNegative(females: seq<real>, asfrs: map<string, real>)
    requires |females| == AgeCount
    requires forall a :: 0 <= a < AgeCount ==> females[a] >= 0.0
    requires forall k :: k in asfrs ==> asfrs[k] >= 0.0
    ensures Births(females, asfrs) >= 0.0
  {
    var b := BirthsByAge(females, asfrs);
    forall i | 0 <= i < |b| ensures b[i] >= 0.0 {
      var r := AsfrFor(asfrs, FirstFertileAge + i);
      assert r >= 0.0;
      BirthsByAgeEntry(females, asfrs, i);
      NonNegativeProduct(b[i], females[FirstFertileAge + i], r);
    }
    SumNonNegative(b);
  }

  /** Under `Sustaining` bounds the transition keeps every count non-negative. */
  lemma StepNonNegative(sc: Scenario, y: Snapshot)
    requires Sustaining(sc) && y.Valid() && NonNegative(y)
    ensures NonNegative(Step(sc, y))
  {
    var newborns := Births(y.female, sc.asfrs) / 2.0;
    BirthsNonNegative(y.female, sc.asfrs);
    var z := Step(sc, y);
    forall a | 0 <= a < AgeCount ensures z.male[a] >= 0.0 && z.female[a] >= 0.0 {
      if a > 0 {
        var survival, migration := 1.0 - sc.mortality[a] * sc.factor, 1.0 + sc.migration / 100.0;
        ProductNonNegative(y.male[a - 1], survival, migration);
        ProductNonNegative(y.female[a - 1], survival, migration);
      }
    }
  }

  /** Under `Sustaining` bounds every projected year of a non-negative start is non-negative. */
  lemma {:induction false} StateNonNegative(sc: Scenario, y0: Snapshot, t: nat)
    requires Sustaining(sc) && y0.Valid() && NonNegative(y0)
    ensures NonNegative(State(sc, y0, t))
  {
    if t > 0 {
      StateNonNegative(sc, y0, t - 1);
      StepNonNegative(sc, State(sc, y0, t - 1));
    }
  }

  /** Every value of a projection from non-negative initial counts under `Sustaining` bounds is non-negative. */
  lemma ProjectedNonNegative(m: map<Cohort, seq<real>>, init: map<Cohort, real>, sc: Scenario, years: int,
                             c: Cohort, t: nat)
    requires Projects(m, init, sc, years) && years >= 2 && Sustaining(sc)
    requires forall k :: k in init ==> init[k] >= 0.0
    requires IsCohort(c) && t < years
    ensures c in m && t < |m[c]| && m[c][t] >= 0.0
  {
    CohortsInAll(init);
    var y0 := InitialSnapshot(init);
    forall a | 0 <= a < AgeCount ensures y0.male[a] >= 0.0 && y0.female[a] >= 0.0 {
      assert y0.At(Cohort(Male, a)) == y0.male[a] && y0.At(Cohort(Female, a)) == y0.female[a];
    }
    StateNonNegative(sc, y0, t);
    assert m[c][t] == State(sc, y0, t).At(c);
  }

  /** The total population of one year: every single-age count of both sexes. */
  function Total(y: Snapshot): real
    requires y.Valid()
  {
    Sum(y.male) + Sum(y.female)
  }

  /**
   * Nobody dies (every scaled rate `mortality[a] * factor` is zero, as with a factor of 0),
   * nobody migrates and nobody is born.
   */
  predicate Still(sc: Scenario)
  {
    && MortalityCovers(sc.mortality)
    && (forall a: nat :: 1 <= a <= MaxAge ==> sc.mortality[a] * sc.factor == 0.0)
    && sc.migration == 0.0
    && (forall k :: k in sc.asfrs ==> sc.asfrs[k] == 0.0)
  }

  /** With nothing changing counts, a year on is the `newborns` followed by everyone aged but the oldest. */
  lemma AdvanceStill(sc: Scenario, s: seq<real>, newborns: real)
    requires Still(sc) && |s| == AgeCount
    ensures Sum(Advance(sc, s, newborns)) == newborns + Sum(s) - s[MaxAge]
  {
    var r := Advance(sc, s, newborns);
    forall a | 1 <= a < AgeCount ensures r[a] == s[a - 1] {
      assert sc.mortality[a] * sc.factor == 0.0;
    }
    assert r == [newborns] + s[..MaxAge];
    SumDropLast(s);
  }

  /** Conservation: without deaths, migration or births, a year on loses exactly the age-104 cohorts. */
  lemma StepConservation(sc: Scenario, y: Snapshot)
    requires Still(sc) && y.Valid()
    ensures Total(Step(sc, y)) == Total(y) - y.male[MaxAge] - y.female[MaxAge]
  {
    var b := BirthsByAge(y.female, sc.asfrs);
    forall i | 0 <= i < |b| ensures b[i] == 0.0 {
      var key := BirthBandKey(FirstFertileAge + i);
      assert AsfrFor(sc.asfrs, FirstFertileAge + i) == 0.0;
    }
    SumZero(b);
    AdvanceStill(sc, y.male, 0.0);
    AdvanceStill(sc, y.female, 0.0);
  }

  /** Conservation on the series a projection returns. */
  lemma ProjectedConservation(m: map<Cohort, seq<real>>, init: map<Cohort, real>, sc: Scenario, years: int, t: nat)
    requires Projects(m, init, sc, years) && years >= 2 && Still(sc) && 1 <= t < years
    ensures HasYear(m, t - 1) && HasYear(m, t)
    ensures Total(SnapshotOf(m, t)) ==
      Total(SnapshotOf(m, t - 1)) - m[Cohort(Male, MaxAge)][t - 1] - m[Cohort(Female, MaxAge)][t - 1]
  {
    ProjectionFollowsStep(m, init, sc, years, t);
    StepConservation(sc, SnapshotOf(m, t - 1));
  }

  /** One woman at every single age. */
  const EveryAgeOnce: seq<real> := seq(AgeCount, a requires 0 <= a < AgeCount => 1.0)

  /** The births one woman at each age of group `g` contributes: five times the group's annual rate. */
  lemma GroupBirthsOfOneEach(tfr: real, g: nat)
    requires g < |FertilityGroups|
    ensures Sum(BirthsByAge(EveryAgeOnce, ComputeDynamicAsfrs(tfr))[5 * g..5 * g + 5]) ==
      5.0 * ComputeDynamicAsfrs(tfr)[FertilityGroups[g]]
  {
    var r := ComputeDynamicAsfrs(tfr);
    var block := BirthsByAge(EveryAgeOnce, r)[5 * g..5 * g + 5];
    var first := FirstFertileAge + 5 * g;
    AsfrForReproductiveAge(tfr, first);
    assert first / 5 - 3 == g;
    BirthBandKeyInRange(first);
    forall k | 0 <= k < 5 ensures block[k] == r[FertilityGroups[g]] {
      AsfrForSameGroup(r, first + k, first);
    }
    SumConstant(block, r[FertilityGroups[g]]);
    assert |block| as real == 5.0;
  }

  lemma {:induction false} BlockSumsOverGroups(b: seq<real>, r: map<string, real>, from: nat)
    requires |b| == 5 * |FertilityGroups| && from <= |FertilityGroups|
    requires forall i :: 0 <= i < |FertilityGroups| ==> FertilityGroups[i] in r
    requires forall g :: 0 <= g < |FertilityGroups| ==> BlockSums(b)[g] == 5.0 * r[FertilityGroups[g]]
    ensures Sum(BlockSums(b)[from..]) == 5.0 * SumOver(FertilityGroups, r, from)
    decreases |FertilityGroups| - from
  {
    if from < |FertilityGroups| {
      BlockSumsOverGroups(b, r, from + 1);
      assert BlockSums(b)[from..][1..] == BlockSums(b)[from + 1..];
    }
  }

  /**
   * The total fertility rate is lifetime births: one woman at every reproductive age, under
   * the rates synthesised from `tfr`, gives `tfr` births.
   */
  lemma TfrIsLifetimeBirths(tfr: real)
    ensures Births(EveryAgeOnce, ComputeDynamicAsfrs(tfr)) == tfr
  {
    var r := ComputeDynamicAsfrs(tfr);
    var b := BirthsByAge(EveryAgeOnce, r);
    AsfrsRecoverTfr(tfr);
    forall g | 0 <= g < |FertilityGroups| ensures BlockSums(b)[g] == 5.0 * r[FertilityGroups[g]] {
      GroupBirthsOfOneEach(tfr, g);
    }
    BlockSumsOverGroups(b, r, 0);
    assert BlockSums(b)[0..] == BlockSums(b);
    SumBlockSums(b);
  }

  /** Women only in group `g`, `n` at each of its ages. */
  predicate OnlyGroup(females: seq<real>, g: nat, n: real)
    requires |females| == AgeCount
  {
    forall a :: FirstFertileAge <= a < EndFertileAge ==>
      females[a] == if FirstFertileAge + 5 * g <= a < FirstFertileAge + 5 * g + 5 then n else 0.0
  }

  /** The births of one reproductive age when women are only in group `g`. */
  lemma OneGroupEntry(females: seq<real>, asfrs: map<string, real>, g: nat, n: real, rate: real, i: nat)
    requires |females| == AgeCount && OnlyGroup(females, g, n)
    requires rate == AsfrFor(asfrs, FirstFertileAge + 5 * g) && i < EndFertileAge - FirstFertileAge
    ensures 5 * g <= i < 5 * g + 5 ==> BirthsByAge(females, asfrs)[i] == n * rate
    ensures !(5 * g <= i < 5 * g + 5) ==> BirthsByAge(females, asfrs)[i] == 0.0
  {
    if 5 * g <= i < 5 * g + 5 {
      assert females[FirstFertileAge + i] == n;
      InGroupEntry(females, asfrs, g, n, rate, i);
    } else {
      OutOfGroupEntry(females, asfrs, g, n, i);
    }
  }

  /** Entry `i` of the births by age is the women of age 15 + `i` times that age's rate. */
  lemma BirthsByAgeEntry(females: seq<real>, asfrs: map<string, real>, i: nat)
    requires |females| == AgeCount && i < EndFertileAge - FirstFertileAge
    ensures BirthsByAge(females, asfrs)[i] == females[FirstFertileAge + i] * AsfrFor(asfrs, FirstFertileAge + i)
  {
  }

  /** An age of group `g` has `n` women, who give birth at the group's rate. */
  lemma InGroupEntry(females: seq<real>, asfrs: map<string, real>, g: nat, n: real, rate: real, i: nat)
    requires |females| == AgeCount && 5 * g <= i < 5 * g + 5 && i < EndFertileAge - FirstFertileAge
    requires females[FirstFertileAge + i] == n && rate == AsfrFor(asfrs, FirstFertileAge + 5 * g)
    ensures BirthsByAge(females, asfrs)[i] == n * rate
  {
    InGroupRate(asfrs, g, FirstFertileAge + i);
    EntryOf(females, asfrs, i, n, rate);
  }

  /** Entry `i` of the births by age from the women and the rate of age 15 + `i`. */
  lemma EntryOf(females: seq<real>, asfrs: map<string, real>, i: nat, w: real, rate: real)
    requires |females| == AgeCount && i < EndFertileAge - FirstFertileAge
    requires females[FirstFertileAge + i] == w && AsfrFor(asfrs, FirstFertileAge + i) == rate
    ensures BirthsByAge(females, asfrs)[i] == w * rate
  {
    BirthsByAgeEntry(females, asfrs, i);
    Rescaled(BirthsByAge(females, asfrs)[i], females[FirstFertileAge + i], AsfrFor(asfrs, FirstFertileAge + i), w, rate);
  }

  /** A product keeps its value when both factors are replaced by equal ones. */
  lemma Rescaled(b: real, w: real, r: real, n: real, s: real)
    requires b == w * r && w == n && r == s
    ensures b == n * s
  {
  }

  /** An age outside group `g` has no women, so no births. */
  lemma OutOfGroupEntry(females: seq<real>, asfrs: map<string, real>, g: nat, n: real, i: nat)
    requires |females| == AgeCount && OnlyGroup(females, g, n)
    requires !(5 * g <= i < 5 * g + 5) && i < EndFertileAge - FirstFertileAge
    ensures BirthsByAge(females, asfrs)[i] == 0.0
  {
    BirthsByAgeEntry(females, asfrs, i);
    assert females[FirstFertileAge + i] == 0.0;
  }

  /** Every age of group `g` has the rate of the group's first age. */
  lemma InGroupRate(asfrs: map<string, real>, g: nat, age: nat)
    requires FirstFertileAge + 5 * g <= age < FirstFertileAge + 5 * g + 5
    ensures AsfrFor(asfrs, age) == AsfrFor(asfrs, FirstFertileAge + 5 * g)
  {
    SameBand(g, age - FirstFertileAge);
    AsfrForSameGroup(asfrs, age, FirstFertileAge + 5 * g);
  }

  lemma SameBand(g: nat, i: nat)
    requires 5 * g <= i < 5 * g + 5
    ensures (FirstFertileAge + i) / 5 == (FirstFertileAge + 5 * g) / 5
  {
  }

  /** Women only in group `g`, `n` at each of its ages, give five times `n` times the group's rate in births. */
  lemma OneGroupBirthsAt(females: seq<real>, asfrs: map<string, real>, g: nat, n: real, rate: real)
    requires |females| == AgeCount && g < |FertilityGroups| && OnlyGroup(females, g, n)
    requires rate == AsfrFor(asfrs, FirstFertileAge + 5 * g)
    ensures Births(females, asfrs) == 5.0 * n * rate
  {
    var b := BirthsByAge(females, asfrs);
    ZeroSlice(females, asfrs, g, n, rate, 0, 5 * g);
    GroupSlice(females, asfrs, g, n, rate);
    ZeroSlice(females, asfrs, g, n, rate, 5 * g + 5, |b|);
    assert b[0..5 * g] == b[..5 * g] && b[5 * g + 5..|b|] == b[5 * g + 5..];
    SumSplitThree(b, 5 * g, 5 * g + 5);
    assert Births(females, asfrs) == 5.0 * (n * rate);
    FiveTimesProduct(n, rate);
  }

  /** The ages below or above group `g` contribute no births. */
  lemma ZeroSlice(females: seq<real>, asfrs: map<string, real>, g: nat, n: real, rate: real, lo: nat, hi: nat)
    requires |females| == AgeCount && OnlyGroup(females, g, n) && rate == AsfrFor(asfrs, FirstFertileAge + 5 * g)
    requires lo <= hi <= EndFertileAge - FirstFertileAge && (hi <= 5 * g || 5 * g + 5 <= lo)
    ensures Sum(BirthsByAge(females, asfrs)[lo..hi]) == 0.0
  {
    var slice := BirthsByAge(females, asfrs)[lo..hi];
    forall i | 0 <= i < |slice| ensures slice[i] == 0.0 {
      OneGroupEntry(females, asfrs, g, n, rate, lo + i);
    }
    SumZero(slice);
  }

  /** The five ages of group `g` contribute five times `n` times its rate. */
  lemma GroupSlice(females: seq<real>, asfrs: map<string, real>, g: nat, n: real, rate: real)
    requires |females| == AgeCount && g < |FertilityGroups| && OnlyGroup(females, g, n)
    requires rate == AsfrFor(asfrs, FirstFertileAge + 5 * g)
    ensures Sum(BirthsByAge(females, asfrs)[5 * g..5 * g + 5]) == 5.0 * (n * rate)
  {
    var group := BirthsByAge(females, asfrs)[5 * g..5 * g + 5];
    forall k | 0 <= k < 5 ensures group[k] == n * rate {
      OneGroupEntry(females, asfrs, g, n, rate, 5 * g + k);
    }
    SumConstant(group, n * rate);
    assert |group| as real == 5.0;
  }

  lemma FiveTimesProduct(n: real, rate: real)
    ensures 5.0 * (n * rate) == 5.0 * n * rate
  {
  }

  /**
   * Women only in reproductive group `g`, `n` at each of its ages: the year's births are
   * five times `n` times that group's annual rate.
   */
  lemma OneGroupBirths(females: seq<real>, tfr: real, g: nat, n: real)
    requires |females| == AgeCount && g < |FertilityGroups| && OnlyGroup(females, g, n)
    ensures Births(females, ComputeDynamicAsfrs(tfr)) == 5.0 * n * ComputeDynamicAsfrs(tfr)[FertilityGroups[g]]
  {
    AsfrsRecoverTfr(tfr);
    OneGroupBirthsKeyed(females, ComputeDynamicAsfrs(tfr), g, n);
  }

  /** As `OneGroupBirthsAt`, reading the group's rate under its own key. */
  lemma OneGroupBirthsKeyed(females: seq<real>, asfrs: map<string, real>, g: nat, n: real)
    requires |females| == AgeCount && g < |FertilityGroups| && OnlyGroup(females, g, n)
    requires FertilityGroups[g] in asfrs
    ensures Births(females, asfrs) == 5.0 * n * asfrs[FertilityGroups[g]]
  {
    var first := FirstFertileAge + 5 * g;
    assert AsfrFor(asfrs, first) == asfrs[FertilityGroups[g]] by {
      assert first / 5 - 3 == g;
      BirthBandKeyInRange(first);
    }
    OneGroupBirthsAt(females, asfrs, g, n, asfrs[FertilityGroups[g]]);
  }

  /**
   * A hundred women in band 15-19 only (twenty at each of its ages) at a total fertility
   * rate of 2 give 0.8 births in the next year, 0.4 of each sex: all five ages 15..19 are read.
   */
  lemma YoungestGroupScenario()
    ensures Births(seq(AgeCount, a requires 0 <= a < AgeCount => if 15 <= a < 20 then 20.0 else 0.0),
                   ComputeDynamicAsfrs(2.0)) / 2.0 == 0.4
  {
    var females := seq(AgeCount, a requires 0 <= a < AgeCount => if 15 <= a < 20 then 20.0 else 0.0);
    OneGroupBirths(females, 2.0, 0, 20.0);
  }
}
