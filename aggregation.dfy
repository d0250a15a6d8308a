/**
 * What the dashboard reads back from a projection: the population pyramid of one year
 * (`create_population_pyramid`) and the total-population series (`update_graphs`).
 */
module Aggregation {
  import opened Results
  import opened Sums
  import opened Cohorts
  import opened Projection
  import opened ProjectionLaws

  /** The bars of the pyramid: one label and one male and one female value per band. */
  datatype Pyramid = Pyramid(groups: seq<string>, male: seq<real>, female: seq<real>)

  /** Indexing a cohort the series lack, or a year past a series' end, raises. */
  datatype LookupError = MissingValue

  /**
   * `create_population_pyramid`: the 21 bands `0-4` .. `95-99`, `100+`; each female value
   * is the sum of the five single ages of the band in `year`, each male value the negated sum.
   * Fails exactly when some cohort has no value for `year`.
   */
  function CreatePopulationPyramid(m: map<Cohort, seq<real>>, year: nat): (r: Result<Pyramid, LookupError>)
    ensures r.Success? <==> HasYear(m, year)
    ensures r.Success? ==> r.value.groups == GroupLabels && |r.value.male| == |r.value.female| == GroupCount
    ensures r.Success? ==> forall g :: 0 <= g < GroupCount ==>
      && r.value.female[g] == Sum(SnapshotOf(m, year).female[5 * g..5 * g + 5])
      && r.value.male[g] + Sum(SnapshotOf(m, year).male[5 * g..5 * g + 5]) == 0.0
  {
    if !HasYear(m, year) then Failure(MissingValue)
    else
      var y := SnapshotOf(m, year);
      Success(Pyramid(GroupLabels, Negated(BlockSums(y.male)), BlockSums(y.female)))
  }

  /** The pyramid's bars add up to the year's total: female bars minus male bars. */
  lemma PyramidAddsUpToTotal(m: map<Cohort, seq<real>>, year: nat)
    requires HasYear(m, year)
    ensures var p := CreatePopulationPyramid(m, year).value;
      Sum(p.female) - Sum(p.male) == Total(SnapshotOf(m, year))
  {
    var y := SnapshotOf(m, year);
    SumBlockSums(y.male);
    SumBlockSums(y.female);
    NegatedSum(BlockSums(y.male));
  }

  lemma {:induction false} NegatedSum(s: seq<real>)
    ensures Sum(Negated(s)) == -Sum(s)
  {
    if s != [] {
      assert Negated(s)[1..] == Negated(s[1..]);
      NegatedSum(s[1..]);
    }
  }

  /** For non-negative counts the male bars lie left of the axis and the female bars right of it. */
  lemma PyramidSides(m: map<Cohort, seq<real>>, year: nat)
    requires HasYear(m, year) && NonNegative(SnapshotOf(m, year))
    ensures var p := CreatePopulationPyramid(m, year).value;
      forall g :: 0 <= g < GroupCount ==> p.male[g] <= 0.0 <= p.female[g]
  {
    var y := SnapshotOf(m, year);
    forall g | 0 <= g < GroupCount
      ensures Sum(y.male[5 * g..5 * g + 5]) >= 0.0 && Sum(y.female[5 * g..5 * g + 5]) >= 0.0
    {
      SumNonNegative(y.male[5 * g..5 * g + 5]);
      SumNonNegative(y.female[5 * g..5 * g + 5]);
    }
  }

  /** Every year inside a projection's horizon has a pyramid: the bands of that year's state. */
  lemma ProjectedPyramid(m: map<Cohort, seq<real>>, init: map<Cohort, real>, sc: Scenario, years: int, year: nat)
    requires Projects(m, init, sc, years) && years >= 2 && year < years
    ensures CreatePopulationPyramid(m, year).Success?
    ensures CreatePopulationPyramid(m, year).value.female == BlockSums(State(sc, InitialSnapshot(init), year).female)
    ensures CreatePopulationPyramid(m, year).value.male == Negated(BlockSums(State(sc, InitialSnapshot(init), year).male))
  {
    ProjectedYear(m, init, sc, years, year);
  }

  /** Year 0 of the series in `m` is the expansion of table `df`. */
  ghost predicate StartsFromTable(df: seq<AgeRow>, m: map<Cohort, seq<real>>)
  {
    && HasAllGroups(df)
    && forall c :: IsCohort(c) ==> c in m && |m[c]| >= 1 && HasGroupOf(df, c) && m[c][0] == ExpandedCount(df, c)
  }

  /** A projection of the expanded table starts from the table. */
  lemma ProjectionStartsFromTable(df: seq<AgeRow>, init: map<Cohort, real>, m: map<Cohort, seq<real>>,
                                  sc: Scenario, years: int)
    requires HasAllGroups(df)
    requires forall c :: IsCohort(c) ==> c in init && HasGroupOf(df, c) && init[c] == ExpandedCount(df, c)
    requires Projects(m, init, sc, years)
    ensures StartsFromTable(df, m)
  {
  }

  lemma StartHasYearZero(df: seq<AgeRow>, m: map<Cohort, seq<real>>)
    requires StartsFromTable(df, m)
    ensures HasYear(m, 0)
  {
    forall s: Sex, a: nat | a <= MaxAge ensures Cohort(s, a) in m && 0 < |m[Cohort(s, a)]| {
      assert IsCohort(Cohort(s, a));
    }
  }

  /** Entry `a` of one sex in a snapshot read from `m` is that cohort's value for the year. */
  lemma SnapshotEntry(m: map<Cohort, seq<real>>, t: nat, sex: Sex, a: nat)
    requires HasYear(m, t) && a <= MaxAge
    ensures Cohort(sex, a) in m && t < |m[Cohort(sex, a)]|
    ensures SnapshotOf(m, t).Of(sex)[a] == m[Cohort(sex, a)][t]
  {
    match sex
    case Male =>
    case Female =>
  }

  /** At year 0 each cohort holds its expanded count from the table. */
  lemma StartEntry(df: seq<AgeRow>, m: map<Cohort, seq<real>>, c: Cohort)
    requires StartsFromTable(df, m) && IsCohort(c)
    ensures HasYear(m, 0) && HasGroupOf(df, c)
    ensures SnapshotOf(m, 0).Of(c.sex)[c.age] == ExpandedCount(df, c)
  {
    StartHasYearZero(df, m);
    SnapshotEntry(m, 0, c.sex, c.age);
  }

  /** At year 0 each of the five ages of band `g` holds a fifth of the band's count in the table. */
  lemma BandShares(df: seq<AgeRow>, m: map<Cohort, seq<real>>, g: nat, sex: Sex)
    requires StartsFromTable(df, m) && g < GroupCount
    ensures HasYear(m, 0)
    ensures forall a :: 5 * g <= a < 5 * g + 5 ==>
      SnapshotOf(m, 0).Of(sex)[a] == CountOf(FindRow(df, AgeRangeOf(g).name).value, sex) / 5.0
  {
    StartHasYearZero(df, m);
    forall a | 5 * g <= a < 5 * g + 5
      ensures SnapshotOf(m, 0).Of(sex)[a] == CountOf(FindRow(df, AgeRangeOf(g).name).value, sex) / 5.0
    {
      ExpandedCountInGroup(df, g, a, sex);
      StartEntry(df, m, Cohort(sex, a));
    }
  }

  lemma BandOfTable(df: seq<AgeRow>, m: map<Cohort, seq<real>>, g: nat, sex: Sex)
    requires StartsFromTable(df, m) && g < GroupCount
    ensures HasYear(m, 0)
    ensures Sum(SnapshotOf(m, 0).Of(sex)[5 * g..5 * g + 5]) == CountOf(FindRow(df, AgeRangeOf(g).name).value, sex)
  {
    BandShares(df, m, g, sex);
    FiveShares(SnapshotOf(m, 0).Of(sex), g, CountOf(FindRow(df, AgeRangeOf(g).name).value, sex));
  }

  /** Five equal shares of `x` at the five ages of band `g` add back up to `x`. */
  lemma FiveShares(s: seq<real>, g: nat, x: real)
    requires |s| == AgeCount && g < GroupCount
    requires forall a :: 5 * g <= a < 5 * g + 5 ==> s[a] == x / 5.0
    ensures Sum(s[5 * g..5 * g + 5]) == x
  {
    var band := s[5 * g..5 * g + 5];
    forall k | 0 <= k < |band| ensures band[k] == x / 5.0 {
      assert band[k] == s[5 * g + k];
    }
    SumConstant(band, x / 5.0);
  }

  /**
   * Year 0 of a projection started from the expanded table shows the table back: each
   * female bar is the band's female count and each male bar the negated male count.
   */
  lemma ExpandedPyramidRoundTrip(df: seq<AgeRow>, m: map<Cohort, seq<real>>, g: nat)
    requires StartsFromTable(df, m) && g < GroupCount
    ensures HasYear(m, 0)
    ensures CreatePopulationPyramid(m, 0).value.female[g] == CountOf(FindRow(df, AgeRangeOf(g).name).value, Female)
    ensures CreatePopulationPyramid(m, 0).value.male[g] == -CountOf(FindRow(df, AgeRangeOf(g).name).value, Male)
  {
    BandOfTable(df, m, g, Male);
    BandOfTable(df, m, g, Female);
  }

  /** The total of year `t`: the sum over ages 0..104 of the male plus the female count. */
  function TotalAt(m: map<Cohort, seq<real>>, t: nat): (total: real)
    requires HasYear(m, t)
    ensures total == Total(SnapshotOf(m, t))
  {
    var y := SnapshotOf(m, t);
    var both := seq(AgeCount, a requires 0 <= a < AgeCount => m[Cohort(Male, a)][t] + m[Cohort(Female, a)][t]);
    SumPointwise(y.male, y.female, both);
    Sum(both)
  }

  /**
   * The total-population series for years 0 .. years - 1; fails exactly when some cohort
   * has no value for one of those years.
   */
  function TotalSeries(m: map<Cohort, seq<real>>, years: int): (r: Result<seq<real>, LookupError>)
    ensures r.Success? <==> forall t: nat :: t < years ==> HasYear(m, t)
    ensures r.Success? ==> |r.value| == if years < 0 then 0 else years
    ensures r.Success? ==> forall t :: 0 <= t < |r.value| ==> HasYear(m, t) && r.value[t] == Total(SnapshotOf(m, t))
  {
    if years <= 0 then Success([])
    else if !(forall t: nat :: t < years ==> HasYear(m, t)) then Failure(MissingValue)
    else
      var r := seq(years, t requires 0 <= t < years => TotalAt(m, t));
      assert forall t :: 0 <= t < years ==> r[t] == Total(SnapshotOf(m, t)) by {
        forall t | 0 <= t < years ensures r[t] == Total(SnapshotOf(m, t)) {
          assert r[t] == TotalAt(m, t);
        }
      }
      Success(r)
  }

  /** A projection's total series is the total of each projected state. */
  lemma ProjectedTotals(m: map<Cohort, seq<real>>, init: map<Cohort, real>, sc: Scenario, years: int)
    requires Projects(m, init, sc, years) && years >= 2
    ensures TotalSeries(m, years).Success?
    ensures forall t :: 0 <= t < years ==>
      TotalSeries(m, years).value[t] == Total(State(sc, InitialSnapshot(init), t))
  {
    forall t: nat | t < years ensures HasYear(m, t) && SnapshotOf(m, t) == State(sc, InitialSnapshot(init), t) {
      ProjectedYear(m, init, sc, years, t);
    }
  }
}
