/**
 * The dashboard's controls and the computation behind one refresh of its graphs
 * (`update_graphs`): the table is expanded, rates are synthesised from the birth-rate
 * slider, the projection runs, and the total series and one year's pyramid are read back.
 */
module Dashboard {
  import opened Results
  import opened Sums
  import opened Cohorts
  import opened Fertility
  import opened Mortality
  import opened Projection
  import opened ProjectionLaws
  import opened Aggregation

  /** The ranges of the birth-rate, migration and mortality sliders. */
  const TfrSliderMin: real := 0.0
  const TfrSliderMax: real := 8.0
  const MigrationSliderMin: real := -2.0
  const MigrationSliderMax: real := 2.0
  const MortalitySliderMin: real := 0.5
  const MortalitySliderMax: real := 2.0

  /** The three continuous controls are at values their sliders offer. */
  predicate OnSliders(tfr: real, migration: real, factor: real)
  {
    && TfrSliderMin <= tfr <= TfrSliderMax
    && MigrationSliderMin <= migration <= MigrationSliderMax
    && MortalitySliderMin <= factor <= MortalitySliderMax
  }

  /** The scenario a refresh projects under: rates synthesised from `tfr` and the default mortality table. */
  function SliderScenario(tfr: real, migration: real, factor: real): (sc: Scenario)
    ensures MortalityCovers(sc.mortality)
    ensures sc.migration == migration && sc.factor == factor
  {
    DefaultMortalityRatesBounded();
    Scenario(ComputeDynamicAsfrs(tfr), DefaultMortalityRates, migration, factor)
  }

  /** Every setting of the sliders, with the default mortality table, stays within the non-negativity bounds. */
  lemma SlidersSustain(tfr: real, migration: real, factor: real)
    requires OnSliders(tfr, migration, factor)
    ensures Sustaining(SliderScenario(tfr, migration, factor))
  {
    DefaultMortalityRatesBounded();
    AsfrsNonNegative(tfr);
    forall a: nat | 1 <= a <= MaxAge ensures DefaultMortalityRates[a] * factor <= 1.0 {
      var rate := DefaultMortalityRates[a];
      assert rate * factor <= 0.1 * factor;
    }
  }

  /** With the birth rate, migration and mortality factor all at zero nobody dies, migrates or is born. */
  lemma ZeroSettingsAreStill()
    ensures Still(SliderScenario(0.0, 0.0, 0.0))
  {
    ZeroTfrGivesZeroAsfrs();
  }

  /** The projection-year slider as written: `min=0, max=self.projection_years, step=1`. */
  function ProjectionYearChoicesAsWritten(years: nat): (r: seq<nat>)
    ensures |r| == years + 1 && forall i :: 0 <= i < |r| ==> r[i] == i
  {
    seq(years + 1, i requires 0 <= i <= years => i)
  }

  /** The projection-year slider ending at the last projected year. */
  function ProjectionYearChoices(years: int): (r: seq<nat>)
    ensures |r| == Horizon(years) && forall i :: 0 <= i < |r| ==> r[i] == i
  {
    seq(Horizon(years), i requires 0 <= i < Horizon(years) => i)
  }

  /** A table the dashboard can read: no negative count. */
  predicate NonNegativeTable(df: seq<AgeRow>)
  {
    forall i :: 0 <= i < |df| ==> df[i].male >= 0.0 && df[i].female >= 0.0
  }

  /** Year 0 as table `df` gives it: every single age holds a fifth of its five-year band's count. */
  function TableSnapshot(df: seq<AgeRow>): (y: Snapshot)
    requires HasAllGroups(df)
    ensures y.Valid()
    ensures forall c :: IsCohort(c) ==> HasGroupOf(df, c) && 5.0 * y.At(c) == CountOf(FindRow(df, AgeRangeOf(GroupOf(c.age)).name).value, c.sex)
  {
    Snapshot(seq(AgeCount, a requires 0 <= a < AgeCount => ExpandedCount(df, Cohort(Male, a))),
             seq(AgeCount, a requires 0 <= a < AgeCount => ExpandedCount(df, Cohort(Female, a))))
  }

  /** The expansion of `extract_initial_age_data_by_year`, read as year 0, is the table's snapshot. */
  lemma InitialIsTable(df: seq<AgeRow>, init: map<Cohort, real>)
    requires HasAllGroups(df) && CohortsIn(init)
    requires forall c :: c in init <==> IsCohort(c)
    requires forall c :: c in init ==> HasGroupOf(df, c) && init[c] == ExpandedCount(df, c)
    ensures InitialSnapshot(init) == TableSnapshot(df)
  {
    var y0, yt := InitialSnapshot(init), TableSnapshot(df);
    forall a | 0 <= a < AgeCount ensures y0.male[a] == yt.male[a] && y0.female[a] == yt.female[a] {
      assert Cohort(Male, a) in init && Cohort(Female, a) in init;
    }
    assert y0.male == yt.male && y0.female == yt.female;
  }

  /** Every year inside the horizon of a projection is the state the transition reaches from the initial data. */
  lemma ProjectedSnapshot(m: map<Cohort, seq<real>>, init: map<Cohort, real>, sc: Scenario, years: int, t: nat)
    requires Projects(m, init, sc, years) && CohortsIn(init) && MortalityCovers(sc.mortality)
    requires t < Horizon(years)
    ensures HasYear(m, t) && SnapshotOf(m, t) == State(sc, InitialSnapshot(init), t)
  {
    ProjectedYearReadable(m, init, sc, years, t);
    if years >= 2 {
      ProjectedYear(m, init, sc, years, t);
    } else {
      var y0, ym := InitialSnapshot(init), SnapshotOf(m, 0);
      forall a | 0 <= a < AgeCount ensures ym.male[a] == y0.male[a] && ym.female[a] == y0.female[a] {
        assert Cohort(Male, a) in m && Cohort(Female, a) in m;
      }
      assert ym.male == y0.male && ym.female == y0.female;
    }
  }

  /** The two graphs a refresh draws from: the total series and the pyramid of the chosen year. */
  datatype Graphs = Graphs(totals: seq<real>, pyramid: Pyramid)

  datatype DashboardError = TableError(missing: ExpandError) | LookupFailed(lookup: LookupError)

  /** With every cohort present and `t` inside the horizon, year `t` of a projection is readable. */
  lemma ProjectedYearReadable(m: map<Cohort, seq<real>>, init: map<Cohort, real>, sc: Scenario, years: int, t: nat)
    requires Projects(m, init, sc, years) && CohortsIn(init)
    ensures HasYear(m, t) <==> t < Horizon(years)
  {
    CohortsInAll(init);
    if t < Horizon(years) {
      forall s: Sex, a: nat | a <= MaxAge ensures Cohort(s, a) in m && t < |m[Cohort(s, a)]| {
        assert IsCohort(Cohort(s, a));
      }
    } else {
      assert IsCohort(Cohort(Male, 0));
    }
  }

  /** A table without negative counts expands to initial data without negative counts. */
  lemma ExpandedNonNegative(df: seq<AgeRow>, init: map<Cohort, real>)
    requires NonNegativeTable(df)
    requires forall c :: c in init ==> IsCohort(c) && HasGroupOf(df, c) && init[c] == ExpandedCount(df, c)
    ensures forall k :: k in init ==> init[k] >= 0.0
  {
    forall k | k in init ensures init[k] >= 0.0 {
      var row := FindRow(df, AgeRangeOf(GroupOf(k.age)).name).value;
      assert exists i :: 0 <= i < |df| && df[i] == row;
    }
  }

  /** Every count of year `t` of a projection from a non-negative table at slider settings is non-negative. */
  lemma ProjectedYearNonNegative(df: seq<AgeRow>, m: map<Cohort, seq<real>>, init: map<Cohort, real>, sc: Scenario,
                                 years: int, t: nat)
    requires NonNegativeTable(df) && Projects(m, init, sc, years) && CohortsIn(init) && Sustaining(sc)
    requires forall c :: c in init <==> IsCohort(c)
    requires forall c :: c in init ==> HasGroupOf(df, c) && init[c] == ExpandedCount(df, c)
    requires t < Horizon(years)
    ensures HasYear(m, t) && NonNegative(SnapshotOf(m, t))
  {
    ProjectedYearReadable(m, init, sc, years, t);
    ExpandedNonNegative(df, init);
    forall a | 0 <= a < AgeCount
      ensures SnapshotOf(m, t).male[a] >= 0.0 && SnapshotOf(m, t).female[a] >= 0.0
    {
      CohortNonNegative(m, init, sc, years, Cohort(Male, a), t);
      CohortNonNegative(m, init, sc, years, Cohort(Female, a), t);
    }
  }

  /** One cohort's count in year `t` of a projection from non-negative data is non-negative. */
  lemma CohortNonNegative(m: map<Cohort, seq<real>>, init: map<Cohort, real>, sc: Scenario, years: int,
                          c: Cohort, t: nat)
    requires Projects(m, init, sc, years) && Sustaining(sc) && IsCohort(c) && c in init
    requires forall k :: k in init ==> init[k] >= 0.0
    requires t < Horizon(years)
    ensures c in m && t < |m[c]| && m[c][t] >= 0.0
  {
    if years >= 2 {
      ProjectedNonNegative(m, init, sc, years, c, t);
    } else {
      assert m[c][0] == init[c];
    }
  }

  /**
   * `update_graphs`: expands the table (failing on the first missing band), synthesises the
   * rates from `tfr`, projects with the default mortality table, sums the total series and
   * builds the pyramid of `projectionYear`, which fails once that year is past the horizon.
   */
  method UpdateGraphs(df: seq<AgeRow>, tfr: real, migration: real, projectionYear: nat, factor: real, years: int)
    returns (r: Result<Graphs, DashboardError>)
    ensures r.Success? <==> HasAllGroups(df) && projectionYear < Horizon(years)
    ensures !HasAllGroups(df) ==> r.Failure? && r.error.TableError?
    ensures r.Success? ==>
      && |r.value.totals| == (if years < 0 then 0 else years)
      && r.value.pyramid.groups == GroupLabels
      && |r.value.pyramid.male| == |r.value.pyramid.female| == GroupCount
    ensures r.Success? && NonNegativeTable(df) && OnSliders(tfr, migration, factor) ==>
      && (forall t :: 0 <= t < |r.value.totals| ==> r.value.totals[t] >= 0.0)
      && (forall g :: 0 <= g < GroupCount ==> r.value.pyramid.male[g] <= 0.0 <= r.value.pyramid.female[g])
    ensures r.Success? ==>
      var sc, y0 := SliderScenario(tfr, migration, factor), TableSnapshot(df);
      && (forall t :: 0 <= t < |r.value.totals| ==> r.value.totals[t] == Total(State(sc, y0, t)))
      && r.value.pyramid.female == BlockSums(State(sc, y0, projectionYear).female)
      && r.value.pyramid.male == Negated(BlockSums(State(sc, y0, projectionYear).male))
  {
    var initial := ExtractInitialAgeData(df);
    if initial.Failure? {
      return Failure(TableError(initial.error));
    }
    var init := initial.value;
    assert CohortsIn(init) by {
      forall s: Sex, a: nat | a <= MaxAge ensures Cohort(s, a) in init {
        assert IsCohort(Cohort(s, a));
      }
    }
    DefaultMortalityRatesBounded();
    var asfrs := ComputeDynamicAsfrs(tfr);
    var sc := SliderScenario(tfr, migration, factor);
    var projected := ProjectPopulationByYear(init, asfrs, DefaultMortalityRates, migration, years, factor);
    var m := projected.value;
    forall t: nat | t < years ensures HasYear(m, t) {
      ProjectedYearReadable(m, init, sc, years, t);
    }
    var totals := TotalSeries(m, years);
    ProjectedYearReadable(m, init, sc, years, projectionYear);
    var pyramid := CreatePopulationPyramid(m, projectionYear);
    if pyramid.Failure? {
      return Failure(LookupFailed(pyramid.error));
    }
    r := Success(Graphs(totals.value, pyramid.value));
    InitialIsTable(df, init);
    forall t | 0 <= t < |totals.value| ensures totals.value[t] == Total(State(sc, TableSnapshot(df), t)) {
      ProjectedSnapshot(m, init, sc, years, t);
    }
    ProjectedSnapshot(m, init, sc, years, projectionYear);
    if NonNegativeTable(df) && OnSliders(tfr, migration, factor) {
      SlidersSustain(tfr, migration, factor);
      forall t | 0 <= t < |totals.value| ensures totals.value[t] >= 0.0 {
        ProjectedYearNonNegative(df, m, init, sc, years, t);
        var y := SnapshotOf(m, t);
        SumNonNegative(y.male);
        SumNonNegative(y.female);
      }
      ProjectedYearNonNegative(df, m, init, sc, years, projectionYear);
      PyramidSides(m, projectionYear);
    }
  }

  /**
   * The slider as written offers a year past the horizon whenever something is projected:
   * its last value, `years`, has no pyramid.
   */
  lemma SliderOffersUnprojectedYear(m: map<Cohort, seq<real>>, init: map<Cohort, real>, sc: Scenario, years: nat)
    requires Projects(m, init, sc, years) && CohortsIn(init) && years >= 1
    ensures var choices := ProjectionYearChoicesAsWritten(years);
      choices[|choices| - 1] == years && CreatePopulationPyramid(m, years).Failure?
  {
    ProjectedYearReadable(m, init, sc, years, years);
  }

  /** The corrected slider offers exactly the years that have a pyramid. */
  lemma SliderOffersProjectedYears(m: map<Cohort, seq<real>>, init: map<Cohort, real>, sc: Scenario, years: int, t: nat)
    requires Projects(m, init, sc, years) && CohortsIn(init)
    ensures t in ProjectionYearChoices(years) <==> CreatePopulationPyramid(m, t).Success?
  {
    ProjectedYearReadable(m, init, sc, years, t);
    var choices := ProjectionYearChoices(years);
    if t < Horizon(years) {
      assert choices[t] == t;
    }
  }
}
