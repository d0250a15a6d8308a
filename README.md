# South Korea demographics dashboard: a verified model of the projection core

The dashboard (`final/dashboard/population.py`) takes a population table banded in
five-year age groups. It spreads each band evenly over single ages 0..104. It turns a
total fertility rate into age-specific fertility rates. It then projects every
single-year cohort forward year by year: it ages each cohort, applies mortality scaled
by a factor and a migration adjustment, and adds births split evenly between the sexes.
From the projection it draws a total-population series and a population pyramid for
one chosen year. A second file (`final/dashboard/datamanager.py`) builds a sunburst
hierarchy from grouped rows.

The model has these modules:

- `Cohorts` (cohorts.dfy): cohorts and the table expansion. It has a loop method that is proved to build exactly the 210 cohort keys, each with a fifth of its band's count.
- `Fertility` (fertility.dfy): the base shares, the rate synthesis, and the string key the births sum looks up for an age.
- `Mortality` (mortality.dfy): the default rate table.
- `Projection` (projection.dfy): a pure transition `Step` over a `Snapshot` of 2 x 105 counts, its iterate `State`, and the imperative nested-loop method `ProjectPopulationByYear` over a `map<Cohort, seq<real>>`. The method is proved to return one series per cohort whose value at year t is the cohort's count in `State(t)`.
- `ProjectionLaws` (projection_laws.dfy): what the projection promises, namely:
  - the aging and births rules read off the returned series;
  - non-negativity;
  - conservation when nothing is born, dies or migrates;
  - the total fertility rate being the lifetime births of one woman per age.
- `Aggregation` (aggregation.dfy): the pyramid band sums and the total series.
- `Dashboard` (dashboard.dfy): the slider ranges and `update_graphs` as one composed method.
- `TreeDiagram` (tree.dfy): the column filter and the ids/labels/parents construction of `create_tree`. `Visits` lists the nodes the two loops visit in order, `FirstOccurrences` keeps a visit only when its id is new, and `TreeNodes` is the two composed; `CreateTree` is the loop proved to build exactly `TreeNodes`.
- `Sums`, `Text` and `Results`: finite sums, Python's `str(n)` and `"/".join`, and `Option`/`Result`.

The constants `base_asfr_percentages` and `default_mortality_rates` are the Dafny
constants `Fertility.BaseAsfrPercentages` and `Mortality.DefaultMortalityRates`; what
they hold is stated by `Fertility.BaseSharesSumToOne`, `Mortality.MortalityPerThousand`
and `Mortality.DefaultMortalityRatesBounded`. The births sum is `Projection.Births`, the
sum of `Projection.BirthsByAge`; the aging rule is `Projection.Aged`; the births lookup
is `Fertility.AsfrFor` of the key `Fertility.BirthBandKey`.

Python's exceptions (`IndexError`, `KeyError`) become `Failure` values. Cohort keys
`Male_{age}` / `Female_{age}` become the datatype `Cohort(sex, age)`. Counts and rates
are `real`.

## Model

| member | source | states |
|---|---|---|
| Cohorts.ExtractInitialAgeData | final/dashboard/population.py:135-173 | succeeds iff every one of the 21 age-group labels has a row. On failure it names the first group without one. On success the keys are exactly the 210 cohorts, and each cohort holds its band's count divided by the band's five ages |
| Cohorts.AgeRangeOf | final/dashboard/population.py:138-160 | every entry of the age-range dictionary covers exactly five single ages, `100+` included |
| Cohorts.GroupOf | final/dashboard/population.py:138-160 | every age 0..104 falls in one of the 21 groups, whose range contains it |
| Cohorts.FindRow | final/dashboard/population.py:163-164 | a row found by label is a row of the table and carries that label |
| Cohorts.FindRowFirstMatch | final/dashboard/population.py:163-164 | the lookup fails exactly when no row has the label; otherwise it returns the first row with it (`.values[0]`) |
| Cohorts.ExpandedCount | final/dashboard/population.py:166-171 | the count of a single age is its band's count divided over the band's five ages: five times it is the band's count |
| Cohorts.ExpandedCountInGroup | final/dashboard/population.py:166-171 | each of the five ages of group g receives one fifth of the group's count |
| Cohorts.ExpansionPreservesGroupTotals | final/dashboard/population.py:162-171 | the five single-age counts of a band add back up to the band's count |
| Cohorts.OtherRowsIgnored | final/dashboard/population.py:163-164 | inserting a row with another label (such as a `Total` row) anywhere leaves every lookup unchanged |
| Cohorts.EmptyGroupExpandsToZero | final/dashboard/population.py:166-171 | a zero band count gives zero at each of its ages |
| Fertility.BaseSharesSumToOne | final/dashboard/population.py:54-62 | the base shares are defined for exactly the seven groups 15_19..45_49 and sum to 1 |
| Fertility.ComputeDynamicAsfrs | final/dashboard/population.py:175-176 | the synthesised rates have exactly the keys of the base shares |
| Fertility.AsfrsRecoverTfr | final/dashboard/population.py:175-176 | five times the sum of the synthesised rates is the total fertility rate again |
| Fertility.AsfrsNonNegative | final/dashboard/population.py:175-176 | a non-negative total fertility rate gives non-negative rates |
| Fertility.ZeroTfrGivesZeroAsfrs | final/dashboard/population.py:175-176 | a zero total fertility rate gives zero rates |
| Fertility.BirthBandKey | final/dashboard/population.py:201 | defines the key `f'{age // 5 * 5}_{age // 5 * 5 + 4}'` of an age (what it yields at ages 15..49 is stated by BirthBandKeyInRange) |
| Fertility.AsfrFor | final/dashboard/population.py:201 | defines `asfrs.get(key, 0)` for that key (its value at reproductive ages is stated by AsfrForReproductiveAge and AsfrForSameGroup) |
| Fertility.KeyOfGroup | final/dashboard/population.py:201 | the key spelled `f'{lo}_{lo+4}'` from the lower bound of reproductive group g is the group's own dictionary key |
| Fertility.BirthBandKeyInRange | final/dashboard/population.py:201 | for every age 15..49, boundaries included, the key `f'{age//5*5}_{age//5*5+4}'` is that age's own group key, which the rates define |
| Fertility.AsfrForReproductiveAge | final/dashboard/population.py:201 | at a reproductive age the `get(key, 0)` lookup yields the group's synthesised rate, never the default |
| Fertility.AsfrForSameGroup | final/dashboard/population.py:201 | ages in one five-year group get the same rate |
| Mortality.DefaultMortalityRatesBounded | final/dashboard/population.py:65-81 | the default table (each age's rate per 1,000 divided by 1,000) has a rate for exactly the ages 0..104, each between 1 and 100 per 1,000 |
| Mortality.MortalityPerThousand | final/dashboard/population.py:65-81 | the listed rate of every age 0..104 lies between 1 and 100 per 1,000, and it is 100 exactly for the centenarians 100..104 |
| Mortality.SurvivalMultiplierInUnitInterval | final/dashboard/population.py:193 | for mortality factors in [0, 10] the survival multiplier `1 - m[a] * f` lies in [0, 1] |
| Projection.InitialSnapshot | final/dashboard/population.py:180 | the starting snapshot holds each cohort's initial value |
| Projection.Aged | final/dashboard/population.py:192-197 | defines the aging rule `prior · (1 - m[age]·f) · (1 + mig/100)` (its effect is stated by StepAged, ProjectedAgingRule and StepNonNegative) |
| Projection.Births | final/dashboard/population.py:200-203 | defines `new_births` as the sum of the per-age terms (stated by BirthsNonNegative, OneGroupBirths and TfrIsLifetimeBirths) |
| Projection.BirthsByAge | final/dashboard/population.py:200-203 | the births sum has one term per reproductive age 15..49 |
| Projection.Advance | final/dashboard/population.py:184-206 | one sex's counts a year on are again 105 single ages (0 from the newborns, every older age aged from the age below) |
| Projection.Step | final/dashboard/population.py:184-206 | one projected year (the aging loop and the two newborn appends) maps a 2 x 105 snapshot to a 2 x 105 snapshot |
| Projection.State | final/dashboard/population.py:182 | the year-t state, the transition applied t times to the initial data, is a 2 x 105 snapshot for every t |
| Projection.Horizon | final/dashboard/population.py:178-182 | a projection holds at least one year, and exactly `years` of them once `years` >= 1 |
| Projection.StepNewborns | final/dashboard/population.py:200-206 | the transition puts half the births computed from last year's females into age 0 of each sex |
| Projection.StepAged | final/dashboard/population.py:184-197 | the transition gives every age 1..104 the aged count of the age below |
| Projection.AgeCohorts | final/dashboard/population.py:184-197 | the inner loop over ages 104 down to 1 appends to each such cohort its value in the next state, and changes no other key |
| Projection.AddNewborns | final/dashboard/population.py:200-206 | the births sum and the two appends extend age 0 of both sexes by the next state's newborns |
| Projection.ProjectPopulationByYear | final/dashboard/population.py:178-208 | fails (KeyError) iff the loop runs (years >= 2) and a cohort key or a mortality rate for ages 1..104 is missing. Otherwise the result has the input's keys, and each cohort's series has `years` values, value t being its count in State(t). With years <= 1 every series is just its initial value |
| ProjectionLaws.ProjectedYear | final/dashboard/population.py:178-208 | every year t < years of the returned series reads back as the t-th state |
| ProjectionLaws.ProjectionFollowsStep | final/dashboard/population.py:182-206 | each projected year is the transition applied to the year before |
| ProjectionLaws.ProjectedAgingRule | final/dashboard/population.py:192-197 | in the returned series, cohort (s, a) with a >= 1 at year t is cohort (s, a-1) at year t-1 times (1 - m[a]·f)·(1 + mig/100) |
| ProjectionLaws.ProjectedBirths | final/dashboard/population.py:200-206 | `Male_0` and `Female_0` at year t both equal half the births computed from year t-1's females |
| ProjectionLaws.OldestCohortDropped | final/dashboard/population.py:184-197 | the transition never reads age 104, so the oldest cohort leaves the population |
| ProjectionLaws.BirthsNonNegative | final/dashboard/population.py:200-203 | non-negative females and rates give non-negative births |
| ProjectionLaws.StepNonNegative | final/dashboard/population.py:184-206 | with mortality·factor <= 1, migration >= -100% and non-negative rates, a non-negative snapshot steps to a non-negative one |
| ProjectionLaws.ProjectedNonNegative | final/dashboard/population.py:178-208 | under those conditions a non-negative initial population projects to non-negative counts in every year |
| ProjectionLaws.StepConservation | final/dashboard/population.py:184-206 | with every scaled mortality rate `m[a]·f` zero (a factor of 0 included), zero migration and zero fertility rates, one year loses exactly the two age-104 counts |
| ProjectionLaws.ProjectedConservation | final/dashboard/population.py:178-208 | the same law holds for the returned series, year over year |
| ProjectionLaws.TfrIsLifetimeBirths | final/dashboard/population.py:175-176 | one woman at each age 15..49 produces births equal to the total fertility rate |
| ProjectionLaws.OneGroupBirths | final/dashboard/population.py:200-203 | n women at each age of one group give 5·n times that group's rate in births |
| ProjectionLaws.YoungestGroupScenario | final/dashboard/population.py:200-206 | 20 women at each age 15..19 with total fertility rate 2 give 0.4 newborns of each sex |
| Aggregation.CreatePopulationPyramid | final/dashboard/population.py:211-220 | succeeds iff every cohort has a value for the year. The labels are the 21 group labels, and each female band is the sum of its five single ages; each male band is the negated sum |
| Aggregation.PyramidAddsUpToTotal | final/dashboard/population.py:211-220 | the female bands minus the male bands add up to the year's total population |
| Aggregation.PyramidSides | final/dashboard/population.py:213-220 | for a non-negative year, male bars are <= 0 and female bars >= 0 |
| Aggregation.ProjectedPyramid | final/dashboard/population.py:211-220 | the pyramid of a projected year is the block sums of that year's state |
| Aggregation.BandOfTable | final/dashboard/population.py:162-171 | at year 0 a band's five single ages add up to the band's count in the table |
| Aggregation.ExpandedPyramidRoundTrip | final/dashboard/population.py:211-220 | the year-0 pyramid gives back the table's banded counts (male negated) |
| Aggregation.StartHasYearZero | final/dashboard/population.py:180 | a projection started from the expanded table can always be read at year 0 |
| Aggregation.ProjectionStartsFromTable | final/dashboard/population.py:250-258 | projecting the expanded table keeps the table's single-age counts as year 0 |
| Aggregation.TotalAt | final/dashboard/population.py:265 | the per-year sum over ages 0..104 of male plus female equals the year's total population |
| Aggregation.TotalSeries | final/dashboard/population.py:265 | succeeds iff every year below `years` is present. It has length max(0, years), and entry t is the total population of year t |
| Aggregation.ProjectedTotals | final/dashboard/population.py:265 | the series of a projection is the totals of its states |
| Dashboard.SlidersSustain | final/dashboard/population.py:97-122 | at every slider setting (migration -2..2, factor 0.5..2, tfr 0..8) the scenario meets the non-negativity conditions |
| Dashboard.SliderScenario | final/dashboard/population.py:248-258 | the scenario a refresh projects under covers every rate the aging loop reads, with the slider's migration and mortality factor |
| Dashboard.ZeroSettingsAreStill | final/dashboard/population.py:175-176 | birth rate, migration and mortality factor all at 0 give a scenario in which nobody is born, dies or migrates |
| Dashboard.TableSnapshot | final/dashboard/population.py:135-173 | year 0 as the table gives it: five times each single-age count is its band's count |
| Dashboard.InitialIsTable | final/dashboard/population.py:250-258 | the expanded table, read as year 0, is the table's snapshot |
| Dashboard.ProjectedSnapshot | final/dashboard/population.py:178-208 | every year inside the horizon of a projection, `years` <= 1 included, is the state the transition reaches from the initial data |
| Dashboard.ProjectedYearReadable | final/dashboard/population.py:178-208 | a projected map has year t iff t < max(years, 1) |
| Dashboard.ProjectedYearNonNegative | final/dashboard/population.py:248-258 | a non-negative table projected at slider settings is non-negative in every year |
| Dashboard.UpdateGraphs | final/dashboard/population.py:248-274 | succeeds iff the table has all groups and the chosen year is below the horizon; a missing group is a table error. The series has `years` entries, entry t being the total of the t-th state projected from the table under the sliders' scenario, and the pyramid has the group labels, the band sums of the chosen year's state on the female side and their negations on the male side. On a non-negative table at slider settings, totals are >= 0 and the pyramid's sides have their signs |
| Dashboard.ProjectionYearChoicesAsWritten | final/dashboard/population.py:113 | the slider as written offers 0..years |
| Dashboard.SliderOffersUnprojectedYear | final/dashboard/population.py:113 | the last value offered, `years`, has no pyramid |
| Dashboard.ProjectionYearChoices | final/dashboard/population.py:113 | the corrected slider offers 0..horizon-1 |
| Dashboard.SliderOffersProjectedYears | final/dashboard/population.py:113 | the corrected slider offers exactly the years whose pyramid succeeds |
| TreeDiagram.FilterColumns | final/dashboard/datamanager.py:19 | a column is in the path iff it was requested and exists in the data |
| TreeDiagram.FilterColumnsAppend | final/dashboard/datamanager.py:19 | the filter keeps the requested order |
| TreeDiagram.FilterColumnsIdempotent | final/dashboard/datamanager.py:19 | filtering the path again changes nothing |
| TreeDiagram.PathId | final/dashboard/datamanager.py:29 | defines the id `"/".join(row[:i + 1])` of depth i; at depth 0 it is the row's first label |
| TreeDiagram.ParentId | final/dashboard/datamanager.py:30-34 | defines the parent `"/".join(row[:i])` of depth i > 0; at depth 0 it is "" |
| TreeDiagram.ParentIsPathUp | final/dashboard/datamanager.py:29-30 | below the root, a node's parent path is the id one level up, and its id is the parent, `/` and its label |
| TreeDiagram.RowVisits | final/dashboard/datamanager.py:28-30 | the inner loop visits depths 0 .. n - 1 of a row in order, depth d giving the node of prefix `row[:d + 1]`, label `row[d]` and parent `row[:d]` |
| TreeDiagram.FirstOccurrencesCover | final/dashboard/datamanager.py:31-34 | keeping a visit only when its id is new keeps every visited id exactly once |
| TreeDiagram.FirstOccurrencesFirst | final/dashboard/datamanager.py:31-34 | each kept node is the first visit with its id, so its label and parent are those of that first visit |
| TreeDiagram.FirstOccurrencesParents | final/dashboard/datamanager.py:31-34 | when every visit's parent id was visited before it, every kept node's parent is kept before it |
| TreeDiagram.TreeIdsCover | final/dashboard/datamanager.py:27-34 | the tree's ids are distinct, and every prefix of every row is one of them |
| TreeDiagram.TreeNodesAreNodes | final/dashboard/datamanager.py:27-34 | every node of the tree is the node of some row at some depth, and a non-root id is its parent, `/` and its label |
| TreeDiagram.TreeParentsFirst | final/dashboard/datamanager.py:27-34 | every parent id is listed before its child |
| TreeDiagram.AmbiguousRowsVisits | final/dashboard/datamanager.py:27-30 | the rows `["a/b"]` and `["a", "b"]` visit two different nodes with id "a/b" |
| TreeDiagram.FirstOccurrenceWins | final/dashboard/datamanager.py:27-34 | for those rows the tree holds "a/b" (parent "") and "a" only: the first occurrence of an id wins and the later one is dropped |
| TreeDiagram.CreateTree | final/dashboard/datamanager.py:27-34 | the three lists are exactly the ids, labels and parents of `TreeNodes(rows)`, the first occurrences of the visits, row by row and depth by depth. Hence they have equal length and distinct ids, every prefix of every row is an id, every entry is the node of some row at some depth, parents come before their children, and a non-root id is its parent, `/` and its label |

## Left out

- Rendering, Dash callbacks, the app's layout options and the CSV loading in `__init__` are not modelled. Neither are `DataManager` and the sunburst figure.
- Floating-point arithmetic is modelled as exact `real` arithmetic, and pandas' numeric coercion is not modelled.
- The cohort key strings `Male_{age}` / `Female_{age}` are modelled as the datatype `Cohort`; the births lookup key stays a string.
- Cohorts.ExtractInitialAgeData: `IndexError` from `.values[0]` on a missing band becomes `MissingAgeGroup`. It reads the first matching row by label, as `df.loc[...]` does, but the table is a sequence of (label, male, female) records, not a DataFrame.
- Projection.ProjectPopulationByYear: any missing key raises `KeyError` in Python part-way through the loop. The model checks up front and returns one `KeyError`, so partial state is not observable, which matches the exception discarding it.
- Projection.ProjectPopulationByYear: a `years` below 1 is not an error in the code; every series keeps its single initial value. The model follows the code.
- ProjectionLaws.YoungestGroupScenario: the annual rate of group 15_19 at total fertility rate 2 is 2 · 0.02 / 5 = 0.008. Applied to the 20 women of one single age it gives 0.16 births; applied to the whole band of 100 women it gives 0.8. The code applies it at each of the five ages, 5 · 20 · 0.008 = 0.8 births, that is 0.4 per sex. The model follows the code.
- Aggregation.CreatePopulationPyramid: a negative `projection_year` (Python negative indexing) is not modelled; the year is a `nat`.
- `TreeDiagram.create_tree` is modelled as a method on the grouped rows, not as a class, because it updates no field. The pandas `groupby(path).sum()` that produces those rows, and the `Quantity in Millions` values, are not modelled.
- Dashboard.UpdateGraphs: the x-axis labels (`2024 + i`) and the figure objects are not modelled, only the data behind them.

## Findings

| source | as written | input that shows it | evidently intended | confidence | as-written member | corrected member |
|---|---|---|---|---|---|---|
| final/dashboard/population.py:113 | the projection-year slider runs from 0 to `max=self.projection_years` | projection_years = 50 with the slider at 50: the pyramid indexes `projected_data[...][50]` of a 50-value series and raises `IndexError` | `max=self.projection_years - 1`, the last projected year | not executed | Dashboard.SliderOffersUnprojectedYear | Dashboard.SliderOffersProjectedYears |
