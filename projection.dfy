/**
 * The cohort-component projection (`project_population_by_year`): a pure year-to-year
 * transition `Step`, the year-by-year states it generates, and the imperative loop that
 * builds the per-cohort series dictionary, proved to hold exactly those states.
 */
module Projection {
  import opened Results
  import opened Sums
  import opened Cohorts
  import opened Fertility

  /** The rates and adjustments a projection runs under (every argument but the data and the year count). */
  datatype Scenario = Scenario(asfrs: map<string, real>, mortality: map<nat, real>, migration: real, factor: real)

  /** The mortality table has the rate of every age the aging rule reads, 1..104. */
  predicate MortalityCovers(mortality: map<nat, real>)
  {
    forall a: nat :: 1 <= a <= MaxAge ==> a in mortality
  }

  /** Every one of the 210 cohort keys is present. */
  predicate CohortsIn<V>(m: map<Cohort, V>)
  {
    forall s: Sex, a: nat :: a <= MaxAge ==> Cohort(s, a) in m
  }

  lemma CohortsInAll<V>(m: map<Cohort, V>)
    requires CohortsIn(m)
    ensures forall c :: IsCohort(c) ==> c in m
  {
    forall c | IsCohort(c) ensures c in m {
      assert c == Cohort(c.sex, c.age);
    }
  }

  /** The count of `age` in a year, from the count `prior` of `age - 1` in the year before. */
  function Aged(sc: Scenario, prior: real, age: nat): real
    requires 1 <= age <= MaxAge && MortalityCovers(sc.mortality)
  {
    prior * (1.0 - sc.mortality[age] * sc.factor) * (1.0 + sc.migration / 100.0)
  }

  /** The reproductive ages whose women the births calculation counts: 15..49. */
  const FirstFertileAge: nat := 15
  const EndFertileAge: nat := 50

  /** The births each reproductive age contributes: women of that age times the rate of its group (0 where none is given). */
  function BirthsByAge(females: seq<real>, asfrs: map<string, real>): (r: seq<real>)
    requires |females| == AgeCount
    ensures |r| == EndFertileAge - FirstFertileAge
  {
    seq(EndFertileAge - FirstFertileAge, i requires 0 <= i < EndFertileAge - FirstFertileAge =>
          females[FirstFertileAge + i] * AsfrFor(asfrs, FirstFertileAge + i))
  }

  /** `new_births`: the sum over ages 15..49 of women of that age times the rate of its group. */
  function Births(females: seq<real>, asfrs: map<string, real>): real
    requires |females| == AgeCount
  {
    Sum(BirthsByAge(females, asfrs))
  }

  /** The counts of one simulated year, by single age 0..104, for each sex. */
  datatype Snapshot = Snapshot(male: seq<real>, female: seq<real>) {
    predicate Valid()
    {
      |male| == AgeCount && |female| == AgeCount
    }

    function At(c: Cohort): real
      requires Valid() && IsCohort(c)
    {
      match c.sex
      case Male => male[c.age]
      case Female => female[c.age]
    }

    function Of(sex: Sex): (s: seq<real>)
      requires Valid()
      ensures |s| == AgeCount
    {
      match sex
      case Male => male
      case Female => female
    }
  }

  /** One sex's counts a year on: `newborns` at age 0 and every older age aged from the age below it. */
  function Advance(sc: Scenario, s: seq<real>, newborns: real): (r: seq<real>)
    requires |s| == AgeCount && MortalityCovers(sc.mortality)
    ensures |r| == AgeCount
  {
    seq(AgeCount, a requires 0 <= a < AgeCount => if a == 0 then newborns else Aged(sc, s[a - 1], a))
  }

  /** The transition from one year to the next; the age-104 cohort of `y` has no successor. */
  function Step(sc: Scenario, y: Snapshot): (r: Snapshot)
    requires y.Valid() && MortalityCovers(sc.mortality)
    ensures r.Valid()
  {
    var newborns := Births(y.female, sc.asfrs) / 2.0;
    Snapshot(Advance(sc, y.male, newborns), Advance(sc, y.female, newborns))
  }

  /** The year-`t` counts that a projection started from `y0` computes. */
  function State(sc: Scenario, y0: Snapshot, t: nat): (r: Snapshot)
    requires y0.Valid() && MortalityCovers(sc.mortality)
    ensures r.Valid()
  {
    if t == 0 then y0 else Step(sc, State(sc, y0, t - 1))
  }

  /** Year 0: the initial data, read into a snapshot. */
  function InitialSnapshot(init: map<Cohort, real>): (r: Snapshot)
    requires CohortsIn(init)
    ensures r.Valid()
    ensures forall c :: IsCohort(c) ==> r.At(c) == init[c]
  {
    Snapshot(seq(AgeCount, a requires 0 <= a < AgeCount => init[Cohort(Male, a)]),
             seq(AgeCount, a requires 0 <= a < AgeCount => init[Cohort(Female, a)]))
  }

  /** The number of years a projection holds: `years` when its loop runs, else only the initial year. */
  function Horizon(years: int): (n: nat)
    ensures n >= 1
    ensures years >= 1 ==> n == years
  {
    if years >= 2 then years else 1
  }

  /** The length `project_population_by_year` leaves the series of key `k` at. */
  function SeriesLength(k: Cohort, years: int): nat
  {
    if IsCohort(k) then Horizon(years) else 1
  }

  /**
   * `m` is what projecting `init` for `years` years under `sc` returns: the same keys, each
   * series starting with its initial value; when the loop runs (years >= 2) each cohort's
   * series has `years` values, value t being that cohort's count in `State(t)`; every
   * other key keeps its single initial value.
   */
  ghost predicate Projects(m: map<Cohort, seq<real>>, init: map<Cohort, real>, sc: Scenario, years: int)
  {
    && m.Keys == init.Keys
    && (forall k :: k in m ==> |m[k]| == SeriesLength(k, years) && m[k][0] == init[k])
    && (years >= 2 ==>
          && CohortsIn(init) && MortalityCovers(sc.mortality)
          && forall c, t :: IsCohort(c) && 0 <= t < years ==>
               m[c][t] == State(sc, InitialSnapshot(init), t).At(c))
  }

  /** Every cohort of `m` has a value for year `t`. */
  predicate HasYear(m: map<Cohort, seq<real>>, t: nat)
  {
    forall s: Sex, a: nat :: a <= MaxAge ==> Cohort(s, a) in m && t < |m[Cohort(s, a)]|
  }

  /** The year-`t` values of the series in `m`, read into a snapshot. */
  function SnapshotOf(m: map<Cohort, seq<real>>, t: nat): (r: Snapshot)
    requires HasYear(m, t)
    ensures r.Valid()
  {
    Snapshot(seq(AgeCount, a requires 0 <= a < AgeCount => m[Cohort(Male, a)][t]),
             seq(AgeCount, a requires 0 <= a < AgeCount => m[Cohort(Female, a)][t]))
  }

  datatype ProjectionError = KeyError

  /** Age 0 of either sex in the next year holds half the year's births. */
  lemma StepNewborns(sc: Scenario, y: Snapshot, sex: Sex)
    requires y.Valid() && MortalityCovers(sc.mortality)
    ensures Step(sc, y).At(Cohort(sex, 0)) == Births(y.female, sc.asfrs) / 2.0
  {
  }

  /** Every older age in the next year holds the aged count of the age below in this year. */
  lemma StepAged(sc: Scenario, y: Snapshot, c: Cohort)
    requires y.Valid() && MortalityCovers(sc.mortality) && IsCohort(c) && c.age >= 1
    ensures Step(sc, y).At(c) == Aged(sc, y.At(Cohort(c.sex, c.age - 1)), c.age)
  {
    match c.sex
    case Male =>
    case Female =>
  }

  /** Every snapshot of `ys` has all 105 ages of each sex. */
  ghost predicate AllValid(ys: seq<Snapshot>)
  {
    forall t :: 0 <= t < |ys| ==> ys[t].Valid()
  }

  /** The first `n` projected states, `State(0)` .. `State(n - 1)`. */
  ghost function States(sc: Scenario, y0: Snapshot, n: nat): (r: seq<Snapshot>)
    requires y0.Valid() && MortalityCovers(sc.mortality)
    ensures |r| == n && AllValid(r)
  {
    if n == 0 then [] else States(sc, y0, n - 1) + [State(sc, y0, n - 1)]
  }

  lemma {:induction false} StatesAt(sc: Scenario, y0: Snapshot, n: nat, t: nat)
    requires y0.Valid() && MortalityCovers(sc.mortality) && t < n
    ensures States(sc, y0, n)[t] == State(sc, y0, t)
  {
    if t < n - 1 {
      StatesAt(sc, y0, n - 1, t);
    }
  }

  /** Consecutive projected states are one transition apart. */
  lemma StatesStep(sc: Scenario, y0: Snapshot, n: nat, t: nat)
    requires y0.Valid() && MortalityCovers(sc.mortality) && 1 <= t < n
    ensures States(sc, y0, n)[t] == Step(sc, States(sc, y0, n)[t - 1])
  {
    StatesAt(sc, y0, n, t);
    StatesAt(sc, y0, n, t - 1);
  }

  /** The counts of cohort `c` in the first `n` snapshots of `ys`, in order. */
  ghost function Column(ys: seq<Snapshot>, c: Cohort, n: nat): (r: seq<real>)
    requires AllValid(ys) && IsCohort(c) && n <= |ys|
    ensures |r| == n
  {
    if n == 0 then [] else Column(ys, c, n - 1) + [ys[n - 1].At(c)]
  }

  lemma {:induction false} ColumnAt(ys: seq<Snapshot>, c: Cohort, n: nat, t: nat)
    requires AllValid(ys) && IsCohort(c) && t < n <= |ys|
    ensures Column(ys, c, n)[t] == ys[t].At(c)
  {
    if t < n - 1 {
      ColumnAt(ys, c, n - 1, t);
    }
  }

  /** The series of cohort `c` in `m` is its count in the first `n` snapshots of `ys`. */
  ghost predicate Holds(m: map<Cohort, seq<real>>, ys: seq<Snapshot>, c: Cohort, n: nat)
    requires AllValid(ys) && IsCohort(c) && n <= |ys|
  {
    c in m && m[c] == Column(ys, c, n)
  }

  /** Every key that is not a cohort keeps its one initial value, and no key is added or lost. */
  ghost predicate Framed(m: map<Cohort, seq<real>>, init: map<Cohort, real>)
  {
    m.Keys == init.Keys && forall k :: k in m && !IsCohort(k) ==> m[k] == [init[k]]
  }

  /** Replacing the series of a cohort keeps the frame. */
  lemma FramedUpdate(m: map<Cohort, seq<real>>, init: map<Cohort, real>, c: Cohort, v: seq<real>)
    requires Framed(m, init) && IsCohort(c) && c in m
    ensures Framed(m[c := v], init)
  {
  }

  /**
   * The length the inner loop has left the series of `c` at once it has appended to
   * every age above `age`, and to age `age` of males when `maleDone`.
   */
  function Filled(c: Cohort, age: nat, year: nat, maleDone: bool): nat
  {
    if age < c.age || (maleDone && c == Cohort(Male, age)) then year + 1 else year
  }

  /** One append of the inner loop, to age `age` of `sex`, keeps every agreement. */
  lemma AgeOne(m: map<Cohort, seq<real>>, m': map<Cohort, seq<real>>, init: map<Cohort, real>,
               sc: Scenario, ys: seq<Snapshot>, age: nat, year: nat, sex: Sex, maleDone: bool, aged: real)
    requires MortalityCovers(sc.mortality) && AllValid(ys) && 1 <= age <= MaxAge && 1 <= year < |ys|
    requires Framed(m, init) && maleDone == (sex == Female)
    requires forall c :: IsCohort(c) ==> Holds(m, ys, c, Filled(c, age, year, maleDone))
    requires ys[year].At(Cohort(sex, age)) == Aged(sc, ys[year - 1].At(Cohort(sex, age - 1)), age)
    requires Cohort(sex, age) in m && Cohort(sex, age - 1) in m && |m[Cohort(sex, age - 1)]| >= year
    requires aged == Aged(sc, m[Cohort(sex, age - 1)][year - 1], age)
    requires m' == m[Cohort(sex, age) := m[Cohort(sex, age)] + [aged]]
    ensures Framed(m', init)
    ensures sex == Male ==> forall c :: IsCohort(c) ==> Holds(m', ys, c, Filled(c, age, year, true))
    ensures sex == Female ==> forall c :: IsCohort(c) ==> Holds(m', ys, c, Filled(c, age - 1, year, false))
  {
    var k := Cohort(sex, age);
    AppendedColumn(m, sc, ys, age, year, sex, maleDone, aged);
    FramedUpdate(m, init, k, m'[k]);
    forall c | IsCohort(c)
      ensures Holds(m', ys, c, if sex == Male then Filled(c, age, year, true) else Filled(c, age - 1, year, false))
    {
      if c != k {
        OtherHolds(m, m', ys, c, k, age, year, maleDone, m[k] + [aged]);
      }
    }
  }

  /** The series of the cohort appended to, with the aged count of the age below, is its column one year longer. */
  lemma AppendedColumn(m: map<Cohort, seq<real>>, sc: Scenario, ys: seq<Snapshot>, age: nat, year: nat,
                       sex: Sex, maleDone: bool, aged: real)
    requires MortalityCovers(sc.mortality) && AllValid(ys) && 1 <= age <= MaxAge && 1 <= year < |ys|
    requires maleDone == (sex == Female)
    requires forall c :: IsCohort(c) ==> Holds(m, ys, c, Filled(c, age, year, maleDone))
    requires ys[year].At(Cohort(sex, age)) == Aged(sc, ys[year - 1].At(Cohort(sex, age - 1)), age)
    requires Cohort(sex, age) in m && Cohort(sex, age - 1) in m && |m[Cohort(sex, age - 1)]| >= year
    requires aged == Aged(sc, m[Cohort(sex, age - 1)][year - 1], age)
    ensures m[Cohort(sex, age)] + [aged] == Column(ys, Cohort(sex, age), year + 1)
  {
    var k, below := Cohort(sex, age), Cohort(sex, age - 1);
    assert IsCohort(k) && IsCohort(below);
    assert Filled(k, age, year, maleDone) == year;
    assert Filled(below, age, year, maleDone) == year;
    assert Holds(m, ys, k, year);
    assert Holds(m, ys, below, year);
    ColumnAt(ys, below, year, year - 1);
  }

  /** A cohort other than the one appended to keeps its series and its agreement. */
  lemma OtherHolds(m: map<Cohort, seq<real>>, m': map<Cohort, seq<real>>, ys: seq<Snapshot>, c: Cohort, k: Cohort,
                   age: nat, year: nat, maleDone: bool, v: seq<real>)
    requires AllValid(ys) && 1 <= age <= MaxAge && 1 <= year < |ys| && IsCohort(c) && c != k
    requires k == Cohort(if maleDone then Female else Male, age)
    requires Holds(m, ys, c, Filled(c, age, year, maleDone))
    requires k in m && m' == m[k := v]
    ensures Holds(m', ys, c, if maleDone then Filled(c, age - 1, year, false) else Filled(c, age, year, true))
  {
  }

  /** Midway through the inner loop, age `age` and the age below it are present, the one below filled to `year`. */
  lemma ReadableBelow(m: map<Cohort, seq<real>>, ys: seq<Snapshot>, age: nat, year: nat)
    requires AllValid(ys) && 1 <= age <= MaxAge && 1 <= year < |ys|
    requires forall c :: IsCohort(c) ==> Holds(m, ys, c, Filled(c, age, year, false))
    ensures Cohort(Male, age) in m && Cohort(Male, age - 1) in m && |m[Cohort(Male, age - 1)]| >= year
    ensures Cohort(Female, age) in m && Cohort(Female, age - 1) in m && |m[Cohort(Female, age - 1)]| >= year
  {
    assert Holds(m, ys, Cohort(Male, age), Filled(Cohort(Male, age), age, year, false));
    assert Holds(m, ys, Cohort(Male, age - 1), Filled(Cohort(Male, age - 1), age, year, false));
    assert Holds(m, ys, Cohort(Female, age), Filled(Cohort(Female, age), age, year, false));
    assert Holds(m, ys, Cohort(Female, age - 1), Filled(Cohort(Female, age - 1), age, year, false));
  }

  /** One pass of the inner loop, man then woman of age `age`, keeps every agreement. */
  lemma AgeBoth(m: map<Cohort, seq<real>>, m1: map<Cohort, seq<real>>, m2: map<Cohort, seq<real>>,
                init: map<Cohort, real>, sc: Scenario, ys: seq<Snapshot>, age: nat, year: nat,
                agedMale: real, agedFemale: real)
    requires MortalityCovers(sc.mortality) && AllValid(ys) && 1 <= age <= MaxAge && 1 <= year < |ys|
    requires ys[year] == Step(sc, ys[year - 1]) && Framed(m, init)
    requires forall c :: IsCohort(c) ==> Holds(m, ys, c, Filled(c, age, year, false))
    requires Cohort(Male, age) in m && Cohort(Male, age - 1) in m && |m[Cohort(Male, age - 1)]| >= year
    requires Cohort(Female, age) in m && Cohort(Female, age - 1) in m && |m[Cohort(Female, age - 1)]| >= year
    requires agedMale == Aged(sc, m[Cohort(Male, age - 1)][year - 1], age)
    requires m1 == m[Cohort(Male, age) := m[Cohort(Male, age)] + [agedMale]]
    requires agedFemale == Aged(sc, m1[Cohort(Female, age - 1)][year - 1], age)
    requires m2 == m1[Cohort(Female, age) := m1[Cohort(Female, age)] + [agedFemale]]
    ensures Framed(m2, init)
    ensures forall c :: IsCohort(c) ==> Holds(m2, ys, c, Filled(c, age - 1, year, false))
  {
    StepAged(sc, ys[year - 1], Cohort(Male, age));
    AgeOne(m, m1, init, sc, ys, age, year, Male, false, agedMale);
    assert IsCohort(Cohort(Female, age)) && IsCohort(Cohort(Female, age - 1));
    assert Holds(m1, ys, Cohort(Female, age - 1), Filled(Cohort(Female, age - 1), age, year, true));
    StepAged(sc, ys[year - 1], Cohort(Female, age));
    AgeOne(m1, m2, init, sc, ys, age, year, Female, true, agedFemale);
  }

  /** The women of each age in year `t` of the series. */
  function FemalesAt(m: map<Cohort, seq<real>>, t: nat): (females: seq<real>)
    requires forall a :: 0 <= a < AgeCount ==> Cohort(Female, a) in m && t < |m[Cohort(Female, a)]|
    ensures |females| == AgeCount && forall a :: 0 <= a < AgeCount ==> females[a] == m[Cohort(Female, a)][t]
  {
    seq(AgeCount, a requires 0 <= a < AgeCount => m[Cohort(Female, a)][t])
  }

  /** The females column the method reads back from the series is the year before's. */
  lemma FemalesColumn(m: map<Cohort, seq<real>>, ys: seq<Snapshot>, year: nat)
    requires AllValid(ys) && 1 <= year < |ys|
    requires forall c :: IsCohort(c) ==> Holds(m, ys, c, Filled(c, 0, year, false))
    ensures forall a :: 0 <= a < AgeCount ==> Cohort(Female, a) in m && |m[Cohort(Female, a)]| >= year
    ensures FemalesAt(m, year - 1) == ys[year - 1].female
  {
    forall a | 0 <= a < AgeCount
      ensures Cohort(Female, a) in m && |m[Cohort(Female, a)]| >= year
      ensures m[Cohort(Female, a)][year - 1] == ys[year - 1].female[a]
    {
      var c := Cohort(Female, a);
      assert IsCohort(c);
      assert Holds(m, ys, c, Filled(c, 0, year, false));
      ColumnAt(ys, c, Filled(c, 0, year, false), year - 1);
    }
  }

  /** The two age-0 appends that end a year extend every agreement to `year + 1`. */
  lemma NewbornsHold(m: map<Cohort, seq<real>>, m2: map<Cohort, seq<real>>, init: map<Cohort, real>,
                     ys: seq<Snapshot>, year: nat, newborns: real)
    requires AllValid(ys) && 1 <= year < |ys|
    requires Framed(m, init)
    requires forall c :: IsCohort(c) ==> Holds(m, ys, c, Filled(c, 0, year, false))
    requires ys[year].At(Cohort(Male, 0)) == newborns && ys[year].At(Cohort(Female, 0)) == newborns
    requires Cohort(Male, 0) in m && Cohort(Female, 0) in m
    requires m2 == m[Cohort(Male, 0) := m[Cohort(Male, 0)] + [newborns]]
                    [Cohort(Female, 0) := m[Cohort(Female, 0)] + [newborns]]
    ensures Framed(m2, init)
    ensures forall c :: IsCohort(c) ==> Holds(m2, ys, c, year + 1)
  {
    var mk, fk := Cohort(Male, 0), Cohort(Female, 0);
    assert IsCohort(mk) && IsCohort(fk);
    assert Holds(m, ys, mk, Filled(mk, 0, year, false));
    assert Holds(m, ys, fk, Filled(fk, 0, year, false));
    FramedUpdate(m, init, mk, m2[mk]);
    FramedUpdate(m[mk := m2[mk]], init, fk, m2[fk]);
    assert m2 == m[mk := m2[mk]][fk := m2[fk]];
    assert m2[mk] == Column(ys, mk, year + 1);
    assert m2[fk] == Column(ys, fk, year + 1);
    forall c | IsCohort(c) ensures Holds(m2, ys, c, year + 1) {
      if c != mk && c != fk {
        assert Holds(m, ys, c, Filled(c, 0, year, false));
      }
    }
  }

  /** The series the method starts from: each key's initial value alone. */
  lemma StartHolds(init: map<Cohort, real>, sc: Scenario, years: nat)
    requires CohortsIn(init) && MortalityCovers(sc.mortality) && years >= 1
    ensures Framed(map k | k in init :: [init[k]], init)
    ensures forall c :: IsCohort(c) ==> Holds(map k | k in init :: [init[k]], States(sc, InitialSnapshot(init), years), c, 1)
  {
    var m := map k | k in init :: [init[k]];
    var y0 := InitialSnapshot(init);
    var ys := States(sc, y0, years);
    StatesAt(sc, y0, years, 0);
    forall c | IsCohort(c) ensures Holds(m, ys, c, 1) {
      CohortsInAll(init);
      assert Column(ys, c, 1) == [y0.At(c)];
    }
  }

  /** When the loop ends, the agreements are what `Projects` asks for. */
  lemma HoldsProjects(m: map<Cohort, seq<real>>, init: map<Cohort, real>, sc: Scenario, years: nat)
    requires years >= 2 && CohortsIn(init) && MortalityCovers(sc.mortality) && Framed(m, init)
    requires forall c :: IsCohort(c) ==> Holds(m, States(sc, InitialSnapshot(init), years), c, years)
    ensures Projects(m, init, sc, years)
  {
    var y0 := InitialSnapshot(init);
    var ys := States(sc, y0, years);
    forall c, t | IsCohort(c) && 0 <= t < years ensures m[c][t] == State(sc, y0, t).At(c) {
      assert Holds(m, ys, c, years);
      ColumnAt(ys, c, years, t);
      StatesAt(sc, y0, years, t);
    }
    forall k | k in m ensures |m[k]| == SeriesLength(k, years) && m[k][0] == init[k] {
      if IsCohort(k) {
        assert Holds(m, ys, k, years);
        assert m[k][0] == State(sc, y0, 0).At(k);
      }
    }
  }

  /** With fewer than two years the method returns each key's initial value alone. */
  lemma ShortProjects(init: map<Cohort, real>, sc: Scenario, years: int)
    requires years < 2
    ensures Projects(map k | k in init :: [init[k]], init, sc, years)
  {
  }

  /**
   * The inner loop of one projected year: ages 104 down to 1 of each sex get the aged count
   * of the age below in the year before; age 0 is left for the births.
   */
  method AgeCohorts(m: map<Cohort, seq<real>>, ghost init: map<Cohort, real>, sc: Scenario,
                    ghost ys: seq<Snapshot>, year: nat)
    returns (r: map<Cohort, seq<real>>)
    requires MortalityCovers(sc.mortality) && AllValid(ys) && 1 <= year < |ys| && Framed(m, init)
    requires ys[year] == Step(sc, ys[year - 1])
    requires forall c :: IsCohort(c) ==> Holds(m, ys, c, year)
    ensures Framed(r, init)
    ensures forall c :: IsCohort(c) ==> Holds(r, ys, c, Filled(c, 0, year, false))
  {
    r := m;
    var age := MaxAge;
    forall c | IsCohort(c) ensures Holds(r, ys, c, Filled(c, age, year, false)) {
      assert Filled(c, age, year, false) == year;
    }
    while age >= 1
      invariant 0 <= age <= MaxAge
      invariant Framed(r, init)
      invariant forall c :: IsCohort(c) ==> Holds(r, ys, c, Filled(c, age, year, false))
    {
      var male, female := Cohort(Male, age), Cohort(Female, age);
      ReadableBelow(r, ys, age, year);
      var agedMale := Aged(sc, r[Cohort(Male, age - 1)][year - 1], age);
      ghost var before := r;
      r := r[male := r[male] + [agedMale]];
      ghost var between := r;
      var agedFemale := Aged(sc, r[Cohort(Female, age - 1)][year - 1], age);
      r := r[female := r[female] + [agedFemale]];
      AgeBoth(before, between, r, init, sc, ys, age, year, agedMale, agedFemale);
      age := age - 1;
    }
  }

  /** The end of one projected year: half the births of the year before go to age 0 of each sex. */
  method AddNewborns(m: map<Cohort, seq<real>>, ghost init: map<Cohort, real>, sc: Scenario,
                     ghost ys: seq<Snapshot>, year: nat)
    returns (r: map<Cohort, seq<real>>)
    requires MortalityCovers(sc.mortality) && AllValid(ys) && 1 <= year < |ys| && Framed(m, init)
    requires ys[year] == Step(sc, ys[year - 1])
    requires forall c :: IsCohort(c) ==> Holds(m, ys, c, Filled(c, 0, year, false))
    ensures Framed(r, init)
    ensures forall c :: IsCohort(c) ==> Holds(r, ys, c, year + 1)
  {
    FemalesColumn(m, ys, year);
    var females := FemalesAt(m, year - 1);
    var newBirths := Births(females, sc.asfrs);
    assert IsCohort(Cohort(Male, 0)) && IsCohort(Cohort(Female, 0));
    var half := newBirths / 2.0;
    // The two appends touch different keys, so they are one update of the map.
    r := m[Cohort(Male, 0) := m[Cohort(Male, 0)] + [half]][Cohort(Female, 0) := m[Cohort(Female, 0)] + [half]];
    NewbornsOfStep(m, r, init, sc, ys, year, females, half);
  }

  /** Appending half the births of the women in `m` to both age-0 series completes the year. */
  lemma NewbornsOfStep(m: map<Cohort, seq<real>>, r: map<Cohort, seq<real>>, init: map<Cohort, real>, sc: Scenario,
                       ys: seq<Snapshot>, year: nat, females: seq<real>, half: real)
    requires MortalityCovers(sc.mortality) && AllValid(ys) && 1 <= year < |ys| && Framed(m, init)
    requires ys[year] == Step(sc, ys[year - 1])
    requires forall c :: IsCohort(c) ==> Holds(m, ys, c, Filled(c, 0, year, false))
    requires females == ys[year - 1].female && half == Births(females, sc.asfrs) / 2.0
    requires Cohort(Male, 0) in m && Cohort(Female, 0) in m
    requires r == m[Cohort(Male, 0) := m[Cohort(Male, 0)] + [half]][Cohort(Female, 0) := m[Cohort(Female, 0)] + [half]]
    ensures Framed(r, init)
    ensures forall c :: IsCohort(c) ==> Holds(r, ys, c, year + 1)
  {
    StepNewborns(sc, ys[year - 1], Male);
    StepNewborns(sc, ys[year - 1], Female);
    NewbornsHold(m, r, init, ys, year, half);
  }

  /**
   * `project_population_by_year`. Starts every key's series with its initial value; then,
   * for each year 1 .. years - 1, appends to ages 104 down to 1 of each sex the aged count
   * of the age below in the year before, and appends half the year's births to age 0 of
   * each sex. A missing cohort key or mortality rate raises `KeyError` once the loop runs.
   */
  method ProjectPopulationByYear(initialData: map<Cohort, real>, asfrs: map<string, real>,
                                 mortalityRates: map<nat, real>, migrationAdj: real, years: int,
                                 mortalityFactor: real)
    returns (r: Result<map<Cohort, seq<real>>, ProjectionError>)
    ensures r.Failure? <==> years >= 2 && !(CohortsIn(initialData) && MortalityCovers(mortalityRates))
    ensures r.Success? ==>
      Projects(r.value, initialData, Scenario(asfrs, mortalityRates, migrationAdj, mortalityFactor), years)
  {
    var sc := Scenario(asfrs, mortalityRates, migrationAdj, mortalityFactor);
    var projected: map<Cohort, seq<real>> := map k | k in initialData :: [initialData[k]];
    if years < 2 {
      ShortProjects(initialData, sc, years);
      return Success(projected);
    }
    if !(CohortsIn(initialData) && MortalityCovers(mortalityRates)) {
      return Failure(KeyError);
    }
    ghost var ys := States(sc, InitialSnapshot(initialData), years);
    StartHolds(initialData, sc, years);
    var year := 1;
    while year < years
      invariant 1 <= year <= years
      invariant Framed(projected, initialData)
      invariant forall c :: IsCohort(c) ==> Holds(projected, ys, c, year)
    {
      StatesStep(sc, InitialSnapshot(initialData), years, year);
      projected := AgeCohorts(projected, initialData, sc, ys, year);
      projected := AddNewborns(projected, initialData, sc, ys, year);
      year := year + 1;
    }
    HoldsProjects(projected, initialData, sc, years);
    return Success(projected);
  }

}
