/**
 * Single-year cohorts and the expansion of a five-year-banded age table into them
 * (`SouthKoreaDemographicsApp.extract_initial_age_data_by_year`).
 */
module Cohorts {
  import opened Results

  datatype Sex = Male | Female

  /** The dictionary key `Male_{age}` or `Female_{age}`. */
  datatype Cohort = Cohort(sex: Sex, age: nat)

  /** The oldest single-year age the model tracks. */
  const MaxAge: nat := 104
  /** Number of single-year ages, 0..MaxAge. */
  const AgeCount: nat := 105
  /** Number of five-year age groups, `0-4` .. `95-99` and `100+`. */
  const GroupCount: nat := 21

  /** One of the 210 keys the projection works on. */
  predicate IsCohort(c: Cohort)
  {
    c.age <= MaxAge
  }

  /** A row of the demographics table: its `AgeGroup`, `Male` and `Female` columns. */
  datatype AgeRow = AgeRow(group: string, male: real, female: real)

  /** An entry of the `age_ranges` dictionary: a group label and the ages `lo` .. `hi - 1` it covers. */
  datatype AgeRange = AgeRange(name: string, lo: nat, hi: nat)

  /** The keys of the `age_ranges` dictionary, in order. */
  const GroupLabels: seq<string> := [
    "0-4", "5-9", "10-14", "15-19", "20-24", "25-29", "30-34", "35-39", "40-44", "45-49", "50-54",
    "55-59", "60-64", "65-69", "70-74", "75-79", "80-84", "85-89", "90-94", "95-99", "100+"
  ]

  /** Entry `g` of `age_ranges`, in dictionary order: `0-4` holds 0..4, ..., `100+` holds 100..104. */
  function AgeRangeOf(g: nat): (r: AgeRange)
    requires g < GroupCount
    ensures r.hi - r.lo == 5
  {
    AgeRange(GroupLabels[g], 5 * g, 5 * g + 5)
  }

  /** The group holding single age `age`. */
  function GroupOf(age: nat): (g: nat)
    requires age <= MaxAge
    ensures g < GroupCount
    ensures 5 * g <= age < 5 * g + 5
  {
    age / 5
  }

  datatype ExpandError = MissingAgeGroup(group: string)

  /** `df.loc[df['AgeGroup'] == label]` followed by `.values[0]`: the first row with that label, if any. */
  function FindRow(df: seq<AgeRow>, group: string): (r: Option<AgeRow>)
    ensures r.Some? ==> r.value in df && r.value.group == group
  {
    if df == [] then None
    else if df[0].group == group then Some(df[0])
    else FindRow(df[1..], group)
  }

  /** `FindRow` fails exactly when no row has the label, and otherwise returns the first row that has it. */
  lemma {:induction false} FindRowFirstMatch(df: seq<AgeRow>, group: string)
    ensures FindRow(df, group).None? <==> forall i :: 0 <= i < |df| ==> df[i].group != group
    ensures FindRow(df, group).Some? ==>
      exists i :: 0 <= i < |df| && df[i] == FindRow(df, group).value
        && (forall j :: 0 <= j < i ==> df[j].group != group)
  {
    if df != [] && df[0].group != group {
      FindRowFirstMatch(df[1..], group);
      if FindRow(df, group).Some? {
        var i :| 0 <= i < |df[1..]| && df[1..][i] == FindRow(df, group).value
          && (forall j :: 0 <= j < i ==> df[1..][j].group != group);
        assert df[i + 1] == FindRow(df, group).value;
        assert forall j :: 0 <= j < i + 1 ==> df[j].group != group by {
          forall j | 0 <= j < i + 1 ensures df[j].group != group {
            if j > 0 { assert df[j] == df[1..][j - 1]; }
          }
        }
      } else {
        forall i | 0 <= i < |df| ensures df[i].group != group {
          if i > 0 { assert df[i] == df[1..][i - 1]; }
        }
      }
    } else if df != [] {
      assert df[0] == FindRow(df, group).value;
    }
  }

  /** The count of the given sex in a row. */
  function CountOf(row: AgeRow, sex: Sex): real
  {
    match sex
    case Male => row.male
    case Female => row.female
  }

  /** Every age group label has a row. */
  predicate HasAllGroups(df: seq<AgeRow>)
  {
    forall g :: 0 <= g < GroupCount ==> FindRow(df, AgeRangeOf(g).name).Some?
  }

  /** The group holding the age of `c` has a row. */
  predicate HasGroupOf(df: seq<AgeRow>, c: Cohort)
    requires IsCohort(c)
  {
    FindRow(df, AgeRangeOf(GroupOf(c.age)).name).Some?
  }

  /** The count one single age receives: its group's count spread evenly over the group's five ages. */
  function ExpandedCount(df: seq<AgeRow>, c: Cohort): (r: real)
    requires IsCohort(c) && HasGroupOf(df, c)
    ensures 5.0 * r == CountOf(FindRow(df, AgeRangeOf(GroupOf(c.age)).name).value, c.sex)
  {
    CountOf(FindRow(df, AgeRangeOf(GroupOf(c.age)).name).value, c.sex) / 5.0
  }

  /**
   * Builds `initial_data`: for each age group in turn, looks up its row (failing on the
   * first group that has none) and gives each of its ages the male and female counts / 5.
   */
  method ExtractInitialAgeData(df: seq<AgeRow>) returns (r: Result<map<Cohort, real>, ExpandError>)
    ensures r.Success? <==> HasAllGroups(df)
    ensures r.Failure? ==>
      exists g :: 0 <= g < GroupCount && r.error == MissingAgeGroup(AgeRangeOf(g).name)
        && FindRow(df, AgeRangeOf(g).name).None?
        && (forall h :: 0 <= h < g ==> FindRow(df, AgeRangeOf(h).name).Some?)
    ensures r.Success? ==> forall c :: c in r.value <==> IsCohort(c)
    ensures r.Success? ==> forall c :: c in r.value ==> HasGroupOf(df, c) && r.value[c] == ExpandedCount(df, c)
  {
    var initialData: map<Cohort, real> := map[];
    var g := 0;
    while g < GroupCount
      invariant 0 <= g <= GroupCount
      invariant forall h :: 0 <= h < g ==> FindRow(df, AgeRangeOf(h).name).Some?
      invariant forall c :: c in initialData <==> c.age < 5 * g
      invariant forall c :: c in initialData ==> IsCohort(c) && HasGroupOf(df, c) && initialData[c] == ExpandedCount(df, c)
    {
      var range := AgeRangeOf(g);
      var maleRow := FindRow(df, range.name);
      if maleRow.None? {
        return Failure(MissingAgeGroup(range.name));
      }
      var femaleRow := FindRow(df, range.name);
      var perYearMale := maleRow.value.male / (range.hi - range.lo) as real;
      var perYearFemale := femaleRow.value.female / (range.hi - range.lo) as real;
      assert (range.hi - range.lo) as real == 5.0;
      var year := range.lo;
      while year < range.hi
        invariant range.lo <= year <= range.hi
        invariant forall c :: c in initialData <==> c.age < year
        invariant forall c :: c in initialData ==> IsCohort(c) && HasGroupOf(df, c) && initialData[c] == ExpandedCount(df, c)
      {
        assert GroupOf(year) == g;
        assert HasGroupOf(df, Cohort(Male, year)) && HasGroupOf(df, Cohort(Female, year));
        assert ExpandedCount(df, Cohort(Male, year)) == perYearMale;
        assert ExpandedCount(df, Cohort(Female, year)) == perYearFemale;
        var next := initialData[Cohort(Male, year) := perYearMale][Cohort(Female, year) := perYearFemale];
        AddAge(df, initialData, next, year, perYearMale, perYearFemale);
        initialData := next;
        year := year + 1;
      }
      FoundOneMore(df, g);
      g := g + 1;
    }
    return Success(initialData);
  }

  /** The groups before `g` and group `g` itself are the groups before `g + 1`. */
  lemma FoundOneMore(df: seq<AgeRow>, g: nat)
    requires g < GroupCount
    requires forall h :: 0 <= h < g ==> FindRow(df, AgeRangeOf(h).name).Some?
    requires FindRow(df, AgeRangeOf(g).name).Some?
    ensures forall h :: 0 <= h < g + 1 ==> FindRow(df, AgeRangeOf(h).name).Some?
  {
  }

  /** Adding both cohorts of age `year`, each with its expanded count, extends the expansion by one age. */
  lemma AddAge(df: seq<AgeRow>, data: map<Cohort, real>, next: map<Cohort, real>, year: nat, male: real, female: real)
    requires year <= MaxAge && HasGroupOf(df, Cohort(Male, year)) && HasGroupOf(df, Cohort(Female, year))
    requires male == ExpandedCount(df, Cohort(Male, year)) && female == ExpandedCount(df, Cohort(Female, year))
    requires forall c :: c in data <==> c.age < year
    requires forall c :: c in data ==> IsCohort(c) && HasGroupOf(df, c) && data[c] == ExpandedCount(df, c)
    requires next == data[Cohort(Male, year) := male][Cohort(Female, year) := female]
    ensures forall c :: c in next <==> c.age < year + 1
    ensures forall c :: c in next ==> IsCohort(c) && HasGroupOf(df, c) && next[c] == ExpandedCount(df, c)
  {
    forall c: Cohort | c in next
      ensures IsCohort(c) && HasGroupOf(df, c) && next[c] == ExpandedCount(df, c)
    {
      if c.age == year {
        match c.sex
        case Male =>
        case Female =>
      }
    }
    forall c: Cohort
      ensures c in next <==> c.age < year + 1
    {
      match c.sex
      case Male =>
      case Female =>
    }
  }

  /** Each of the five ages of group `g` receives a fifth of the group's count. */
  lemma ExpandedCountInGroup(df: seq<AgeRow>, g: nat, age: nat, sex: Sex)
    requires HasAllGroups(df) && g < GroupCount && 5 * g <= age < 5 * g + 5
    ensures IsCohort(Cohort(sex, age)) && HasGroupOf(df, Cohort(sex, age))
    ensures ExpandedCount(df, Cohort(sex, age)) == CountOf(FindRow(df, AgeRangeOf(g).name).value, sex) / 5.0
  {
    GroupOfBand(g, age);
    assert FindRow(df, AgeRangeOf(g).name).Some?;
  }

  /** An age of band `g` belongs to band `g`. */
  lemma GroupOfBand(g: nat, age: nat)
    requires g < GroupCount && 5 * g <= age < 5 * g + 5
    ensures age <= MaxAge && GroupOf(age) == g
  {
  }

  /** Summing the expanded counts of a group's five ages gives back the group's count, `100+` included. */
  lemma ExpansionPreservesGroupTotals(df: seq<AgeRow>, g: nat, sex: Sex)
    requires HasAllGroups(df) && g < GroupCount
    ensures forall a :: 5 * g <= a < 5 * g + 5 ==> GroupOf(a) == g
    ensures ExpandedCount(df, Cohort(sex, 5 * g)) + ExpandedCount(df, Cohort(sex, 5 * g + 1))
          + ExpandedCount(df, Cohort(sex, 5 * g + 2)) + ExpandedCount(df, Cohort(sex, 5 * g + 3))
          + ExpandedCount(df, Cohort(sex, 5 * g + 4))
         == CountOf(FindRow(df, AgeRangeOf(g).name).value, sex)
  {
    var x := CountOf(FindRow(df, AgeRangeOf(g).name).value, sex);
    ExpandedCountInGroup(df, g, 5 * g + 0, sex);
    ExpandedCountInGroup(df, g, 5 * g + 1, sex);
    ExpandedCountInGroup(df, g, 5 * g + 2, sex);
    ExpandedCountInGroup(df, g, 5 * g + 3, sex);
    ExpandedCountInGroup(df, g, 5 * g + 4, sex);
    assert x / 5.0 + x / 5.0 + x / 5.0 + x / 5.0 + x / 5.0 == x;
  }

  /** Rows other than the 21 age groups (the `Total` row) are never read. */
  lemma {:induction false} OtherRowsIgnored(df: seq<AgeRow>, extra: AgeRow, pos: nat, group: string)
    requires pos <= |df|
    requires extra.group != group
    ensures FindRow(df[..pos] + [extra] + df[pos..], group) == FindRow(df, group)
  {
    if pos == 0 {
      assert (df[..0] + [extra] + df[0..])[1..] == df;
    } else {
      var df' := df[..pos] + [extra] + df[pos..];
      assert df'[0] == df[0];
      assert df'[1..] == df[1..][..pos - 1] + [extra] + df[1..][pos - 1..];
      OtherRowsIgnored(df[1..], extra, pos - 1, group);
    }
  }

  /** A group whose count is zero expands to zero at each of its ages. */
  lemma EmptyGroupExpandsToZero(df: seq<AgeRow>, c: Cohort)
    requires IsCohort(c) && HasGroupOf(df, c)
    requires CountOf(FindRow(df, AgeRangeOf(GroupOf(c.age)).name).value, c.sex) == 0.0
    ensures ExpandedCount(df, c) == 0.0
  {
  }

}
