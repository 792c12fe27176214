/** What the dashboard derives from the table and the sidebar: the filtered view with
    its category counts, the Age_Group column, and the EV-by-age-group histogram, which
    is built from the whole table rather than from the filtered view. */
module Dashboard {
  import opened Wrappers
  import opened Rows
  import opened Tallies
  import opened Binning
  import opened Citizens

  /** A row of a table copy to which the Age_Group column has been added. */
  datatype BinnedRecord = BinnedRecord(rec: CitizenRecord, ageGroup: Option<string>)

  function Bin(): (r: CitizenRecord -> BinnedRecord)
  {
    (x: CitizenRecord) => BinnedRecord(x, AgeGroup(x.age))
  }

  /** `copy = rows.copy(); copy["Age_Group"] = pd.cut(copy["Age"], ...)`. */
  function WithAgeGroup(rows: seq<CitizenRecord>): (r: seq<BinnedRecord>)
    ensures |r| == |rows|
    ensures forall i :: 0 <= i < |r| ==> r[i].rec == rows[i]
    ensures forall i :: 0 <= i < |r| ==> r[i].ageGroup == AgeGroup(rows[i].age)
    ensures forall i :: 0 <= i < |r| ==> (r[i].ageGroup.Some? <==> 18 <= rows[i].age < 100)
    ensures forall i :: 0 <= i < |r| ==> r[i].ageGroup.Some? ==> r[i].ageGroup.value in AgeLabels
  {
    Project(rows, Bin())
  }

  function IsEvRow(): (r: BinnedRecord -> bool)
  {
    (b: BinnedRecord) => b.rec.mode == "EV"
  }

  function GroupCell(): (r: BinnedRecord -> Option<string>)
  {
    (b: BinnedRecord) => b.ageGroup
  }

  /** `ev_age_df["Age_Group"].value_counts().sort_index()`, where `ev_age_df` holds the
      EV rows of the age-grouped copy of the whole table. */
  function EvAgeDistribution(rows: seq<CitizenRecord>): (r: seq<CountRow<string>>)
    ensures |r| == |AgeLabels|
    ensures forall i :: 0 <= i < |r| ==> r[i].key == AgeLabels[i]
  {
    var ev := Keep(WithAgeGroup(rows), IsEvRow());
    CategoricalCounts(Project(ev, GroupCell()), AgeLabels)
  }

  /** Counting the Age_Group cells of the EV rows that satisfy `q` is counting the EV
      citizens whose age group satisfies `q`. */
  lemma EvCellsCount(rows: seq<CitizenRecord>, q: Option<string> -> bool, want: CitizenRecord -> bool)
    requires forall i :: 0 <= i < |rows| ==> want(rows[i]) == (rows[i].mode == "EV" && q(AgeGroup(rows[i].age)))
    ensures |Keep(Project(Keep(WithAgeGroup(rows), IsEvRow()), GroupCell()), q)| == |Keep(rows, want)|
  {
    var binned := WithAgeGroup(rows);
    var ev := Keep(binned, IsEvRow());
    var qb := (b: BinnedRecord) => q(b.ageGroup);
    var both := (b: BinnedRecord) => b.rec.mode == "EV" && q(b.ageGroup);
    KeepProject(ev, GroupCell(), q, qb);
    KeepKeep(binned, IsEvRow(), qb, both);
    KeepProject(rows, Bin(), both, want);
  }

  /** Each bar of the EV histogram counts the EV citizens of the whole table whose age
      lies in that bar's bin. */
  lemma EvBinCounts(rows: seq<CitizenRecord>, i: nat)
    requires i < |AgeLabels|
    ensures EvAgeDistribution(rows)[i].count ==
            |Keep(rows, (x: CitizenRecord) => x.mode == "EV" && AgeBins[i] <= x.age < AgeBins[i + 1])|
  {
    var codes := Project(Keep(WithAgeGroup(rows), IsEvRow()), GroupCell());
    var cell := Some(AgeLabels[i]);
    var eq := (g: Option<string>) => g == cell;
    OccurrencesAsKeep(codes, cell, eq);
    forall j | 0 <= j < |rows| ensures (rows[j].mode == "EV" && AgeBins[i] <= rows[j].age < AgeBins[i + 1]) ==
                                       (rows[j].mode == "EV" && eq(AgeGroup(rows[j].age)))
    {
      AgeGroupBins(rows[j].age, i);
    }
    EvCellsCount(rows, eq, (x: CitizenRecord) => x.mode == "EV" && AgeBins[i] <= x.age < AgeBins[i + 1]);
  }

  /** The EV histogram's bars sum to the number of EV citizens aged 18 to 99: an EV
      citizen outside `[18, 100)` has no Age_Group and is in no bar. */
  lemma EvTotal(rows: seq<CitizenRecord>)
    ensures Total(EvAgeDistribution(rows)) == |Keep(rows, (x: CitizenRecord) => x.mode == "EV" && 18 <= x.age < 100)|
  {
    var codes := Project(Keep(WithAgeGroup(rows), IsEvRow()), GroupCell());
    var inCats := (g: Option<string>) => InCategories(AgeLabels, g);
    AgeLabelsDistinct();
    CategoricalTotal(codes, AgeLabels, inCats);
    EvCellsCount(rows, inCats, (x: CitizenRecord) => x.mode == "EV" && 18 <= x.age < 100);
  }

  function IsEvCitizen(): (r: CitizenRecord -> bool)
  {
    (x: CitizenRecord) => x.mode == "EV"
  }

  /** The EV histogram depends only on the EV rows of the table. */
  lemma EvOnlyReadsEvRows(rows: seq<CitizenRecord>)
    ensures EvAgeDistribution(Keep(rows, IsEvCitizen())) == EvAgeDistribution(rows)
  {
    var e := IsEvCitizen();
    var evRows := Keep(rows, e);
    KeepProject(evRows, Bin(), IsEvRow(), e);
    KeepKeep(rows, e, e, e);
    KeepProject(rows, Bin(), IsEvRow(), e);
  }

  /** What one rerun of the script shows. */
  datatype DashboardView = DashboardView(
    filtered: seq<CitizenRecord>,
    shown: nat,
    total: nat,
    genderCounts: seq<CountRow<string>>,
    districtCounts: Option<seq<CountRow<string>>>,
    modeCounts: seq<CountRow<string>>,
    evByAgeGroup: seq<CountRow<string>>,
    filteredWithAgeGroup: seq<BinnedRecord>)

  function GenderOf(): (r: CitizenRecord -> string)
  {
    (x: CitizenRecord) => x.gender
  }

  function ModeOf(): (r: CitizenRecord -> string)
  {
    (x: CitizenRecord) => x.mode
  }

  function DistrictOf(): (r: CitizenRecord -> Option<string>)
  {
    (x: CitizenRecord) => x.district
  }

  /** One pass of the script over the table `t` with the sidebar criteria `c`: the
      filtered view and its "Showing X of Y" numbers, the Gender, District and Mode
      counts over the filtered view (District only when the column exists), the EV
      histogram over the whole table, and the age-grouped copy of the filtered view. */
  function Render(t: Table, c: FilterCriteria): (v: DashboardView)
    ensures v.filtered == ApplyFilters(t, c)
    ensures v.shown == |v.filtered| && v.total == |t.rows| && v.shown <= v.total
    ensures v.districtCounts.Some? <==> t.hasDistrict
    ensures v.evByAgeGroup == EvAgeDistribution(t.rows) && |v.evByAgeGroup| == |AgeLabels|
    ensures v.filteredWithAgeGroup == WithAgeGroup(v.filtered) && |v.filteredWithAgeGroup| == v.shown
  {
    var filtered := ApplyFilters(t, c);
    DashboardView(
      filtered,
      |filtered|,
      |t.rows|,
      ValueCounts(Project(filtered, GenderOf())),
      if t.hasDistrict then Some(ValueCounts(Present(Project(filtered, DistrictOf())))) else None,
      ValueCounts(Project(filtered, ModeOf())),
      EvAgeDistribution(t.rows),
      WithAgeGroup(filtered))
  }

  /** The Gender counts: each is the number of filtered rows with that gender, they sum
      to the number of rows shown, and an unselected gender has no count. */
  lemma GenderCounts(t: Table, c: FilterCriteria, g: string)
    ensures CountOf(Render(t, c).genderCounts, g) == |Keep(Render(t, c).filtered, (x: CitizenRecord) => x.gender == g)|
    ensures Total(Render(t, c).genderCounts) == Render(t, c).shown
    ensures g !in c.genders ==> CountOf(Render(t, c).genderCounts, g) == 0
  {
    var f := ApplyFilters(t, c);
    ProjectOccurrences(f, GenderOf(), g, (x: CitizenRecord) => x.gender == g);
    if g !in c.genders {
      KeepNone(f, (x: CitizenRecord) => x.gender == g);
    }
  }

  /** The Mode counts: each is the number of filtered rows with that mode, they sum to
      the number of rows shown, and an unselected mode has no count. */
  lemma ModeCounts(t: Table, c: FilterCriteria, m: string)
    ensures CountOf(Render(t, c).modeCounts, m) == |Keep(Render(t, c).filtered, (x: CitizenRecord) => x.mode == m)|
    ensures Total(Render(t, c).modeCounts) == Render(t, c).shown
    ensures m !in c.modes ==> CountOf(Render(t, c).modeCounts, m) == 0
  {
    var f := ApplyFilters(t, c);
    ProjectOccurrences(f, ModeOf(), m, (x: CitizenRecord) => x.mode == m);
    if m !in c.modes {
      KeepNone(f, (x: CitizenRecord) => x.mode == m);
    }
  }

  /** The District counts, when the column exists: each is the number of filtered rows
      in that district, they sum to the number of shown rows whose District cell is not
      empty, and while the district test is on an unselected district has no count. */
  lemma DistrictCounts(t: Table, c: FilterCriteria, d: string)
    requires t.hasDistrict
    ensures Render(t, c).districtCounts.Some?
    ensures CountOf(Render(t, c).districtCounts.value, d) == |Keep(Render(t, c).filtered, (x: CitizenRecord) => x.district == Some(d))|
    ensures Total(Render(t, c).districtCounts.value) == Render(t, c).shown - |Keep(Render(t, c).filtered, (x: CitizenRecord) => x.district == None)|
    ensures DistrictTestOn(t, c) && d !in c.districts.value ==> CountOf(Render(t, c).districtCounts.value, d) == 0
  {
    var f := ApplyFilters(t, c);
    ProjectOccurrences(f, DistrictOf(), Some(d), (x: CitizenRecord) => x.district == Some(d));
    ProjectOccurrences(f, DistrictOf(), None, (x: CitizenRecord) => x.district == None);
    if DistrictTestOn(t, c) && d !in c.districts.value {
      KeepNone(f, (x: CitizenRecord) => x.district == Some(d));
    }
  }

  /** The EV histogram ignores the sidebar: any two criteria give the same bars. */
  lemma EvIgnoresSidebar(t: Table, c1: FilterCriteria, c2: FilterCriteria)
    ensures Render(t, c1).evByAgeGroup == Render(t, c2).evByAgeGroup
    ensures Total(Render(t, c1).evByAgeGroup) == |Keep(t.rows, (x: CitizenRecord) => x.mode == "EV" && 18 <= x.age < 100)|
  {
    EvTotal(t.rows);
  }

  /** The age-grouped copy of the filtered view keeps its rows, gives row i label j
      exactly when its age lies in bin j, and when the age range lies within `[18, 100)`
      every one of its rows has an Age_Group. */
  lemma FilteredAgeGroups(t: Table, c: FilterCriteria)
    ensures forall i :: 0 <= i < Render(t, c).shown ==>
      Render(t, c).filteredWithAgeGroup[i].rec == Render(t, c).filtered[i]
    ensures forall i, j :: 0 <= i < Render(t, c).shown && 0 <= j < |AgeLabels| ==>
      (Render(t, c).filteredWithAgeGroup[i].ageGroup == Some(AgeLabels[j]) <==>
       AgeBins[j] <= Render(t, c).filtered[i].age < AgeBins[j + 1])
    ensures 18 <= c.ageMin && c.ageMax < 100 ==>
      forall i :: 0 <= i < Render(t, c).shown ==> Render(t, c).filteredWithAgeGroup[i].ageGroup.Some?
  {
    var v := Render(t, c);
    forall i, j | 0 <= i < v.shown && 0 <= j < |AgeLabels|
      ensures v.filteredWithAgeGroup[i].ageGroup == Some(AgeLabels[j]) <==>
              AgeBins[j] <= v.filtered[i].age < AgeBins[j + 1]
    {
      AgeGroupBins(v.filtered[i].age, j);
    }
  }
}
