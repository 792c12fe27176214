/** The citizen table and the sidebar filter (`filtered_df`). */
module Citizens {
  import opened Wrappers
  import opened Rows

  /** One row of the table, restricted to the columns that the filter and the counts read.
      `district` is None when the District cell is empty (NaN). */
  datatype CitizenRecord = CitizenRecord(age: int, gender: string, district: Option<string>, mode: string)

  /** The loaded table; `hasDistrict` says whether it has a District column at all. */
  datatype Table = Table(hasDistrict: bool, rows: seq<CitizenRecord>)

  /** The sidebar selections: the inclusive age range of the slider and the three
      multiselects. `districts` is None when there is no District multiselect. */
  datatype FilterCriteria = FilterCriteria(
    ageMin: int,
    ageMax: int,
    genders: set<string>,
    districts: Option<set<string>>,
    modes: set<string>)

  /** The criteria the sidebar builds from its widgets. With a District column the
      selection is the multiselect's; without one, the fallback conditional expression
      re-tests the same condition and so always yields None. */
  function SidebarCriteria(t: Table, ageRange: (int, int), genders: set<string>,
                           chosenDistricts: set<string>, modes: set<string>): (c: FilterCriteria)
    ensures c.districts.Some? <==> t.hasDistrict
    ensures t.hasDistrict ==> c.districts == Some(chosenDistricts)
    ensures c.ageMin == ageRange.0 && c.ageMax == ageRange.1
    ensures c.genders == genders && c.modes == modes
    ensures DistrictTestOn(t, c) <==> t.hasDistrict && chosenDistricts != {}
  {
    var districts := if t.hasDistrict then Some(chosenDistricts) else None;
    FilterCriteria(ageRange.0, ageRange.1, genders, districts, modes)
  }

  /** The first boolean mask: age range, gender and transport mode. */
  predicate PassesMask(c: FilterCriteria, r: CitizenRecord)
  {
    c.ageMin <= r.age && r.age <= c.ageMax && r.gender in c.genders && r.mode in c.modes
  }

  /** The first mask as a function of the row. */
  function Mask(c: FilterCriteria): (r: CitizenRecord -> bool)
  {
    x => PassesMask(c, x)
  }

  /** `district_filter and "District" in df.columns`: an empty or absent selection is falsy. */
  predicate DistrictTestOn(t: Table, c: FilterCriteria)
  {
    c.districts.Some? && c.districts.value != {} && t.hasDistrict
  }

  /** `District.isin(sel)`; an empty cell is in no selection. */
  predicate InDistricts(sel: set<string>, r: CitizenRecord)
  {
    r.district.Some? && r.district.value in sel
  }

  function DistrictMask(sel: set<string>): (r: CitizenRecord -> bool)
  {
    x => InDistricts(sel, x)
  }

  /** `filtered_df`: the age/gender/mode mask, then the district mask when it applies. */
  function ApplyFilters(t: Table, c: FilterCriteria): (r: seq<CitizenRecord>)
    ensures |r| <= |t.rows|
    ensures forall i :: 0 <= i < |r| ==> Selected(t, c, r[i])
  {
    var masked := Keep(t.rows, Mask(c));
    KeepMembers(t.rows, Mask(c));
    if DistrictTestOn(t, c) then
      var r := Keep(masked, DistrictMask(c.districts.value));
      assert forall i :: 0 <= i < |r| ==> r[i] in masked && DistrictMask(c.districts.value)(r[i]);
      r
    else masked
  }

  /** The selection rule in one piece: age within the inclusive range, a selected gender,
      a selected mode, and a selected district unless the table has no District column
      or the District selection is absent or empty. */
  predicate Selected(t: Table, c: FilterCriteria, r: CitizenRecord)
  {
    && c.ageMin <= r.age <= c.ageMax
    && r.gender in c.genders
    && r.mode in c.modes
    && (|| !t.hasDistrict
        || c.districts == None
        || c.districts == Some({})
        || (r.district.Some? && r.district.value in c.districts.value))
  }

  /** The two masks together select exactly the rows that meet the selection rule. */
  lemma FilterIsOneMask(t: Table, c: FilterCriteria)
    ensures ApplyFilters(t, c) == Keep(t.rows, x => Selected(t, c, x))
  {
    if DistrictTestOn(t, c) {
      var dist := DistrictMask(c.districts.value);
      KeepKeep(t.rows, Mask(c), dist, x => Selected(t, c, x));
    } else {
      KeepExt(t.rows, Mask(c), x => Selected(t, c, x));
    }
  }

  /** The filter is exact: a row occurs in `filtered_df` exactly as often as in `df`
      when it meets the selection rule, and not at all otherwise. */
  lemma FilterExact(t: Table, c: FilterCriteria)
    ensures forall x :: multiset(ApplyFilters(t, c))[x] == if Selected(t, c, x) then multiset(t.rows)[x] else 0
    ensures forall x :: x in ApplyFilters(t, c) <==> x in t.rows && Selected(t, c, x)
  {
    FilterIsOneMask(t, c);
    KeepMultiset(t.rows, x => Selected(t, c, x));
  }

  /** With the criteria the sidebar builds from its widgets, a row is shown exactly when
      it is in the table, its age lies in the slider's inclusive range, its gender and
      mode are selected, and, when the table has a District column and some district is
      chosen, its District cell holds a chosen district. */
  lemma SidebarFilter(t: Table, ageRange: (int, int), genders: set<string>,
                      chosenDistricts: set<string>, modes: set<string>, x: CitizenRecord)
    ensures x in ApplyFilters(t, SidebarCriteria(t, ageRange, genders, chosenDistricts, modes)) <==>
      && x in t.rows
      && ageRange.0 <= x.age <= ageRange.1
      && x.gender in genders
      && x.mode in modes
      && (t.hasDistrict && chosenDistricts != {} ==> InDistricts(chosenDistricts, x))
  {
    FilterExact(t, SidebarCriteria(t, ageRange, genders, chosenDistricts, modes));
  }

  /** The filter only removes rows: `filtered_df` is an order-preserving subsequence of
      `df`, so "Showing X of Y" has X <= Y. */
  lemma FilterOnlyRemoves(t: Table, c: FilterCriteria)
    ensures IsSubseq(ApplyFilters(t, c), t.rows)
    ensures |ApplyFilters(t, c)| <= |t.rows|
  {
    FilterIsOneMask(t, c);
    KeepSubseq(t.rows, x => Selected(t, c, x));
  }

  /** Filtering the filtered table again with the same criteria changes nothing. */
  lemma FilterIdempotent(t: Table, c: FilterCriteria)
    ensures ApplyFilters(Table(t.hasDistrict, ApplyFilters(t, c)), c) == ApplyFilters(t, c)
  {
    var f := ApplyFilters(t, c);
    var t' := Table(t.hasDistrict, f);
    FilterIsOneMask(t', c);
    assert forall i :: 0 <= i < |f| ==> Selected(t', c, f[i]);
    KeepAll(f, x => Selected(t', c, x));
  }

  /** An empty Gender selection lets no row through. */
  lemma EmptyGenderSelection(t: Table, c: FilterCriteria)
    requires c.genders == {}
    ensures ApplyFilters(t, c) == []
  {
    FilterIsOneMask(t, c);
    KeepNone(t.rows, x => Selected(t, c, x));
  }

  /** An empty Transport selection lets no row through. */
  lemma EmptyModeSelection(t: Table, c: FilterCriteria)
    requires c.modes == {}
    ensures ApplyFilters(t, c) == []
  {
    FilterIsOneMask(t, c);
    KeepNone(t.rows, x => Selected(t, c, x));
  }

  /** An empty District selection, by contrast, switches the district test off: the
      result is what the age, gender and mode tests alone select, empty cells included. */
  lemma EmptyDistrictSelection(t: Table, c: FilterCriteria)
    requires c.districts == Some({})
    ensures forall x :: x in ApplyFilters(t, c) <==> x in t.rows && c.ageMin <= x.age <= c.ageMax &&
                                                      x.gender in c.genders && x.mode in c.modes
    ensures ApplyFilters(t, c) == ApplyFilters(t, c.(districts := None))
  {
    FilterExact(t, c);
    KeepExt(t.rows, Mask(c), Mask(c.(districts := None)));
  }

  /** Without a District column the district selection, whatever it is, has no effect. */
  lemma NoDistrictColumn(t: Table, c: FilterCriteria, d: Option<set<string>>)
    requires !t.hasDistrict
    ensures ApplyFilters(t, c) == ApplyFilters(t, c.(districts := d))
  {
    KeepExt(t.rows, Mask(c), Mask(c.(districts := d)));
  }

  /** With the district test on, a row whose District cell is empty is dropped. */
  lemma EmptyDistrictCellDropped(t: Table, c: FilterCriteria, x: CitizenRecord)
    requires DistrictTestOn(t, c) && x.district == None
    ensures x !in ApplyFilters(t, c)
  {
    FilterExact(t, c);
  }

  /** Selection on five rows of which the middle three pass. */
  lemma MiddleThreeKept(r0: CitizenRecord, r1: CitizenRecord, r2: CitizenRecord, r3: CitizenRecord,
                        r4: CitizenRecord, p: CitizenRecord -> bool)
    requires !p(r0) && p(r1) && p(r2) && p(r3) && !p(r4)
    ensures Keep([r0, r1, r2, r3, r4], p) == [r1, r2, r3]
  {
    KeepSnoc([r0], r1, p);
    KeepSnoc([r0, r1], r2, p);
    KeepSnoc([r0, r1, r2], r3, p);
    KeepSnoc([r0, r1, r2, r3], r4, p);
    assert [r0] + [r1] == [r0, r1];
    assert [r0, r1] + [r2] == [r0, r1, r2];
    assert [r0, r1, r2] + [r3] == [r0, r1, r2, r3];
    assert [r0, r1, r2, r3] + [r4] == [r0, r1, r2, r3, r4];
  }

  /** Ten citizens, five of them male aged 20, 30, 40, 50 and 60 and five not male:
      the range 25 to 55 (inclusive at both ends) with the gender "Male" selects the
      three men aged 30, 40 and 50. */
  lemma TenCitizensScenario(rows: seq<CitizenRecord>)
    requires |rows| == 10
    requires forall i :: 0 <= i < 5 ==> rows[i].gender == "Male" && rows[i].mode == "Bus"
    requires rows[0].age == 20 && rows[1].age == 30 && rows[2].age == 40 && rows[3].age == 50 && rows[4].age == 60
    requires forall i :: 5 <= i < 10 ==> rows[i].gender != "Male"
    ensures ApplyFilters(Table(false, rows), FilterCriteria(25, 55, {"Male"}, None, {"Bus"})) == [rows[1], rows[2], rows[3]]
  {
    var c := FilterCriteria(25, 55, {"Male"}, None, {"Bus"});
    var p := Mask(c);
    var men, women := [rows[0], rows[1], rows[2], rows[3], rows[4]], rows[5..];
    assert rows == men + women;
    assert p(rows[1]) && p(rows[2]) && p(rows[3]) && !p(rows[0]) && !p(rows[4]);
    MiddleThreeKept(rows[0], rows[1], rows[2], rows[3], rows[4], p);
    KeepNone(women, p);
    KeepAppend(men, women, p);
  }
}
