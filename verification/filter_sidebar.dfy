/**
  The region checkboxes of the filter sidebar: the region table, the per-row
  event count, the toggle that edits the selected-region list, and the
  checked state of each row.
 */
module FilterSidebar {
  import opened Seqs
  import opened MarathonTypes

  /** One checkbox row: a single region, or a group that stands for several cities. */
  datatype RegionOption = RegionOption(value: string, caption: string, cities: Option<seq<string>>)

  /** `regionGroups`, in display order. */
  const RegionGroups: seq<RegionOption> := [
    RegionOption("서울", "서울", None),
    RegionOption("광역시", "광역시", Some(["부산", "인천", "대구", "광주", "대전", "울산"])),
    RegionOption("경기", "경기", None),
    RegionOption("충청", "충청", Some(["충북", "충남"])),
    RegionOption("경상", "경상", Some(["경북", "경남"])),
    RegionOption("전라", "전라", Some(["전북", "전남"])),
    RegionOption("강원", "강원", None),
    RegionOption("제주", "제주", None)
  ]

  /** `getRegionCount`: how many events the row's badge counts. */
  function RegionCount(marathons: seq<Marathon>, value: string, cities: Option<seq<string>>): (n: nat)
    ensures n <= |marathons|
    ensures |marathons| == 0 ==> n == 0
  {
    if |marathons| == 0 then 0
    else match cities
      case Some(cs) => |Filter(marathons, (m: Marathon) => m.region in cs)|
      case None => |Filter(marathons, (m: Marathon) => m.region == value)|
  }

  /** `cities.every((city) => selectedRegions.includes(city))` */
  predicate AllSelected(selected: seq<string>, cities: seq<string>) {
    forall i :: 0 <= i < |cities| ==> cities[i] in selected
  }

  /**
    The `cities.forEach` loop of a group toggle: appends each city not yet in
    the list, in group order. The list keeps `acc` as its prefix, contains
    every city afterwards, and the appended part holds only cities that were
    missing, each once, as a subsequence of `cities` (which is group order
    when the group repeats no city).
   */
  function AppendMissing(acc: seq<string>, cities: seq<string>): (r: seq<string>)
    ensures |acc| <= |r| && r[..|acc|] == acc
    ensures forall x :: x in r <==> x in acc || x in cities
    ensures forall i :: |acc| <= i < |r| ==> r[i] !in acc
    ensures NoDuplicates(r[|acc|..])
    ensures IsSubsequence(r[|acc|..], cities)
    ensures NoDuplicates(acc) ==> NoDuplicates(r)
    decreases |cities|
  {
    if |cities| == 0 then acc
    else if cities[0] in acc then AppendMissing(acc, cities[1..])
    else
      var r := AppendMissing(acc + [cities[0]], cities[1..]);
      assert r[|acc|..] == [cities[0]] + r[|acc| + 1..];
      assert NoDuplicates(acc) ==> NoDuplicates(acc + [cities[0]]);
      r
  }

  /**
    `handleRegionToggle` for the row (`value`, `cities`): the new selected list.
    A single region is removed everywhere it occurs when selected and appended
    otherwise. A group whose cities are all selected has them all removed;
    otherwise its missing cities are appended.
   */
  function RegionToggle(selected: seq<string>, value: string, cities: Option<seq<string>>): (r: seq<string>)
    ensures NoDuplicates(selected) ==> NoDuplicates(r)
  {
    match cities
    case Some(cs) =>
      if AllSelected(selected, cs) then
        var r := Filter(selected, (x: string) => x !in cs);
        FilterIsSubsequence(selected, (x: string) => x !in cs);
        if NoDuplicates(selected) then SubsequenceNoDuplicates(r, selected); r else r
      else AppendMissing(selected, cs)
    case None =>
      if value in selected then
        var r := Filter(selected, (x: string) => x != value);
        FilterIsSubsequence(selected, (x: string) => x != value);
        if NoDuplicates(selected) then SubsequenceNoDuplicates(r, selected); r else r
      else selected + [value]
  }

  /**
    Toggling a single region: a selected region disappears (every occurrence)
    while every other region keeps its multiplicity and relative order; an
    unselected one is appended at the end.
   */
  lemma SingleToggle(selected: seq<string>, value: string)
    ensures var r := RegionToggle(selected, value, None);
      && (value in selected ==>
            && value !in r
            && IsSubsequence(r, selected)
            && forall x :: x != value ==> multiset(r)[x] == multiset(selected)[x])
      && (value !in selected ==> r == selected + [value])
  {
    var p := (x: string) => x != value;
    if value in selected {
      FilterIsSubsequence(selected, p);
      forall x | x != value
        ensures multiset(Filter(selected, p))[x] == multiset(selected)[x]
      {
        FilterCounts(selected, p, x);
      }
    }
  }

  /** Selecting a region and unselecting it again restores the list. */
  lemma SingleToggleRoundTrip(selected: seq<string>, value: string)
    requires value !in selected
    ensures RegionToggle(RegionToggle(selected, value, None), value, None) == selected
  {
    var p := (x: string) => x != value;
    FilterConcat(selected, [value], p);
    FilterKeepsAll(selected, p);
  }

  /**
    Toggling a group whose cities are all selected removes exactly those
    cities: no city of the group remains, and every other region keeps its
    multiplicity and relative order.
   */
  lemma GroupToggleOff(selected: seq<string>, value: string, cities: seq<string>)
    requires AllSelected(selected, cities)
    ensures var r := RegionToggle(selected, value, Some(cities));
      && (forall x :: x in r <==> x in selected && x !in cities)
      && IsSubsequence(r, selected)
      && forall x :: x !in cities ==> multiset(r)[x] == multiset(selected)[x]
  {
    var p := (x: string) => x !in cities;
    FilterIsSubsequence(selected, p);
    forall x | x !in cities
      ensures multiset(Filter(selected, p))[x] == multiset(selected)[x]
    {
      FilterCounts(selected, p, x);
    }
  }

  /**
    Toggling a group with some city unselected keeps the old list as a prefix
    and appends just the missing cities, once each and as a subsequence of the
    group; afterwards every city of the group is selected.
   */
  lemma GroupToggleOn(selected: seq<string>, value: string, cities: seq<string>)
    requires !AllSelected(selected, cities)
    ensures var r := RegionToggle(selected, value, Some(cities));
      && |selected| <= |r| && r[..|selected|] == selected
      && AllSelected(r, cities)
      && (forall x :: x in r <==> x in selected || x in cities)
      && (forall i :: |selected| <= i < |r| ==> r[i] !in selected)
      && NoDuplicates(r[|selected|..])
      && IsSubsequence(r[|selected|..], cities)
  {
  }

  /**
    With none of a group's cities selected, toggling the group twice restores
    the list, whether or not the group repeats a city.
   */
  lemma GroupToggleRoundTrip(selected: seq<string>, value: string, cities: seq<string>)
    requires forall i :: 0 <= i < |cities| ==> cities[i] !in selected
    ensures RegionToggle(RegionToggle(selected, value, Some(cities)), value, Some(cities)) == selected
  {
    var p := (x: string) => x !in cities;
    FilterKeepsAll(selected, p);
    if |cities| > 0 {
      assert !AllSelected(selected, cities) by {
        assert cities[0] !in selected;
      }
      GroupToggleOn(selected, value, cities);
      var once := RegionToggle(selected, value, Some(cities));
      var added := once[|selected|..];
      assert once == selected + added;
      forall i | 0 <= i < |added|
        ensures !p(added[i])
      {
        assert added[i] == once[|selected| + i];
      }
      FilterConcat(selected, added, p);
      FilterKeepsNone(added, p);
    }
  }

  /**
    Toggling a duplicate-free group none of whose cities is selected appends
    the group as it is; an empty group leaves the list alone.
   */
  lemma GroupToggleAppendsAll(selected: seq<string>, value: string, cities: seq<string>)
    requires NoDuplicates(cities)
    requires forall i :: 0 <= i < |cities| ==> cities[i] !in selected
    ensures RegionToggle(selected, value, Some(cities)) == selected + cities
  {
    if |cities| == 0 {
      FilterKeepsAll(selected, (x: string) => x !in cities);
      assert selected + cities == selected;
    } else {
      assert !AllSelected(selected, cities) by {
        assert cities[0] !in selected;
      }
      AppendAllMissing(selected, cities);
    }
  }

  /** Cities that are all missing and pairwise distinct are appended as they are. */
  lemma {:induction false} AppendAllMissing(acc: seq<string>, cities: seq<string>)
    requires NoDuplicates(cities)
    requires forall i :: 0 <= i < |cities| ==> cities[i] !in acc
    ensures AppendMissing(acc, cities) == acc + cities
    decreases |cities|
  {
    if |cities| > 0 {
      var rest := cities[1..];
      assert cities[0] !in acc;
      assert AppendMissing(acc, cities) == AppendMissing(acc + [cities[0]], rest);
      forall i | 0 <= i < |rest|
        ensures rest[i] !in acc + [cities[0]]
      {
        assert rest[i] == cities[i + 1];
      }
      assert NoDuplicates(rest) by {
        forall i, j | 0 <= i < j < |rest|
          ensures rest[i] != rest[j]
        {
          assert rest[i] == cities[i + 1] && rest[j] == cities[j + 1];
        }
      }
      AppendAllMissing(acc + [cities[0]], rest);
      assert acc + [cities[0]] + rest == acc + cities;
    }
  }

  /** `isRegionChecked`: a group row is checked as soon as one of its cities is selected. */
  predicate IsRegionChecked(selected: seq<string>, value: string, cities: Option<seq<string>>) {
    match cities
    case Some(cs) => exists i :: 0 <= i < |cs| && cs[i] in selected
    case None => value in selected
  }

  /** A single row's checkbox flips on every toggle. */
  lemma SingleToggleFlipsCheckbox(selected: seq<string>, value: string)
    ensures IsRegionChecked(RegionToggle(selected, value, None), value, None)
        == !IsRegionChecked(selected, value, None)
  {
    SingleToggle(selected, value);
  }

  /**
    After a toggle, a group's checkbox is checked exactly when the group was
    not fully selected before. So clicking a partly selected group
    (already shown checked) selects the rest and leaves it checked.
   */
  lemma GroupToggleCheckbox(selected: seq<string>, value: string, cities: seq<string>)
    ensures IsRegionChecked(RegionToggle(selected, value, Some(cities)), value, Some(cities))
        == !AllSelected(selected, cities)
  {
    var r := RegionToggle(selected, value, Some(cities));
    if AllSelected(selected, cities) {
      GroupToggleOff(selected, value, cities);
      forall i | 0 <= i < |cities|
        ensures cities[i] !in r
      {
      }
    } else {
      GroupToggleOn(selected, value, cities);
      assert cities[0] in r;
    }
  }

  /** No city belongs to two groups, and no group lists a city twice. */
  lemma RegionGroupCitiesDisjoint()
    ensures forall i, j :: 0 <= i < j < |RegionGroups| && RegionGroups[i].cities.Some? && RegionGroups[j].cities.Some? ==>
      forall c :: c in RegionGroups[i].cities.value ==> c !in RegionGroups[j].cities.value
    ensures forall i :: 0 <= i < |RegionGroups| && RegionGroups[i].cities.Some? ==>
      NoDuplicates(RegionGroups[i].cities.value)
  {
  }
}
