/**
  The listing's filter-and-sort engine: the criteria record the list keeps in
  its state, the six conjunctive filter clauses, the `latest` and `deadline`
  orders, and `handleReset`.
 */
module MarathonList {
  import opened Seqs
  import opened Sorting
  import opened Text
  import opened Calendar
  import opened MarathonTypes
  import FilterSidebar

  /** A criterion that is either the "all" sentinel or one chosen value. */
  datatype Choice<T> = All | Only(value: T)

  datatype SortKey = Latest | Deadline

  /** The list's filter state (`searchQuery`, `selectedRegions`, ... , `sortBy`). */
  datatype Criteria = Criteria(
    searchQuery: string,
    regions: seq<string>,
    month: Choice<int>,
    status: Choice<MarathonStatus>,
    registration: Choice<RegistrationStatus>,
    distance: Choice<Distance>,
    sortBy: SortKey)

  /** The initial state: no query, no region, every month/status/distance, newest first. */
  const DefaultCriteria: Criteria := Criteria("", [], All, All, All, All, Latest)

  /** Search clause: an empty query passes; otherwise the lowered query must occur in the lowered name, location or region. */
  predicate SearchMatches(query: string, m: Marathon) {
    || query == ""
    || Contains(Lower(m.name), Lower(query))
    || Contains(Lower(m.location), Lower(query))
    || Contains(Lower(m.region), Lower(query))
  }

  /** Region clause: an empty list passes; otherwise the event's region must be listed. */
  predicate RegionMatches(regions: seq<string>, m: Marathon) {
    |regions| == 0 || m.region in regions
  }

  /** A choice clause: "all" passes; otherwise the value must be the chosen one. */
  predicate ChoiceMatches<T(==)>(choice: Choice<T>, v: T) {
    choice.All? || choice.value == v
  }

  /** Distance clause: "all" passes; otherwise the chosen distance must be among the event's. */
  predicate DistanceMatches(distance: Choice<Distance>, m: Marathon) {
    distance.All? || distance.value in m.distances
  }

  /** The body of the `marathons.filter` callback: all six clauses hold. */
  predicate Passes(c: Criteria, m: Marathon) {
    && SearchMatches(c.searchQuery, m)
    && RegionMatches(c.regions, m)
    && ChoiceMatches(c.month, MonthOf(m.date))
    && ChoiceMatches(c.status, m.status)
    && ChoiceMatches(c.registration, m.registrationStatus)
    && DistanceMatches(c.distance, m)
  }

  /**
    `marathons.filter(...)`: an order-preserving subsequence that keeps each
    event exactly as often as it occurs when it passes, and drops it otherwise.
   */
  function FilterMarathons(marathons: seq<Marathon>, c: Criteria): (r: seq<Marathon>)
    ensures IsSubsequence(r, marathons)
    ensures forall m :: m in r <==> m in marathons && Passes(c, m)
    ensures forall m :: multiset(r)[m] == if Passes(c, m) then multiset(marathons)[m] else 0
  {
    var p := (m: Marathon) => Passes(c, m);
    FilterIsSubsequence(marathons, p);
    forall m | true
      ensures multiset(Filter(marathons, p))[m] == if Passes(c, m) then multiset(marathons)[m] else 0
    {
      FilterCounts(marathons, p, m);
    }
    Filter(marathons, p)
  }

  /** The search clause in terms of occurrences: an empty query passes, any other must occur in a lowered field. */
  lemma SearchMatchesIff(query: string, m: Marathon)
    ensures SearchMatches(query, m) <==>
      (|| query == ""
       || OccursIn(Lower(m.name), Lower(query))
       || OccursIn(Lower(m.location), Lower(query))
       || OccursIn(Lower(m.region), Lower(query)))
  {
    ContainsIff(Lower(m.name), Lower(query));
    ContainsIff(Lower(m.location), Lower(query));
    ContainsIff(Lower(m.region), Lower(query));
  }

  /**
    An event survives the filter exactly when it is an input event and every
    active criterion accepts it: the lowered query occurs in its lowered name,
    location or region; its region is selected; its month, status and
    registration status are the chosen ones; and it offers the chosen distance.
   */
  lemma FilterKeepsExactlyMatching(marathons: seq<Marathon>, c: Criteria, m: Marathon)
    ensures m in FilterMarathons(marathons, c) <==>
      && m in marathons
      && (|| c.searchQuery == []
          || OccursIn(Lower(m.name), Lower(c.searchQuery))
          || OccursIn(Lower(m.location), Lower(c.searchQuery))
          || OccursIn(Lower(m.region), Lower(c.searchQuery)))
      && (c.regions == [] || m.region in c.regions)
      && (c.month.Only? ==> MonthOf(m.date) == c.month.value)
      && (c.status.Only? ==> m.status == c.status.value)
      && (c.registration.Only? ==> m.registrationStatus == c.registration.value)
      && (c.distance.Only? ==> c.distance.value in m.distances)
  {
    SearchMatchesIff(c.searchQuery, m);
  }

  /** `latest`: the comparator `b.date - a.date`, newest event first. */
  function LatestCompare(a: Marathon, b: Marathon): int {
    b.date - a.date
  }

  predicate IsOpen(m: Marathon) {
    m.registrationStatus == Open
  }

  /** `deadline`: open registrations first, then the earliest registration end. */
  function DeadlineCompare(a: Marathon, b: Marathon): int {
    if IsOpen(a) && !IsOpen(b) then -1
    else if !IsOpen(a) && IsOpen(b) then 1
    else a.registrationEnd - b.registrationEnd
  }

  /** `a` may precede `b` under the comparator of `key`: it does not compare greater. */
  function Precedes(key: SortKey): (Marathon, Marathon) -> bool {
    match key
    case Latest => (a: Marathon, b: Marathon) => LatestCompare(a, b) <= 0
    case Deadline => (a: Marathon, b: Marathon) => DeadlineCompare(a, b) <= 0
  }

  /** Both comparators sort consistently. */
  lemma PrecedesIsTotalPreorder(key: SortKey)
    ensures TotalPreorder(Precedes(key))
  {
  }

  /** Sorted by the `latest` comparator: dates never increase. */
  lemma LatestOrder(r: seq<Marathon>)
    requires Sorted(r, Precedes(Latest))
    ensures forall i, j :: 0 <= i < j < |r| ==> r[i].date >= r[j].date
  {
    forall i, j | 0 <= i < j < |r|
      ensures r[i].date >= r[j].date
    {
      assert Precedes(Latest)(r[i], r[j]);
    }
  }

  /** Sorted by the `deadline` comparator: open events first, ends ascending within each group. */
  lemma DeadlineOrder(r: seq<Marathon>)
    requires Sorted(r, Precedes(Deadline))
    ensures forall i, j :: 0 <= i < j < |r| && IsOpen(r[j]) ==> IsOpen(r[i])
    ensures forall i, j :: 0 <= i < j < |r| && IsOpen(r[i]) == IsOpen(r[j]) ==>
      r[i].registrationEnd <= r[j].registrationEnd
  {
    forall i, j | 0 <= i < j < |r|
      ensures IsOpen(r[j]) ==> IsOpen(r[i])
      ensures IsOpen(r[i]) == IsOpen(r[j]) ==> r[i].registrationEnd <= r[j].registrationEnd
    {
      assert Precedes(Deadline)(r[i], r[j]);
    }
  }

  /**
    `filteredAndSortedMarathons`: the filtered events, reordered. It is a
    permutation of the filtered list; under `latest` dates never increase
    along it, and under `deadline` every open event comes before every other
    one and registration ends never decrease within each of the two groups.
   */
  function FilteredAndSorted(marathons: seq<Marathon>, c: Criteria): (r: seq<Marathon>)
    ensures multiset(r) == multiset(FilterMarathons(marathons, c))
    ensures c.sortBy == Latest ==>
      forall i, j :: 0 <= i < j < |r| ==> r[i].date >= r[j].date
    ensures c.sortBy == Deadline ==>
      forall i, j :: 0 <= i < j < |r| && IsOpen(r[j]) ==> IsOpen(r[i])
    ensures c.sortBy == Deadline ==>
      forall i, j :: 0 <= i < j < |r| && IsOpen(r[i]) == IsOpen(r[j]) ==>
        r[i].registrationEnd <= r[j].registrationEnd
  {
    var filtered := FilterMarathons(marathons, c);
    var le := Precedes(c.sortBy);
    PrecedesIsTotalPreorder(c.sortBy);
    SortBySorted(filtered, le);
    var r := SortBy(filtered, le);
    if c.sortBy == Latest then LatestOrder(r); r else DeadlineOrder(r); r
  }

  /**
    The sort is stable: the events the comparator ties with any `z` appear in
    the output in the order the filter produced them.
   */
  lemma FilteredAndSortedStable(marathons: seq<Marathon>, c: Criteria, z: Marathon)
    ensures var tied := TiedWith(Precedes(c.sortBy), z);
      Filter(FilteredAndSorted(marathons, c), tied) == Filter(FilterMarathons(marathons, c), tied)
  {
    PrecedesIsTotalPreorder(c.sortBy);
    SortByStable(FilterMarathons(marathons, c), Precedes(c.sortBy), z);
  }

  /** `handleReset`: every filter goes back to its default; the sort order is kept. */
  function Reset(c: Criteria): (r: Criteria)
    ensures r.sortBy == c.sortBy
    ensures r.(sortBy := DefaultCriteria.sortBy) == DefaultCriteria
    ensures forall m :: Passes(r, m)
  {
    DefaultCriteria.(sortBy := c.sortBy)
  }

  /** After a reset the filter keeps every event, in input order. */
  lemma ResetShowsEverything(marathons: seq<Marathon>, c: Criteria)
    ensures FilterMarathons(marathons, Reset(c)) == marathons
  {
    FilterKeepsAll(marathons, (m: Marathon) => Passes(Reset(c), m));
  }

  /** With the initial criteria the listing shows every event, newest first. */
  lemma DefaultListsEverything(marathons: seq<Marathon>)
    ensures multiset(FilteredAndSorted(marathons, DefaultCriteria)) == multiset(marathons)
  {
    ResetShowsEverything(marathons, DefaultCriteria);
  }

  /** `c2` constrains at least as much as `c1`: each clause of `c1` that is active is active in `c2`, at least as narrowly. */
  predicate AtLeastAsStrict(c2: Criteria, c1: Criteria) {
    && (c1.searchQuery == "" || c2.searchQuery == c1.searchQuery)
    && (c1.regions == [] || (c2.regions != [] && forall x :: x in c2.regions ==> x in c1.regions))
    && (c1.month.All? || c2.month == c1.month)
    && (c1.status.All? || c2.status == c1.status)
    && (c1.registration.All? || c2.registration == c1.registration)
    && (c1.distance.All? || c2.distance == c1.distance)
  }

  /** Narrowing the criteria can only remove events from the filtered list. */
  lemma FilterMonotone(marathons: seq<Marathon>, c1: Criteria, c2: Criteria)
    requires AtLeastAsStrict(c2, c1)
    ensures forall m :: m in FilterMarathons(marathons, c2) ==> m in FilterMarathons(marathons, c1)
  {
    forall m | m in FilterMarathons(marathons, c2)
      ensures m in FilterMarathons(marathons, c1)
    {
      StricterPasses(c1, c2, m);
    }
  }

  /** An event that passes stricter criteria passes the looser ones. */
  lemma StricterPasses(c1: Criteria, c2: Criteria, m: Marathon)
    requires AtLeastAsStrict(c2, c1) && Passes(c2, m)
    ensures Passes(c1, m)
  {
    if c1.regions != [] {
      assert m.region in c2.regions;
    }
  }

  /** Selecting the regions of two lists shows the union of what each list shows on its own. */
  lemma RegionSelectionIsUnion(marathons: seq<Marathon>, c: Criteria, rs1: seq<string>, rs2: seq<string>, m: Marathon)
    requires rs1 != [] && rs2 != []
    ensures m in FilterMarathons(marathons, c.(regions := rs1 + rs2)) <==>
      m in FilterMarathons(marathons, c.(regions := rs1)) || m in FilterMarathons(marathons, c.(regions := rs2))
  {
    var both := FilterMarathons(marathons, c.(regions := rs1 + rs2));
    var one := FilterMarathons(marathons, c.(regions := rs1));
    var two := FilterMarathons(marathons, c.(regions := rs2));
    assert m in both <==> multiset(both)[m] > 0;
    assert m in one <==> multiset(one)[m] > 0;
    assert m in two <==> multiset(two)[m] > 0;
  }

  /**
    A group row's badge counts exactly the events the list shows when only
    that group's cities are selected.
   */
  lemma GroupCountMatchesList(marathons: seq<Marathon>, value: string, cities: seq<string>)
    requires cities != []
    ensures FilterSidebar.RegionCount(marathons, value, Some(cities))
         == |FilterMarathons(marathons, DefaultCriteria.(regions := cities))|
  {
    var c := DefaultCriteria.(regions := cities);
    FilterExtensional(marathons, (m: Marathon) => m.region in cities, (m: Marathon) => Passes(c, m));
  }

  /** A single row's badge counts exactly the events the list shows when only that region is selected. */
  lemma SingleCountMatchesList(marathons: seq<Marathon>, value: string)
    ensures FilterSidebar.RegionCount(marathons, value, None)
         == |FilterMarathons(marathons, DefaultCriteria.(regions := [value]))|
  {
    var c := DefaultCriteria.(regions := [value]);
    FilterExtensional(marathons, (m: Marathon) => m.region == value, (m: Marathon) => Passes(c, m));
  }

  /**
    With only a month chosen, of a May event and a March event just the May
    event remains.
   */
  lemma MonthScenario(a: Marathon, b: Marathon)
    requires MonthOf(a.date) == 5 && MonthOf(b.date) == 3
    ensures FilterMarathons([a, b], DefaultCriteria.(month := Only(5))) == [a]
  {
    var c := DefaultCriteria.(month := Only(5));
    var p := (m: Marathon) => Passes(c, m);
    assert Passes(c, a) && !Passes(c, b);
    assert [a, b][1..] == [b] && [b][1..] == [];
    assert Filter([b], p) == [];
    assert Filter([a, b], p) == [a] + Filter([b], p);
  }

  /**
    With only the 5K distance chosen, of a full-marathon-only event and a
    5K-only event just the 5K event remains.
   */
  lemma DistanceScenario(a: Marathon, b: Marathon)
    requires a.distances == [Full] && b.distances == [FiveK]
    ensures FilterMarathons([a, b], DefaultCriteria.(distance := Only(FiveK))) == [b]
  {
    var c := DefaultCriteria.(distance := Only(FiveK));
    assert !Passes(c, a) && Passes(c, b);
    assert [a, b][1..] == [b];
  }

  /** Searching for a region name finds an event of that region whatever its name and location. */
  lemma SearchFindsRegion(marathons: seq<Marathon>, a: Marathon)
    requires a in marathons && a.region == "서울"
    ensures a in FilterMarathons(marathons, DefaultCriteria.(searchQuery := "서울"))
  {
    var q: string := "서울";
    LowerFixesUncapitalised(q);
    assert OccursAt(Lower(a.region), Lower(q), 0);
    SearchMatchesIff(q, a);
  }
}
