# RunPick listing core in Dafny

RunPick lists Korean marathon events. This project models the part of it
that decides what the listing shows:

- the **record store** (`src/data/mockMarathons.ts`). It turns scraped race
  records into events. It derives the distance categories from the free-text
  race-type listing and the event and registration statuses from "now". It
  builds an id from the detail-page URL and the record's position, and fills
  the fields the scrape lacks with fixed defaults.
- the **filter-and-sort engine** of the list (`src/components/home/MarathonList.tsx`).
  It applies six conjunctive clauses (search text, regions, month, status,
  registration status, distance), then one of two orders, `latest` and
  `deadline`. It also models the reset handler.
- the **region checkboxes** of the sidebar (`src/components/home/FilterSidebar.tsx`).
  This covers the region table with its city groups, the per-row event count,
  the toggle that edits the selected-region list, and the checked state of a
  row.
- the **card countdowns** (`src/components/home/MarathonCard.tsx`). These are
  the "D-n" badge and the days-left text, both counted in whole days rounded
  up from the fixed date 2026-02-07, and the condition for the closing-soon
  banner.

The files follow the modules:

| file | module | contents |
|---|---|---|
| `seqs.dfy` | `Seqs` | order-preserving `Filter` (JavaScript `Array.prototype.filter`), subsequences, duplicate-freedom |
| `sorting.dfy` | `Sorting` | a stable insertion sort, parameterised by a "may precede" relation |
| `text.dfy` | `Text` | ASCII lower-casing, `includes`, decimal rendering |
| `calendar.dfy` | `Calendar` | instants in milliseconds, floor and ceiling day counts, the UTC month |
| `marathon_types.dfy` | `MarathonTypes` | the `Marathon` record and its enumerations |
| `mock_marathons.dfy` | `MockMarathons` | the record store |
| `filter_sidebar.dfy` | `FilterSidebar` | the region checkboxes |
| `marathon_list.dfy` | `MarathonList` | the filter criteria, the filter, the two orders, reset |
| `marathon_card.dfy` | `MarathonCard` | the two countdowns and the banner condition |

Modelling choices:

- Dates are integers: milliseconds since 1970-01-01T00:00:00Z, as `getTime()` returns them.
- "Now" is a parameter of the record builder.
- The random participant count is a parameter `roll` in `[0, 3000)`, standing for `Math.floor(Math.random() * 3000)`.
- The JavaScript `sort` calls are modelled as one stable sort driven by each comparator's sign.
- The month criterion is `Choice<int>`, with `All` for the `"all"` sentinel.

The model follows the code on three points where a cleaner rule might be expected:

- Distances are not required to be non-empty. A race-type text that matches no keyword yields an empty list (`ParseDistancesEmptyIff`).
- `registrationStart <= registrationEnd` is not assumed. An inverted window is simply never open (`InvertedWindowNeverOpen`).
- Two day-count rules are both kept, because the code has both. The status uses the floor of the day difference to the current instant. The card badge uses the ceiling of the day difference to 2026-02-07. `BadgeAndStatusDisagree` shows an event on which they differ.

## Model

| member | source | states |
|---|---|---|
| Calendar.DaysFloor | src/data/mockMarathons.ts:15-17 | the floored day count `d` is the unique integer with `d` whole days at most the difference and `d + 1` days more than it |
| Calendar.DaysCeil | src/components/home/MarathonCard.tsx:39 | the ceiling day count `d` is the unique integer with `d - 1` whole days less than the difference and `d` days at least it |
| Calendar.MonthOf | src/components/home/MarathonList.tsx:55 | `getMonth() + 1` is a month number from 1 to 12 |
| Text.ContainsIff | src/components/home/MarathonList.tsx:37-39 | `includes` succeeds exactly when the pattern occurs at some index of the text; the empty pattern occurs everywhere |
| Text.NatToStringInjective | src/data/mockMarathons.ts:64 | distinct indices render as distinct decimal strings |
| MockMarathons.CalculateStatus | src/data/mockMarathons.ts:12-22 | an event is upcoming when at least one full day ahead, ongoing during the 24 hours up to and including the event instant, and ended once that instant has passed; exactly one holds |
| MockMarathons.RaceDateStatusInKorea | src/data/mockMarathons.ts:12-22 | a date-only race date is read as midnight UTC (09:00 in Korea), so the race is already ongoing at noon Korean time on the day before and ended just after 09:00 on race day |
| MockMarathons.CalculateRegistrationStatus | src/data/mockMarathons.ts:24-35 | registration is open on the closed window `[start, end]`, before it when now precedes start, and closed when now is past end but not before start |
| MockMarathons.InvertedWindowNeverOpen | src/data/mockMarathons.ts:32-34 | a window whose end precedes its start is never open |
| MockMarathons.ContainsAnyIff | src/data/mockMarathons.ts:43-55 | a chain of `includes` tests joined by "or" succeeds exactly when some keyword of the list occurs |
| MockMarathons.ParseDistances | src/data/mockMarathons.ts:38-59 | the result is a subsequence of the fixed order 5K, 10K, Half, Full, Ultra in which the tests run |
| MockMarathons.ParseDistancesMatchesKeywords | src/data/mockMarathons.ts:43-56 | a category is listed exactly when one of its keywords occurs in the lowered text |
| MockMarathons.ParseDistancesEmptyIff | src/data/mockMarathons.ts:38-58 | the list is empty exactly when no keyword of any category occurs; emptiness is not prevented |
| MockMarathons.ParseDistancesNoDuplicates | src/data/mockMarathons.ts:38-58 | no category is listed twice |
| MockMarathons.KilometreKeywordsRedundant | src/data/mockMarathons.ts:43-46 | a text containing "5km" or "10km" also contains "5k" or "10k", so the longer keywords never decide alone |
| MockMarathons.FullMarathonLengthReadsAsFiveK | src/data/mockMarathons.ts:43-44 | the text "42.195km" is tagged 5K, because keyword matching is plain substring search |
| MockMarathons.Description | src/data/mockMarathons.ts:82 | a present non-empty intro becomes the description; a missing or empty one gives the fixed fallback text |
| MockMarathons.MakeIdInjective | src/data/mockMarathons.ts:64 | ids built for different positions differ even when the detail URLs are equal |
| MockMarathons.ToMarathon | src/data/mockMarathons.ts:62-93 | each event copies its record's name, place (as location and course), region, dates, homepage and host, carries the parsed distances, the derived statuses, the description fallback and the fixed defaults (5000 seats, no fees, no image, the two default benefits), and has between 1000 and 3999 participants |
| MockMarathons.LoadMarathons | src/data/mockMarathons.ts:62-93 | one event per record in the same order, each built from its own record and position exactly as the single-record mapping builds it: name, place (as location and course), region, dates, homepage and host copied, the fixed defaults (5000 seats, no fees, no image, the two default benefits), distances parsed from the race-type text, both statuses derived from the current instant, the intro or the fallback description, and a participant count in 1000-3999; ids are pairwise distinct |
| FilterSidebar.RegionCount | src/components/home/FilterSidebar.tsx:103-111 | a row's count never exceeds the number of events and is zero for no events |
| FilterSidebar.AppendMissing | src/components/home/FilterSidebar.tsx:125-130 | the old list stays as a prefix; afterwards every city is present; the appended part holds only cities that were missing, once each, as a subsequence of the group (so in group order for a group that repeats no city, as every configured group is proved not to) |
| FilterSidebar.RegionToggle | src/components/home/FilterSidebar.tsx:114-141 | a toggle never introduces a duplicate into a duplicate-free selection |
| FilterSidebar.SingleToggle | src/components/home/FilterSidebar.tsx:134-139 | a selected region is removed everywhere, with other regions keeping their counts and order; an unselected one is appended |
| FilterSidebar.SingleToggleRoundTrip | src/components/home/FilterSidebar.tsx:134-139 | selecting an unselected region and toggling it again restores the list |
| FilterSidebar.GroupToggleOff | src/components/home/FilterSidebar.tsx:117-122 | a fully selected group is removed exactly, with other regions keeping their counts and order |
| FilterSidebar.GroupToggleOn | src/components/home/FilterSidebar.tsx:123-131 | a partly selected group has just its missing cities appended, once each and as a subsequence of the group (in group order when the group repeats no city), after which all are selected |
| FilterSidebar.GroupToggleAppendsAll | src/components/home/FilterSidebar.tsx:123-131 | toggling a duplicate-free group none of whose cities is selected appends the group exactly as listed, the empty group included |
| FilterSidebar.AppendAllMissing | src/components/home/FilterSidebar.tsx:125-130 | distinct cities none of which is selected are appended exactly as listed |
| FilterSidebar.GroupToggleRoundTrip | src/components/home/FilterSidebar.tsx:114-132 | toggling a group none of whose cities is selected twice restores the list, repeated cities included |
| FilterSidebar.SingleToggleFlipsCheckbox | src/components/home/FilterSidebar.tsx:134-149 | a single row's checkbox flips on every toggle |
| FilterSidebar.GroupToggleCheckbox | src/components/home/FilterSidebar.tsx:114-149 | after a toggle a group row is checked exactly when the group was not fully selected before |
| FilterSidebar.RegionGroupCitiesDisjoint | src/components/home/FilterSidebar.tsx:26-39 | no city belongs to two groups and no group lists a city twice |
| MarathonList.FilterMarathons | src/components/home/MarathonList.tsx:32-83 | the result is an order-preserving subsequence holding each passing event as often as the input does and no other event |
| MarathonList.SearchMatchesIff | src/components/home/MarathonList.tsx:34-43 | an empty query passes; any other passes exactly when the lowered query occurs in the lowered name, location or region |
| MarathonList.FilterKeepsExactlyMatching | src/components/home/MarathonList.tsx:32-83 | an event is shown exactly when it is an input event and all six clauses accept it, each clause written out |
| MarathonList.PrecedesIsTotalPreorder | src/components/home/MarathonList.tsx:86-104 | both comparators induce a total preorder, so sorting by them is well defined |
| Sorting.SortBySorted | src/components/home/MarathonList.tsx:86-104 | sorting by a total preorder yields a list in which every element may precede every later one |
| Sorting.SortByStable | src/components/home/MarathonList.tsx:86-104 | elements the comparator ties keep their relative order |
| MarathonList.LatestOrder | src/components/home/MarathonList.tsx:86-89 | sorted by `latest`, dates never increase |
| MarathonList.DeadlineOrder | src/components/home/MarathonList.tsx:90-103 | sorted by `deadline`, every open event precedes every other event and registration ends never decrease within each group |
| MarathonList.FilteredAndSorted | src/components/home/MarathonList.tsx:31-106 | the output is a permutation of the filtered events, ordered as the chosen key demands |
| MarathonList.FilteredAndSortedStable | src/components/home/MarathonList.tsx:86-104 | events the chosen comparator ties appear in the output in filter order |
| MarathonList.Reset | src/components/home/MarathonList.tsx:124-131 | reset restores every filter to its initial value, keeps the sort key, and accepts every event |
| MarathonList.ResetShowsEverything | src/components/home/MarathonList.tsx:124-131 | after a reset the filter returns the input unchanged |
| MarathonList.DefaultListsEverything | src/components/home/MarathonList.tsx:16-28 | with the initial state every input event is listed, each exactly as often |
| MarathonList.FilterMonotone | src/components/home/MarathonList.tsx:32-83 | narrowing the criteria only removes events |
| MarathonList.StricterPasses | src/components/home/MarathonList.tsx:32-83 | an event that passes criteria at least as strict passes the looser ones |
| MarathonList.RegionSelectionIsUnion | src/components/home/MarathonList.tsx:46-51 | selecting two non-empty region lists shows the union of what each shows alone |
| MarathonList.GroupCountMatchesList | src/components/home/FilterSidebar.tsx:106-108 | a non-empty group row's count equals the number of events listed when only its cities are selected |
| MarathonList.SingleCountMatchesList | src/components/home/FilterSidebar.tsx:110 | a single row's count equals the number of events listed when only that region is selected |
| MarathonList.MonthScenario | src/components/home/MarathonList.tsx:53-59 | choosing May keeps a May event and drops a March event |
| MarathonList.DistanceScenario | src/components/home/MarathonList.tsx:74-80 | choosing 5K keeps a 5K-only event and drops a full-only event |
| MarathonList.SearchFindsRegion | src/components/home/MarathonList.tsx:34-43 | searching "서울" finds an event whose region is 서울 whatever its name and location |
| MarathonCard.OnDayUnique | src/components/home/MarathonCard.tsx:38-39 | each instant lies in exactly one countdown day, the ceiling of its day difference from 2026-02-07 |
| MarathonCard.Dday | src/components/home/MarathonCard.tsx:35-44 | the badge reads "종료" exactly when the event is a full day or more before the reference date, and "D-Day" exactly when it lies in the day up to the reference instant |
| MarathonCard.DdayCountsDown | src/components/home/MarathonCard.tsx:41-43 | for each positive `n` the badge reads "D-n" exactly when the event lies in countdown day `n` |
| MarathonCard.DdayDeterminesDay | src/components/home/MarathonCard.tsx:35-44 | two events with the same badge that have not ended lie in the same countdown day |
| MarathonCard.BadgeAndStatusDisagree | src/components/home/MarathonCard.tsx:38-42 | half a day before the reference date an event is already `Ended` by status but shows "D-Day" |
| MarathonCard.RegistrationDaysLeft | src/components/home/MarathonCard.tsx:47-57 | nothing when the end is a day or more past or more than seven days ahead; "오늘 마감" exactly in day 0; a present text is never empty |
| MarathonCard.DaysLeftCountsDown | src/components/home/MarathonCard.tsx:53-55 | for each `n` from 1 to 7 the text reads "n일 남음" exactly when the end lies in countdown day `n` |
| MarathonCard.DeadlineBannerIff | src/components/home/MarathonCard.tsx:92 | the banner shows exactly when registration is open and its end lies after the start of day 0 and no more than seven days past the reference instant |

## Left out

- Rendering: JSX, styling, icons, the detail page, header, footer, the `FilterBar` component, the mobile drawer and the month/status/distance selector tables are display code and are not modelled.
- React state and hooks: `useState`/`useMemo` become the immutable `Criteria` value and pure functions. `handleFilterChange` only calls its argument and is not modelled.
- Date strings: `new Date(string)` parsing is not modelled. Records carry instants already.
- Calendar.MonthOf: proves only that the month is in 1 to 12. It is computed in UTC, while `getMonth()` uses the host's time zone. The calendar arithmetic is not proved against an independent calendar.
- The month criterion is an integer compared with the event's month. The source compares `month.toString()` with the selected string, which agrees for the selector's values "1" to "12".
- Text.Lower: lower-cases ASCII letters only. `toLowerCase` also folds non-ASCII letters. Hangul has no case, so Korean keywords and region names are unaffected.
- The random participant count is the parameter `roll`, because `Math.random` is outside the model.
- One `now` serves both status derivations of a record. The source reads the clock separately in each call.
- Record fields that the listing never reads (`raceStart`, `phone`, `email`, `regionCategory`, `fares`) are not in `RawRace`. The JSON import is not modelled.
- The guard `!marathons` in `getRegionCount` is not modelled, because the model has no null list. The empty-list branch is modelled.
- Sorting: the stable insertion sort stands in for the engine's `Array.prototype.sort`. ECMAScript has required that sort to be stable since 2019. Sorting happens on the filtered copy, as in the source.
- FilterSidebar.RegionCount: its own contract gives only the bounds. The exact count is stated by `MarathonList.GroupCountMatchesList` and `MarathonList.SingleCountMatchesList`.
- The month scenario takes the events' months as hypotheses, because evaluating `MonthOf` on concrete 2026 dates is too costly for the verifier.
