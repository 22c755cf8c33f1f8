/**
  The record store: turns the scraped race records into `Marathon` values,
  deriving the distance categories from free text and the two statuses from
  "now", and synthesising a unique id per position.
 */
module MockMarathons {
  import opened Calendar
  import opened Text
  import opened Seqs
  import opened MarathonTypes

  /** One scraped race record, with its dates already read as instants. */
  datatype RawRace = RawRace(
    raceName: string,
    raceDate: Instant,
    region: string,
    place: string,
    raceTypeList: string,
    applicationStartDate: Instant,
    applicationEndDate: Instant,
    host: string,
    homepageUrl: string,
    raceDetailUrl: string,
    intro: Option<string>)

  /**
    `calculateStatus`: the whole days from `now` to the event, rounded down,
    are positive (upcoming), zero (ongoing) or negative (ended). So the event
    is upcoming while it is at least one full day ahead, ongoing during the 24
    hours up to and including the event instant, and ended once that instant
    has passed.
   */
  function CalculateStatus(eventDate: Instant, now: Instant): (r: MarathonStatus)
    ensures r == Upcoming <==> eventDate - now >= MsPerDay
    ensures r == Ongoing <==> 0 <= eventDate - now < MsPerDay
    ensures r == Ended <==> eventDate < now
  {
    var diffDays := DaysFloor(eventDate - now);
    if diffDays > 0 then Upcoming
    else if diffDays == 0 then Ongoing
    else Ended
  }

  /** Korean time is UTC+9: midnight UTC is 09:00 in Korea. */
  const KoreaOffset: int := 9 * 60 * 60 * 1000

  /**
    A date-only race date is read as midnight UTC, 09:00 on race day in Korea.
    So the race already counts as ongoing at noon on the day before its date,
    and as ended from just after 09:00 on race day.
   */
  lemma RaceDateStatusInKorea(day: int)
    ensures var eventDate := day * MsPerDay;
      var noonDayBefore := eventDate - KoreaOffset - MsPerDay + 12 * 60 * 60 * 1000;
      && CalculateStatus(eventDate, noonDayBefore) == Ongoing
      && CalculateStatus(eventDate, eventDate + 1) == Ended
      && CalculateStatus(eventDate, eventDate - MsPerDay) == Upcoming
  {
  }

  /**
    `calculateRegistrationStatus`: open on the closed window [start, end],
    before it when `now < start` (checked first) and closed after it.
   */
  function CalculateRegistrationStatus(start: Instant, end: Instant, now: Instant): (r: RegistrationStatus)
    ensures r == Open <==> start <= now <= end
    ensures r == Before <==> now < start
    ensures r == Closed <==> start <= now && end < now
  {
    if now < start then Before
    else if now > end then Closed
    else Open
  }

  /** A window whose end precedes its start is never open: every instant is before or after it. */
  lemma InvertedWindowNeverOpen(start: Instant, end: Instant, now: Instant)
    requires end < start
    ensures CalculateRegistrationStatus(start, end, now) != Open
  {
  }

  /** The keywords whose presence in the lowered race-type text selects a category. */
  function Keywords(d: Distance): seq<string> {
    match d
    case FiveK => ["5km", "5k"]
    case TenK => ["10km", "10k"]
    case Half => ["하프", "half"]
    case Full => ["풀", "full"]
    case Ultra => ["울트라", "100km", "50km"]
  }

  /** The categories in the order `parseDistances` tests them. */
  const Categories: seq<Distance> := [FiveK, TenK, Half, Full, Ultra]

  /** The category list names every category. */
  lemma CategoriesComplete(d: Distance)
    ensures d in Categories
  {
  }

  /** The category list names no category twice. */
  lemma CategoriesDistinct()
    ensures NoDuplicates(Categories)
  {
  }

  /** Some keyword of `d` occurs in `text`. */
  ghost predicate Mentions(text: string, d: Distance) {
    exists k :: k in Keywords(d) && Contains(text, k)
  }

  /** `text.includes(k1) || text.includes(k2) || ...`, tested left to right. */
  predicate ContainsAny(text: string, keywords: seq<string>)
    decreases |keywords|
  {
    |keywords| > 0 && (Contains(text, keywords[0]) || ContainsAny(text, keywords[1..]))
  }

  lemma {:induction false} ContainsAnyIff(text: string, keywords: seq<string>)
    ensures ContainsAny(text, keywords) <==> exists k :: k in keywords && Contains(text, k)
    decreases |keywords|
  {
    if |keywords| > 0 {
      ContainsAnyIff(text, keywords[1..]);
      if k :| k in keywords && Contains(text, k) {
        if k != keywords[0] {
          assert k in keywords[1..];
        }
      }
    }
  }

  /** The test of one `if (...) distances.push(d)` step: some keyword of `d` occurs in `text`. */
  function Tested(text: string): Distance -> bool {
    d => ContainsAny(text, Keywords(d))
  }

  /**
    `parseDistances`: the five `if` tests run in category order on the lowered
    text, each pushing its category when it succeeds, so the result is the
    list of categories whose test succeeds, in category order.
   */
  function ParseDistances(raceTypeList: string): (r: seq<Distance>)
    ensures IsSubsequence(r, Categories)
  {
    FilterIsSubsequence(Categories, Tested(Lower(raceTypeList)));
    Filter(Categories, Tested(Lower(raceTypeList)))
  }

  /**
    A category is listed exactly when one of its keywords occurs in the
    lowered text.
   */
  lemma ParseDistancesMatchesKeywords(raceTypeList: string, d: Distance)
    ensures d in ParseDistances(raceTypeList) <==> Mentions(Lower(raceTypeList), d)
  {
    CategoriesComplete(d);
    ContainsAnyIff(Lower(raceTypeList), Keywords(d));
  }

  /** The list is empty exactly when no keyword of any category occurs in the lowered text. */
  lemma ParseDistancesEmptyIff(raceTypeList: string)
    ensures ParseDistances(raceTypeList) == [] <==> forall d: Distance :: !Mentions(Lower(raceTypeList), d)
  {
    var r := ParseDistances(raceTypeList);
    forall d: Distance
      ensures d in r <==> Mentions(Lower(raceTypeList), d)
    {
      ParseDistancesMatchesKeywords(raceTypeList, d);
    }
    if r != [] {
      var d0 := r[0];
      assert d0 in r;
      assert Mentions(Lower(raceTypeList), d0);
      assert exists d: Distance :: Mentions(Lower(raceTypeList), d);
      assert ParseDistances(raceTypeList) != [];
    } else {
      assert forall d: Distance :: !Mentions(Lower(raceTypeList), d);
    }
  }

  /** The parsed categories never repeat. */
  lemma ParseDistancesNoDuplicates(raceTypeList: string)
    ensures NoDuplicates(ParseDistances(raceTypeList))
  {
    CategoriesDistinct();
    SubsequenceNoDuplicates(ParseDistances(raceTypeList), Categories);
  }

  /**
    The "km" spellings add nothing: "5km" contains "5k" and "10km" contains
    "10k", so the shorter keyword alone decides 5K and 10K.
   */
  lemma KilometreKeywordsRedundant(text: string)
    ensures Contains(text, "5km") ==> Contains(text, "5k")
    ensures Contains(text, "10km") ==> Contains(text, "10k")
  {
    if Contains(text, "5km") {
      PrefixOccurs(text, "5k", "5km");
    }
    if Contains(text, "10km") {
      PrefixOccurs(text, "10k", "10km");
    }
  }

  /**
    Keyword matching is plain substring search: a race listed only by the
    full-marathon length "42.195km" is put in the 5K category, because the
    text contains "5km".
   */
  lemma FullMarathonLengthReadsAsFiveK(raceTypeList: string)
    requires raceTypeList == "42.195km"
    ensures FiveK in ParseDistances(raceTypeList)
  {
    LowerFixesUncapitalised(raceTypeList);
    assert OccursAt(raceTypeList, "5km", 5);
    ContainsIff(raceTypeList, "5km");
    assert "5km" in Keywords(FiveK);
    ParseDistancesMatchesKeywords(raceTypeList, FiveK);
  }

  /** The description shown when a record has no (or an empty) intro. */
  const NoDescription: string := "상세 정보가 없습니다."

  /** `data.intro || "상세 정보가 없습니다."`: a missing or empty intro falls back to the fixed text. */
  function Description(intro: Option<string>): (r: string)
    ensures intro.Some? && intro.value != "" ==> r == intro.value
    ensures intro.None? || intro.value == "" ==> r == NoDescription
  {
    match intro
    case Some(text) => if text != "" then text else NoDescription
    case None => NoDescription
  }

  /** The id `${raceDetailUrl}-${index}`. */
  function MakeId(url: string, index: nat): string {
    url + "-" + NatToString(index)
  }

  /** If two strings end in "-" followed by dash-free suffixes, those suffixes agree. */
  lemma DashSuffixDetermined(a: string, x: string, b: string, y: string)
    requires '-' !in x && '-' !in y
    requires a + "-" + x == b + "-" + y
    ensures x == y
  {
    var s := a + "-" + x;
    assert s == b + "-" + y;
    var p := |s| - 1 - |x|;
    var q := |s| - 1 - |y|;
    assert s[p] == '-' && s[q] == '-';
    assert forall i :: p < i < |s| ==> s[i] == x[i - p - 1];
    assert forall i :: q < i < |s| ==> s[i] == y[i - q - 1];
    assert p == q;
    assert x == s[p + 1..] == y;
  }

  /** Ids built for different positions differ, whatever the URLs are (repeated URLs included). */
  lemma MakeIdInjective(url1: string, i: nat, url2: string, j: nat)
    requires i != j
    ensures MakeId(url1, i) != MakeId(url2, j)
  {
    var x := NatToString(i);
    var y := NatToString(j);
    if MakeId(url1, i) == MakeId(url2, j) {
      assert '-' !in x && '-' !in y;
      DashSuffixDetermined(url1, x, url2, y);
      NatToStringInjective(i, j);
    }
  }

  /** The seat count given to every record. */
  const MaxParticipants: int := 5000

  /** The benefits given to every record. */
  const DefaultBenefits: seq<string> := ["완주 메달", "모바일 기록증"]

  /**
    The fields every record gets regardless of its data: 5000 seats, no entry
    fees, no image and the default benefits.
   */
  predicate HasDefaultExtras(m: Marathon) {
    && m.maxParticipants == MaxParticipants
    && m.entryFee == map[]
    && m.image == ""
    && m.benefits == DefaultBenefits
  }

  /**
    The mapping callback for the record at position `index`. `roll` stands
    for `Math.floor(Math.random() * 3000)`, which is outside the model.
   */
  function ToMarathon(data: RawRace, index: nat, now: Instant, roll: int): (m: Marathon)
    requires 0 <= roll < 3000
    ensures m.id == data.raceDetailUrl + "-" + NatToString(index)
    ensures m.name == data.raceName && m.location == data.place && m.region == data.region
    ensures m.website == data.homepageUrl && m.organizer == data.host && m.course == data.place
    ensures HasDefaultExtras(m)
    ensures m.date == data.raceDate
    ensures m.registrationStart == data.applicationStartDate
    ensures m.registrationEnd == data.applicationEndDate
    ensures m.distances == ParseDistances(data.raceTypeList)
    ensures 1000 <= m.currentParticipants < 4000
    ensures m.description == Description(data.intro)
    ensures m.status == CalculateStatus(data.raceDate, now)
    ensures m.registrationStatus == CalculateRegistrationStatus(data.applicationStartDate, data.applicationEndDate, now)
  {
    Marathon(
      id := MakeId(data.raceDetailUrl, index),
      name := data.raceName,
      location := data.place,
      region := data.region,
      date := data.raceDate,
      registrationStart := data.applicationStartDate,
      registrationEnd := data.applicationEndDate,
      distances := ParseDistances(data.raceTypeList),
      maxParticipants := MaxParticipants,
      currentParticipants := roll + 1000,
      entryFee := map[],
      image := "",
      description := Description(data.intro),
      website := data.homepageUrl,
      organizer := data.host,
      course := data.place,
      benefits := DefaultBenefits,
      status := CalculateStatus(data.raceDate, now),
      registrationStatus := CalculateRegistrationStatus(data.applicationStartDate, data.applicationEndDate, now))
  }

  /** Whether every random roll lies in the range `Math.floor(Math.random() * 3000)` can produce. */
  predicate RollsInRange(rolls: seq<int>) {
    forall i :: 0 <= i < |rolls| ==> 0 <= rolls[i] < 3000
  }

  /**
    `rawData.map(...)`: one record per raw record, in the same order, with
    pairwise distinct ids.
   */
  function LoadMarathons(raw: seq<RawRace>, now: Instant, rolls: seq<int>): (r: seq<Marathon>)
    requires |rolls| == |raw| && RollsInRange(rolls)
    ensures |r| == |raw|
    ensures forall i :: 0 <= i < |r| ==>
      && r[i].name == raw[i].raceName
      && r[i].location == raw[i].place
      && r[i].region == raw[i].region
      && r[i].website == raw[i].homepageUrl
      && r[i].organizer == raw[i].host
      && r[i].course == raw[i].place
      && HasDefaultExtras(r[i])
      && r[i].date == raw[i].raceDate
      && r[i].registrationStart == raw[i].applicationStartDate
      && r[i].registrationEnd == raw[i].applicationEndDate
      && r[i].id == raw[i].raceDetailUrl + "-" + NatToString(i)
      && r[i].distances == ParseDistances(raw[i].raceTypeList)
      && r[i].status == CalculateStatus(raw[i].raceDate, now)
      && r[i].registrationStatus ==
           CalculateRegistrationStatus(raw[i].applicationStartDate, raw[i].applicationEndDate, now)
      && r[i].description == Description(raw[i].intro)
      && 1000 <= r[i].currentParticipants < 4000
      && r[i] == ToMarathon(raw[i], i, now, rolls[i])
    ensures forall i, j :: 0 <= i < j < |r| ==> r[i].id != r[j].id
  {
    var r := seq(|raw|, i requires 0 <= i < |raw| => ToMarathon(raw[i], i, now, rolls[i]));
    forall i, j | 0 <= i < j < |r|
      ensures r[i].id != r[j].id
    {
      MakeIdInjective(raw[i].raceDetailUrl, i, raw[j].raceDetailUrl, j);
    }
    r
  }
}
