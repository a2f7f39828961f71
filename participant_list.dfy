/** The participant list: ages and age brackets, the column-header sort toggle, the sort of
    a copy of the participants, the five filters applied after it, and the pages of 20. */
module Participants {
  import opened Sequences
  import opened Text
  import opened Sorting

  datatype Discipline = Discipline(id: int, disciplineName: string, resultType: string)
  datatype Participant = Participant(id: int, name: string, gender: string, birthdate: string,
                                     team: string, disciplines: seq<Discipline>)

  /** `id.toString()` */
  function IdText(id: int): string
  {
    if id < 0 then "-" + NatToString(-id) else NatToString(id)
  }

  /** Different ids have different texts, so an option value names one id. */
  lemma IdTextInjective(a: int, b: int)
    requires IdText(a) == IdText(b)
    ensures a == b
  {
    NatToStringDigits(if a < 0 then -a else a);
    NatToStringDigits(if b < 0 then -b else b);
    if a < 0 && b < 0 {
      assert NatToString(-a) == IdText(a)[1..];
      NatToStringInjective(-a, -b);
    } else if a >= 0 && b >= 0 {
      NatToStringInjective(a, b);
    }
  }

  // ---------------------------------------------------------------------------------
  // Ages

  /** A calendar date; months count from 1. */
  datatype Date = Date(year: int, month: int, day: int)

  /** `new Date(s)` for the `YYYY-MM-DD` text a date input delivers; `None` for the
      Invalid Date any other text gives. */
  function ParseIsoDate(s: string): (r: Option<Date>)
    ensures r.Some? ==> 1 <= r.value.month <= 12 && 1 <= r.value.day <= 31
  {
    if |s| == 10 && s[4] == '-' && s[7] == '-' then ReadDate(s[..4], s[5..7], s[8..]) else None
  }

  function ReadDate(y: string, m: string, d: string): (r: Option<Date>)
    ensures r.Some? ==> 1 <= r.value.month <= 12 && 1 <= r.value.day <= 31
  {
    if AllDigits(y) && AllDigits(m) && AllDigits(d)
       && 1 <= ParseNat(m) <= 12 && 1 <= ParseNat(d) <= 31
    then Some(Date(ParseNat(y), ParseNat(m), ParseNat(d)))
    else None
  }

  /** The `YYYY-MM-DD` text of a date of years 0 to 9999. */
  function IsoText(d: Date): string
    requires 0 <= d.year < 10000 && 1 <= d.month <= 12 && 1 <= d.day <= 31
  {
    PadStart(NatToString(d.year), 4, '0') + "-" + Pad2(d.month) + "-" + Pad2(d.day)
  }

  lemma IsoTextParts(y: string, m: string, d: string)
    requires |y| == 4 && |m| == 2 && |d| == 2
    ensures ParseIsoDate(y + "-" + m + "-" + d) == ReadDate(y, m, d)
  {
    var s := y + "-" + m + "-" + d;
    assert s[..4] == y && s[5..7] == m && s[8..] == d;
  }

  /** Parsing the text of a date gives the date back. */
  lemma IsoDateRoundTrip(d: Date)
    requires 0 <= d.year < 10000 && 1 <= d.month <= 12 && 1 <= d.day <= 31
    ensures ParseIsoDate(IsoText(d)) == Some(d)
  {
    var y := PadStart(NatToString(d.year), 4, '0');
    NatToStringDigits(d.year);
    PadStartShape(NatToString(d.year), 4, '0');
    ParseNatToString(d.year);
    ParsePadded(NatToString(d.year), 4);
    IsoTextParts(y, Pad2(d.month), Pad2(d.day));
  }

  /** `(month, day)` of `a` comes before that of `b` within a year. */
  predicate BeforeInYear(a: Date, b: Date)
  {
    a.month < b.month || (a.month == b.month && a.day < b.day)
  }

  /** `a` is on or before `b`. */
  predicate OnOrBefore(a: Date, b: Date)
  {
    a.year < b.year || (a.year == b.year && !BeforeInYear(b, a))
  }

  /** The `n`-th birthday of someone born on `birth`. */
  function Anniversary(birth: Date, n: int): Date
  {
    Date(birth.year + n, birth.month, birth.day)
  }

  /** The age on `today` of someone born on `birth`: the year difference, less one while
      this year's birthday is still to come. It is the number of birthdays that have
      passed: the `age`-th is on or before today and the next one is after it. */
  function Age(today: Date, birth: Date): (age: int)
    ensures age == today.year - birth.year || age == today.year - birth.year - 1
    ensures age == today.year - birth.year <==> !BeforeInYear(today, birth)
    ensures OnOrBefore(Anniversary(birth, age), today) && !OnOrBefore(Anniversary(birth, age + 1), today)
  {
    today.year - birth.year - (if BeforeInYear(today, birth) then 1 else 0)
  }

  /** `calculateAge`, with today's date as a parameter. */
  method CalculateAge(today: Date, birth: Date) returns (age: int)
    ensures age == Age(today, birth)
  {
    age := today.year - birth.year;
    var monthDiff := today.month - birth.month;
    if monthDiff < 0 || (monthDiff == 0 && today.day < birth.day) {
      age := age - 1;
    }
  }

  /** The age is the only count of passed birthdays. */
  lemma AgeUnique(today: Date, birth: Date, n: int)
    requires OnOrBefore(Anniversary(birth, n), today) && !OnOrBefore(Anniversary(birth, n + 1), today)
    ensures n == Age(today, birth)
  {
  }

  /** Days in a month of the Gregorian calendar. */
  function DaysInMonth(year: int, month: int): int
  {
    if month == 2 then (if (year % 4 == 0 && year % 100 != 0) || year % 400 == 0 then 29 else 28)
    else if month == 4 || month == 6 || month == 9 || month == 11 then 30
    else 31
  }

  /** The calendar day before `d`, across month and year ends. */
  function DayBefore(d: Date): Date
  {
    if d.day > 1 then Date(d.year, d.month, d.day - 1)
    else if d.month > 1 then Date(d.year, d.month - 1, DaysInMonth(d.year, d.month - 1))
    else Date(d.year - 1, 12, 31)
  }

  /** On the birthday the age is the year difference; on the day before, one less, also
      when that day lies in the previous month or year. */
  lemma BirthdayBoundary(year: int, birth: Date)
    ensures Age(Date(year, birth.month, birth.day), birth) == year - birth.year
    ensures Age(DayBefore(Date(year, birth.month, birth.day)), birth) == year - birth.year - 1
  {
  }

  /** Concrete boundaries: born 1 March 2000, the day before the 2024 birthday is 29
      February, and born 1 January 2000, it is 31 December 2023. */
  lemma BirthdayOnFirst()
    ensures DayBefore(Date(2024, 3, 1)) == Date(2024, 2, 29)
    ensures Age(Date(2024, 2, 29), Date(2000, 3, 1)) == 23 && Age(Date(2024, 3, 1), Date(2000, 3, 1)) == 24
    ensures DayBefore(Date(2024, 1, 1)) == Date(2023, 12, 31)
    ensures Age(Date(2023, 12, 31), Date(2000, 1, 1)) == 23 && Age(Date(2024, 1, 1), Date(2000, 1, 1)) == 24
  {
  }

  datatype Bracket = Children | Youth | Junior | Adult | Senior

  /** `getAgeBracket` on an age. Every age falls in exactly one bracket; ages below 6 and
      above 40 are senior. */
  function AgeBracket(age: int): (b: Bracket)
    ensures b == Children <==> 6 <= age <= 9
    ensures b == Youth <==> 10 <= age <= 13
    ensures b == Junior <==> 14 <= age <= 22
    ensures b == Adult <==> 23 <= age <= 40
    ensures b == Senior <==> age < 6 || age > 40
  {
    if 6 <= age <= 9 then Children
    else if 10 <= age <= 13 then Youth
    else if 14 <= age <= 22 then Junior
    else if 23 <= age <= 40 then Adult
    else Senior
  }

  /** `getAgeBracket(birthdate)`: an Invalid Date gives a NaN age, which fails every range
      test and so is senior. */
  function BracketOf(today: Date, birthdate: string): Bracket
  {
    match ParseIsoDate(birthdate)
    case None => Senior
    case Some(birth) => AgeBracket(Age(today, birth))
  }

  /** The bracket of a birthdate a date input delivered is the bracket of the age on that
      date; a birthdate that is not a date (the empty text, say) is senior. */
  lemma BracketOfSpec(today: Date, birth: Date)
    requires 0 <= birth.year < 10000 && 1 <= birth.month <= 12 && 1 <= birth.day <= 31
    ensures BracketOf(today, IsoText(birth)) == AgeBracket(Age(today, birth))
    ensures BracketOf(today, "") == Senior
  {
    IsoDateRoundTrip(birth);
  }

  /** The bracket's name, as the age-bracket filter compares it. */
  function BracketName(b: Bracket): string
  {
    match b
    case Children => "children"
    case Youth => "youth"
    case Junior => "junior"
    case Adult => "adult"
    case Senior => "senior"
  }

  lemma BracketNameInjective(a: Bracket, b: Bracket)
    requires BracketName(a) == BracketName(b)
    ensures a == b
  {
  }

  // ---------------------------------------------------------------------------------
  // Sorting

  /** The columns whose headers sort the list. */
  datatype SortKey = NameKey | GenderKey | BirthdateKey | TeamKey

  datatype SortConfig = SortConfig(key: SortKey, direction: Direction)

  /** `handleSort`: a click on the column that is sorted ascending sorts it descending;
      any other click sorts the clicked column ascending. */
  function NextSortConfig(config: Option<SortConfig>, key: SortKey): (r: SortConfig)
    ensures r.key == key
    ensures r.direction == Descending <==> config == Some(SortConfig(key, Ascending))
  {
    if config.Some? && config.value.key == key && config.value.direction == Ascending
    then SortConfig(key, Descending)
    else SortConfig(key, Ascending)
  }

  /** Two clicks on the sorted column bring back the order it had. */
  lemma TwoClicksRestore(c: SortConfig)
    ensures NextSortConfig(Some(NextSortConfig(Some(c), c.key)), c.key) == c
  {
  }

  /** `a[sortConfig.key]` */
  function ParticipantKey(key: SortKey): Participant -> Key
  {
    match key
    case NameKey => (p: Participant) => Str(p.name)
    case GenderKey => (p: Participant) => Str(p.gender)
    case BirthdateKey => (p: Participant) => Str(p.birthdate)
    case TeamKey => (p: Participant) => Str(p.team)
  }

  /** `sortedParticipants`: the list itself with no sort chosen, else sorted by the
      comparator. */
  function SortedParticipants(participants: seq<Participant>, config: Option<SortConfig>): seq<Participant>
  {
    match config
    case None => participants
    case Some(c) => SortBy(participants, ParticipantKey(c.key), c.direction)
  }

  /** The sorted list holds the same participants, is ordered by the key in the chosen
      direction, and keeps participants with equal keys in their original order. */
  lemma SortedParticipantsSpec(participants: seq<Participant>, c: SortConfig, k: Key)
    ensures SortedParticipants(participants, None) == participants
    ensures var s := SortedParticipants(participants, Some(c));
            multiset(s) == multiset(participants)
            && Sorted(s, ParticipantKey(c.key), c.direction)
            && Filter(s, KeyIs(ParticipantKey(c.key), k)) == Filter(participants, KeyIs(ParticipantKey(c.key), k))
  {
    SortByPermutation(participants, ParticipantKey(c.key), c.direction);
    SortBySorted(participants, ParticipantKey(c.key), c.direction);
    SortByStable(participants, ParticipantKey(c.key), c.direction, k);
  }

  // ---------------------------------------------------------------------------------
  // Filtering

  datatype Filters = Filters(gender: string, ageBracket: string, team: string, discipline: string)

  const NoFilters := Filters("", "", "", "")

  /** The `name`s of the filter selects. */
  datatype FilterName = GenderFilter | AgeBracketFilter | TeamFilter | DisciplineFilter

  function FilterValue(f: Filters, name: FilterName): string
  {
    match name
    case GenderFilter => f.gender
    case AgeBracketFilter => f.ageBracket
    case TeamFilter => f.team
    case DisciplineFilter => f.discipline
  }

  /** `{ ...prevFilters, [name]: value }`: the named filter is set and the others kept. */
  function SetFilter(f: Filters, name: FilterName, value: string): (r: Filters)
    ensures FilterValue(r, name) == value
    ensures forall other :: other != name ==> FilterValue(r, other) == FilterValue(f, other)
  {
    match name
    case GenderFilter => f.(gender := value)
    case AgeBracketFilter => f.(ageBracket := value)
    case TeamFilter => f.(team := value)
    case DisciplineFilter => f.(discipline := value)
  }

  predicate SearchMatches(term: string, p: Participant)
  {
    Contains(Lower(p.name), Lower(term))
  }

  predicate GenderPasses(f: Filters, p: Participant)
  {
    f.gender == [] || p.gender == f.gender
  }

  predicate BracketPasses(today: Date, f: Filters, p: Participant)
  {
    f.ageBracket == [] || BracketName(BracketOf(today, p.birthdate)) == f.ageBracket
  }

  predicate TeamPasses(f: Filters, p: Participant)
  {
    f.team == [] || p.team == f.team
  }

  /** `participant.disciplines.some(d => d.id.toString() === filters.discipline)` */
  predicate DisciplinePasses(f: Filters, p: Participant)
  {
    f.discipline == [] || exists i :: 0 <= i < |p.disciplines| && IdText(p.disciplines[i].id) == f.discipline
  }

  /** A participant is listed when every criterion holds. */
  predicate Listed(today: Date, term: string, f: Filters, p: Participant)
  {
    SearchMatches(term, p) && GenderPasses(f, p) && BracketPasses(today, f, p)
    && TeamPasses(f, p) && DisciplinePasses(f, p)
  }

  function BySearch(term: string): Participant -> bool { (p: Participant) => SearchMatches(term, p) }
  function ByGender(f: Filters): Participant -> bool { (p: Participant) => GenderPasses(f, p) }
  function ByBracket(today: Date, f: Filters): Participant -> bool { (p: Participant) => BracketPasses(today, f, p) }
  function ByTeam(f: Filters): Participant -> bool { (p: Participant) => TeamPasses(f, p) }
  function ByDiscipline(f: Filters): Participant -> bool { (p: Participant) => DisciplinePasses(f, p) }
  function ByAll(today: Date, term: string, f: Filters): Participant -> bool
  {
    (p: Participant) => Listed(today, term, f, p)
  }

  /** `filteredParticipants`: the five filters, one after the other. */
  function FilteredParticipants(sorted: seq<Participant>, today: Date, term: string, f: Filters): seq<Participant>
  {
    Filter(Filter(Filter(Filter(Filter(sorted, BySearch(term)), ByGender(f)), ByBracket(today, f)), ByTeam(f)), ByDiscipline(f))
  }

  /** The chain of five filters is one filter by all five criteria. */
  lemma FilterChain(sorted: seq<Participant>, today: Date, term: string, f: Filters)
    ensures FilteredParticipants(sorted, today, term, f) == Filter(sorted, ByAll(today, term, f))
  {
    var s1 := (p: Participant) => SearchMatches(term, p) && GenderPasses(f, p);
    var s2 := (p: Participant) => s1(p) && BracketPasses(today, f, p);
    var s3 := (p: Participant) => s2(p) && TeamPasses(f, p);
    FilterFilter(sorted, BySearch(term), ByGender(f), s1);
    FilterFilter(sorted, s1, ByBracket(today, f), s2);
    FilterFilter(sorted, s2, ByTeam(f), s3);
    FilterFilter(sorted, s3, ByDiscipline(f), ByAll(today, term, f));
  }

  /** A participant is listed exactly when it is in the sorted list and meets every
      criterion, and the listed participants keep the sorted list's order. */
  lemma FilteredSpec(sorted: seq<Participant>, today: Date, term: string, f: Filters, x: Participant)
    ensures x in FilteredParticipants(sorted, today, term, f) <==> x in sorted && Listed(today, term, f, x)
    ensures IsSubsequence(FilteredParticipants(sorted, today, term, f), sorted)
  {
    FilterChain(sorted, today, term, f);
    FilterMembers(sorted, ByAll(today, term, f));
    FilterIsSubsequence(sorted, ByAll(today, term, f));
  }

  /** With no search term and no filter set, everyone is listed. */
  lemma NoCriteriaListAll(sorted: seq<Participant>, today: Date)
    ensures FilteredParticipants(sorted, today, "", NoFilters) == sorted
  {
    FilterChain(sorted, today, "", NoFilters);
    forall i | 0 <= i < |sorted|
      ensures Listed(today, "", NoFilters, sorted[i])
    {
      assert OccursAt(Lower(sorted[i].name), Lower(""), 0);
    }
    FilterAll(sorted, ByAll(today, "", NoFilters));
  }

  /** Sorting before filtering lists the same participants in the same order as filtering
      before sorting. */
  lemma SortThenFilter(participants: seq<Participant>, config: Option<SortConfig>, today: Date, term: string, f: Filters)
    ensures FilteredParticipants(SortedParticipants(participants, config), today, term, f)
         == SortedParticipants(Filter(participants, ByAll(today, term, f)), config)
  {
    FilterChain(SortedParticipants(participants, config), today, term, f);
    if config.Some? {
      SortFilterCommute(participants, ParticipantKey(config.value.key), config.value.direction, ByAll(today, term, f));
    }
  }

  // ---------------------------------------------------------------------------------
  // Pages

  const PerPage: nat := 20

  /** `list.slice((page - 1) * 20, page * 20)` */
  function Page<T>(list: seq<T>, page: int): seq<T>
  {
    Slice(list, (page - 1) * PerPage, page * PerPage)
  }

  /** From page 1 on, a page holds the next (up to) 20 participants: none once the list
      is used up, fewer than 20 on the last page. */
  lemma PageSpec<T>(list: seq<T>, page: int)
    requires page >= 1
    ensures var start := (page - 1) * PerPage;
            |Page(list, page)| == (if |list| <= start then 0
                                    else if |list| - start < PerPage then |list| - start else PerPage)
            && forall k :: 0 <= k < |Page(list, page)| ==> Page(list, page)[k] == list[start + k]
  {
  }

  /** 41 participants: pages 1 and 2 are full and page 3 holds the last one. */
  lemma FortyOneParticipants<T>(list: seq<T>)
    requires |list| == 41
    ensures |Page(list, 1)| == 20 && |Page(list, 2)| == 20
    ensures Page(list, 3) == [list[40]]
    ensures Page(list, 4) == []
  {
    PageSpec(list, 1);
    PageSpec(list, 2);
    PageSpec(list, 3);
    PageSpec(list, 4);
  }

  // ---------------------------------------------------------------------------------
  // The component

  class ParticipantList {
    var participants: seq<Participant>
    var currentPage: int
    var searchTerm: string
    var filters: Filters
    var sortConfig: Option<SortConfig>

    constructor ()
      ensures participants == [] && currentPage == 1 && searchTerm == []
      ensures filters == NoFilters && sortConfig == None
    {
      participants, currentPage, searchTerm, filters, sortConfig := [], 1, [], NoFilters, None;
    }

    /** The participant fetch has delivered its list. */
    method Loaded(ps: seq<Participant>)
      modifies this`participants
      ensures participants == ps
    {
      participants := ps;
    }

    /** The search box changed; the page stays where it was. */
    method HandleSearchChange(value: string)
      modifies this`searchTerm
      ensures searchTerm == value && currentPage == old(currentPage)
    {
      searchTerm := value;
    }

    /** A filter select changed; the other filters, the search term and the page stay. */
    method HandleFilterChange(name: FilterName, value: string)
      modifies this`filters
      ensures filters == SetFilter(old(filters), name, value)
      ensures searchTerm == old(searchTerm) && currentPage == old(currentPage)
    {
      filters := SetFilter(filters, name, value);
    }

    method HandleSort(key: SortKey)
      modifies this`sortConfig
      ensures sortConfig == Some(NextSortConfig(old(sortConfig), key))
    {
      var direction := Ascending;
      if sortConfig.Some? && sortConfig.value.key == key && sortConfig.value.direction == Ascending {
        direction := Descending;
      }
      sortConfig := Some(SortConfig(key, direction));
    }

    /** The pager's `setCurrentPage` callback. */
    method SetCurrentPage(page: int)
      modifies this`currentPage
      ensures currentPage == page
    {
      currentPage := page;
    }

    /** What the table is given: the current page of the filtered, sorted copy, and the
        number of participants that pass the filters. */
    method Shown(today: Date) returns (page: seq<Participant>, total: nat)
      ensures var listed := FilteredParticipants(SortedParticipants(participants, sortConfig), today, searchTerm, filters);
              page == Page(listed, currentPage) && total == |listed|
    {
      var sortable := participants;
      if sortConfig.Some? {
        sortable := SortedCopy(participants, ParticipantKey(sortConfig.value.key), sortConfig.value.direction);
      }
      var listed := Filter(Filter(Filter(Filter(Filter(sortable, BySearch(searchTerm)), ByGender(filters)),
                                         ByBracket(today, filters)), ByTeam(filters)), ByDiscipline(filters));
      page := Slice(listed, (currentPage - 1) * PerPage, currentPage * PerPage);
      total := |listed|;
    }
  }
}
