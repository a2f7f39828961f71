/** The result-management screen: the results table's filter-and-sort pipeline, and the
    entry form whose state (a single new result, the result being edited, or a list of
    bulk entries for one discipline) the handlers update and `handleSubmit` sends to the
    result service. Form entries are the screen's partial records: maps from field name
    to whatever value the inputs put there. */
module Results {
  import opened Sequences
  import opened Text
  import opened Sorting
  import opened ResultCodec

  datatype Participant = Participant(id: int, name: string, gender: string)
  datatype Discipline = Discipline(id: int, disciplineName: string, resultType: ResultType)
  datatype Result = Result(id: int, participant: Participant, discipline: Discipline,
                           resultValue: Magnitude, date: string, resultType: ResultType)

  /** `Number(text)` for the text an input or a select delivers: the empty string is 0, a
      string of decimal digits is its value, anything else is NaN (`None`). */
  function NumberValue(text: string): (n: Option<int>)
    ensures n.Some? ==> n.value >= 0
    ensures text == [] ==> n == Some(0)
  {
    if text == [] then Some(0) else if AllDigits(text) then Some(ParseNat(text)) else None
  }

  /** An option's value is the id's decimal text, and reading it back gives the id. */
  lemma NumberValueOfId(id: nat)
    ensures NumberValue(NatToString(id)) == Some(id)
  {
    ParseNatToString(id);
    NatToStringDigits(id);
  }

  // ---------------------------------------------------------------------------------
  // The results table: filters and sort

  datatype SortField = ResultValue | Date

  /** `Number(v) || null`: NaN and 0 both clear the discipline filter. */
  function DisciplineFilterOf(v: string): (f: Option<int>)
    ensures f.Some? <==> NumberValue(v).Some? && NumberValue(v).value != 0
    ensures f.Some? ==> f == NumberValue(v)
  {
    match NumberValue(v)
    case Some(n) => if n == 0 then None else Some(n)
    case None => None
  }

  /** `v || null`: the empty string clears the gender filter. */
  function GenderFilterOf(v: string): (f: Option<string>)
    ensures f.None? <==> v == []
    ensures f.Some? ==> f.value == v
  {
    if v == [] then None else Some(v)
  }

  /** The "All Disciplines" option clears the filter and a discipline's option sets it to
      that discipline's id. */
  lemma DisciplineFilterOptions(id: nat)
    ensures DisciplineFilterOf("") == None
    ensures id > 0 ==> DisciplineFilterOf(NatToString(id)) == Some(id)
  {
    NumberValueOfId(id);
  }

  /** `!filterDiscipline || result.discipline.id === filterDiscipline` */
  predicate DisciplineMatches(f: Option<int>, r: Result)
  {
    f.None? || f.value == 0 || r.discipline.id == f.value
  }

  /** `!filterGender || result.participant.gender === filterGender` */
  predicate GenderMatches(f: Option<string>, r: Result)
  {
    f.None? || f.value == [] || r.participant.gender == f.value
  }

  function KeepDiscipline(f: Option<int>): Result -> bool
  {
    (r: Result) => DisciplineMatches(f, r)
  }

  function KeepGender(f: Option<string>): Result -> bool
  {
    (r: Result) => GenderMatches(f, r)
  }

  /** The value the comparator reads as `a[sortField]`. */
  function ResultKey(field: SortField): Result -> Key
  {
    match field
    case ResultValue => (r: Result) => Num((r.resultValue.num as real) / (r.resultValue.den as real))
    case Date => (r: Result) => Str(r.date)
  }

  /** The results that pass both filters, in their original order. */
  function Matching(results: seq<Result>, fd: Option<int>, fg: Option<string>): seq<Result>
  {
    Filter(Filter(results, KeepDiscipline(fd)), KeepGender(fg))
  }

  /** `filteredAndSortedResults`: the matching results, sorted by the comparator. */
  function Visible(results: seq<Result>, fd: Option<int>, fg: Option<string>,
                   field: SortField, dir: Direction): seq<Result>
  {
    SortBy(Matching(results, fd, fg), ResultKey(field), dir)
  }

  /** Soundness and completeness of the filters: a result is shown exactly when it is one
      of the results and passes both filters. */
  lemma VisibleMembers(results: seq<Result>, fd: Option<int>, fg: Option<string>,
                       field: SortField, dir: Direction, x: Result)
    ensures x in Visible(results, fd, fg, field, dir)
        <==> x in results && DisciplineMatches(fd, x) && GenderMatches(fg, x)
  {
    SortByMembers(Matching(results, fd, fg), ResultKey(field), dir, x);
    MatchingMembers(results, fd, fg, x);
  }

  lemma MatchingMembers(results: seq<Result>, fd: Option<int>, fg: Option<string>, x: Result)
    ensures x in Matching(results, fd, fg) <==> x in results && DisciplineMatches(fd, x) && GenderMatches(fg, x)
  {
    var first := Filter(results, KeepDiscipline(fd));
    FilterMembers(results, KeepDiscipline(fd));
    assert x in first <==> x in results && DisciplineMatches(fd, x);
    FilterMembers(first, KeepGender(fg));
  }

  /** The table shows each matching result exactly as often as it occurs. */
  lemma VisiblePermutation(results: seq<Result>, fd: Option<int>, fg: Option<string>,
                           field: SortField, dir: Direction)
    ensures multiset(Visible(results, fd, fg, field, dir)) == multiset(Matching(results, fd, fg))
  {
    SortByPermutation(Matching(results, fd, fg), ResultKey(field), dir);
  }

  /** The table is ordered by the chosen field: non-decreasing when ascending, non-increasing
      when descending. */
  lemma VisibleOrdered(results: seq<Result>, fd: Option<int>, fg: Option<string>,
                       field: SortField, dir: Direction, i: nat, j: nat)
    requires i < j < |Visible(results, fd, fg, field, dir)|
    ensures var v, key := Visible(results, fd, fg, field, dir), ResultKey(field);
            (dir == Ascending ==> !Less(key(v[j]), key(v[i])))
            && (dir == Descending ==> !Less(key(v[i]), key(v[j])))
  {
    SortBySorted(Matching(results, fd, fg), ResultKey(field), dir);
    SortedMeaning(Visible(results, fd, fg, field, dir), ResultKey(field), dir, i, j);
  }

  /** Results whose sort keys tie keep their original relative order. */
  lemma VisibleStable(results: seq<Result>, fd: Option<int>, fg: Option<string>,
                      field: SortField, dir: Direction, k: Key)
    ensures Filter(Visible(results, fd, fg, field, dir), KeyIs(ResultKey(field), k))
         == Filter(Matching(results, fd, fg), KeyIs(ResultKey(field), k))
  {
    SortByStable(Matching(results, fd, fg), ResultKey(field), dir, k);
  }

  /** With both filters cleared every result is shown, only reordered. */
  lemma ClearedFiltersShowAll(results: seq<Result>, field: SortField, dir: Direction)
    ensures Visible(results, None, None, field, dir) == SortBy(results, ResultKey(field), dir)
  {
    FilterAll(results, KeepDiscipline(None));
    FilterAll(results, KeepGender(None));
  }

  /** The gender select: "All Genders" shows every result that passes the discipline
      filter, and a gender shows exactly those whose participant has that gender. */
  lemma GenderFilterShows(results: seq<Result>, fd: Option<int>, v: string,
                          field: SortField, dir: Direction, x: Result)
    ensures x in Visible(results, fd, GenderFilterOf(v), field, dir)
        <==> x in results && DisciplineMatches(fd, x) && (v == [] || x.participant.gender == v)
  {
    VisibleMembers(results, fd, GenderFilterOf(v), field, dir, x);
  }

  /** The discipline select: "All Disciplines" shows every result that passes the gender
      filter, and the option of discipline `id` shows exactly the results of that
      discipline (id 0, being falsy, clears the filter). */
  lemma DisciplineFilterShows(results: seq<Result>, id: nat, fg: Option<string>,
                              field: SortField, dir: Direction, x: Result)
    ensures x in Visible(results, DisciplineFilterOf(""), fg, field, dir)
        <==> x in results && GenderMatches(fg, x)
    ensures x in Visible(results, DisciplineFilterOf(NatToString(id)), fg, field, dir)
        <==> x in results && (id == 0 || x.discipline.id == id) && GenderMatches(fg, x)
  {
    DisciplineFilterOptions(id);
    NumberValueOfId(id);
    VisibleMembers(results, DisciplineFilterOf(""), fg, field, dir, x);
    VisibleMembers(results, DisciplineFilterOf(NatToString(id)), fg, field, dir, x);
  }

  // ---------------------------------------------------------------------------------
  // The entry form

  /** What a partial result's field can hold. */
  datatype FieldValue =
    | Raw(s: string)                 // the text an input or select delivered
    | IdRef(ref: Option<int>)        // `{ id: Number(value) }`, `None` for NaN
    | TimeTotal(hundredths: int)     // the total a `TimeInput` emitted
    | Id(n: int)                     // a stored result's id
    | Person(p: Participant)         // a stored result's participant
    | Event(d: Discipline)           // a stored result's discipline
    | Value(v: Magnitude)            // a stored result's value
    | Kind(t: Option<ResultType>)    // `discipline?.resultType`, `None` for undefined

  /** The names of a result's fields, which are also the `name`s of the form's inputs. */
  datatype FieldName = IdField | ParticipantField | DisciplineField | ResultValueField | DateField | ResultTypeField

  /** `Partial<Result>`: the fields set so far, by name. */
  type Entry = map<FieldName, FieldValue>

  /** `name === 'participant' ? { id: Number(value) } : value` */
  function FieldFor(name: FieldName, value: string): (v: FieldValue)
    ensures name == ParticipantField ==> v == IdRef(NumberValue(value))
    ensures name != ParticipantField ==> v == Raw(value)
  {
    if name == ParticipantField then IdRef(NumberValue(value)) else Raw(value)
  }

  /** `list[i] = x` on a copy of the list: only entry `i` changes. */
  function ReplaceAt(list: seq<Entry>, i: nat, x: Entry): (r: seq<Entry>)
    requires i < |list|
    ensures |r| == |list| && r[i] == x
    ensures forall j :: 0 <= j < |list| && j != i ==> r[j] == list[j]
  {
    list[i := x]
  }

  /** `d => d.id === Number(value)` */
  function HasId(id: Option<int>): Discipline -> bool
  {
    (d: Discipline) => id == Some(d.id)
  }

  /** The entry after the discipline select changed: `discipline` becomes
      `{ id: Number(value) }` and `resultType` the found discipline's type. */
  function WithDiscipline(e: Entry, value: string, found: Option<Discipline>): Entry
  {
    var typ := if found.Some? then Some(found.value.resultType) else None;
    e[DisciplineField := IdRef(NumberValue(value))][ResultTypeField := Kind(typ)]
  }

  /** The selected discipline is the first one whose id is the option's number; choosing an
      option whose number no discipline has selects nothing. */
  lemma SelectedDisciplineFirst(disciplines: seq<Discipline>, value: string)
    ensures var found := Find(disciplines, HasId(NumberValue(value)));
            (found.None? <==> forall i :: 0 <= i < |disciplines| ==> NumberValue(value) != Some(disciplines[i].id))
            && (found.Some? ==>
                  (exists i :: 0 <= i < |disciplines| && disciplines[i] == found.value
                     && NumberValue(value) == Some(found.value.id)
                     && forall j :: 0 <= j < i ==> NumberValue(value) != Some(disciplines[j].id)))
  {
    FindFirst(disciplines, HasId(NumberValue(value)));
  }

  predicate DistinctIds(disciplines: seq<Discipline>)
  {
    forall i, j :: 0 <= i < j < |disciplines| ==> disciplines[i].id != disciplines[j].id
  }

  /** Choosing the option of discipline `k` (its value is the id's text) selects that
      discipline, and the entry's `discipline` becomes a reference to it and its
      `resultType` that discipline's type; the entry's other fields are kept. */
  lemma ChooseDisciplineOption(disciplines: seq<Discipline>, k: nat, e: Entry)
    requires k < |disciplines| && disciplines[k].id >= 0 && DistinctIds(disciplines)
    ensures var value := NatToString(disciplines[k].id);
            var found := Find(disciplines, HasId(NumberValue(value)));
            var e' := WithDiscipline(e, value, found);
            found == Some(disciplines[k])
            && IdOf(e', DisciplineField) == Some(disciplines[k].id)
            && e'[ResultTypeField] == Kind(Some(disciplines[k].resultType))
            && forall f :: f in e && f != DisciplineField && f != ResultTypeField ==> f in e' && e'[f] == e[f]
  {
    var value := NatToString(disciplines[k].id);
    NumberValueOfId(disciplines[k].id);
    SelectedDisciplineFirst(disciplines, value);
    var found := Find(disciplines, HasId(NumberValue(value)));
    assert HasId(NumberValue(value))(disciplines[k]);
    var i :| 0 <= i < |disciplines| && disciplines[i] == found.value
             && NumberValue(value) == Some(found.value.id)
             && forall j :: 0 <= j < i ==> NumberValue(value) != Some(disciplines[j].id);
    assert i == k;
  }

  /** The result being edited as the partial record the form holds. */
  function EntryOf(r: Result): (e: Entry)
    ensures e.Keys == {IdField, ParticipantField, DisciplineField, ResultValueField, DateField, ResultTypeField}
  {
    map[IdField := Id(r.id), ParticipantField := Person(r.participant), DisciplineField := Event(r.discipline),
        ResultValueField := Value(r.resultValue), DateField := Raw(r.date), ResultTypeField := Kind(Some(r.resultType))]
  }

  /** `Number(e[key]?.id)`: the id of a participant or discipline reference, NaN when the
      field is missing or holds no id. */
  function IdOf(e: Entry, key: FieldName): Option<int>
  {
    if key !in e then None
    else match e[key]
      case IdRef(ref) => ref
      case Person(p) => Some(p.id)
      case Event(d) => Some(d.id)
      case _ => None
  }

  /** A call on the result service. */
  datatype Call = Create(payload: Entry) | Update(target: Option<FieldValue>, payload: Entry)

  /** `{ ...e, participant: { id: pid }, discipline: { id: did } }` */
  function Payload(e: Entry, pid: Option<int>, did: Option<int>): Entry
  {
    e[ParticipantField := IdRef(pid)][DisciplineField := IdRef(did)]
  }

  /** `Number(selectedDiscipline?.id)` */
  function SelectedId(selected: Option<Discipline>): Option<int>
  {
    if selected.Some? then Some(selected.value.id) else None
  }

  function CreateFor(e: Entry): Call
  {
    Create(Payload(e, IdOf(e, ParticipantField), IdOf(e, DisciplineField)))
  }

  function UpdateFor(e: Entry): Call
  {
    Update(if IdField in e then Some(e[IdField]) else None,
           Payload(e, IdOf(e, ParticipantField), IdOf(e, DisciplineField)))
  }

  /** The create for one bulk entry: the entry's participant id and the selected
      discipline's id. */
  function BulkCreate(e: Entry, did: Option<int>): Call
  {
    Create(Payload(e, IdOf(e, ParticipantField), did))
  }

  /** The creates the bulk loop issues, one per entry, in list order. */
  function BulkCalls(bulk: seq<Entry>, did: Option<int>): seq<Call>
  {
    seq(|bulk|, k requires 0 <= k < |bulk| => BulkCreate(bulk[k], did))
  }

  /** The calls a submission makes when every call succeeds: an update when a result is
      being edited, otherwise one create per bulk entry when there are any, otherwise one
      create for the single new result. */
  function SubmitPlan(editing: Option<Entry>, bulk: seq<Entry>, single: Entry,
                      selected: Option<Discipline>): seq<Call>
  {
    if editing.Some? then [UpdateFor(editing.value)]
    else if |bulk| > 0 then BulkCalls(bulk, SelectedId(selected))
    else [CreateFor(single)]
  }

  /** Every bulk create carries the selected discipline; the entries' own discipline
      fields are overwritten. */
  lemma BulkUsesSelectedDiscipline(bulk: seq<Entry>, selected: Option<Discipline>, k: nat)
    requires |bulk| > 0 && k < |bulk|
    ensures var c := SubmitPlan(None, bulk, map[], selected)[k];
            c.Create? && c.payload[DisciplineField] == IdRef(SelectedId(selected))
            && c.payload[ParticipantField] == IdRef(IdOf(bulk[k], ParticipantField))
  {
  }

  /** Editing takes precedence over pending bulk entries: exactly one update is sent. */
  lemma EditingSendsOneUpdate(e: Entry, bulk: seq<Entry>, single: Entry, selected: Option<Discipline>)
    ensures |SubmitPlan(Some(e), bulk, single, selected)| == 1
    ensures SubmitPlan(Some(e), bulk, single, selected)[0].Update?
  {
  }

  /** The update sent for a result chosen with the edit button targets that result's id
      and carries its participant's and discipline's ids, its value, date and type. */
  lemma EditSubmitsUpdate(r: Result, bulk: seq<Entry>, single: Entry, selected: Option<Discipline>)
    ensures var plan := SubmitPlan(Some(EntryOf(r)), bulk, single, selected);
            |plan| == 1 && plan[0].Update? && plan[0].target == Some(Id(r.id))
            && plan[0].payload[ParticipantField] == IdRef(Some(r.participant.id))
            && plan[0].payload[DisciplineField] == IdRef(Some(r.discipline.id))
            && plan[0].payload[ResultValueField] == Value(r.resultValue)
            && plan[0].payload[DateField] == Raw(r.date)
            && plan[0].payload[ResultTypeField] == Kind(Some(r.resultType))
  {
  }

  /** Choosing the option of participant `pid` in bulk row `i` makes create number `i`
      carry that participant (and the selected discipline); every other create is as it
      was. */
  lemma BulkParticipantChoice(bulk: seq<Entry>, i: nat, pid: nat, single: Entry, selected: Option<Discipline>)
    requires i < |bulk|
    ensures var chosen := ReplaceAt(bulk, i, bulk[i][ParticipantField := FieldFor(ParticipantField, NatToString(pid))]);
            var before, after := SubmitPlan(None, bulk, single, selected), SubmitPlan(None, chosen, single, selected);
            |after| == |before| == |bulk|
            && after[i].Create? && after[i].payload[ParticipantField] == IdRef(Some(pid))
            && after[i].payload[DisciplineField] == IdRef(SelectedId(selected))
            && forall j :: 0 <= j < |bulk| && j != i ==> after[j] == before[j]
  {
    NumberValueOfId(pid);
  }

  /** With no result edited and no bulk rows, one create is sent for the new result, with
      the participant and discipline its selects set. */
  lemma SingleCreate(single: Entry, selected: Option<Discipline>)
    ensures var plan := SubmitPlan(None, [], single, selected);
            |plan| == 1 && plan[0].Create?
            && plan[0].payload[ParticipantField] == IdRef(IdOf(single, ParticipantField))
            && plan[0].payload[DisciplineField] == IdRef(IdOf(single, DisciplineField))
  {
  }

  /** The calls issued when call number `failAt` (if any) throws: the calls up to and
      including the failing one. */
  function Issued(plan: seq<Call>, failAt: Option<nat>): (calls: seq<Call>)
    ensures |calls| <= |plan| && calls == plan[..|calls|]
    ensures Failed(plan, failAt) ==> |calls| == failAt.value + 1
    ensures !Failed(plan, failAt) ==> calls == plan
  {
    if Failed(plan, failAt) then plan[..failAt.value + 1] else plan
  }

  predicate Failed(plan: seq<Call>, failAt: Option<nat>)
  {
    failAt.Some? && failAt.value < |plan|
  }

  /** The `for ... of` loop of the bulk path: creates the entries one after the other and
      stops at the first create that throws. */
  method CreateAll(bulk: seq<Entry>, did: Option<int>, failAt: Option<nat>) returns (calls: seq<Call>)
    ensures calls == Issued(BulkCalls(bulk, did), failAt)
  {
    ghost var plan := BulkCalls(bulk, did);
    calls := [];
    var i := 0;
    while i < |bulk|
      invariant 0 <= i <= |bulk|
      invariant calls == plan[..i]
      invariant failAt.Some? ==> failAt.value >= i
    {
      calls := calls + [BulkCreate(bulk[i], did)];
      assert plan[..i + 1] == plan[..i] + [plan[i]];
      if failAt == Some(i) {
        return;
      }
      i := i + 1;
    }
    assert plan[..i] == plan;
  }

  // ---------------------------------------------------------------------------------
  // The component

  class ResultManagement {
    var participants: seq<Participant>
    var disciplines: seq<Discipline>
    var results: seq<Result>
    var newResult: Entry
    var editingResult: Option<Entry>
    var filterDiscipline: Option<int>
    var filterGender: Option<string>
    var sortField: SortField
    var sortDirection: Direction
    var selectedDiscipline: Option<Discipline>
    var bulkResults: seq<Entry>

    constructor ()
      ensures participants == [] && disciplines == [] && results == []
      ensures newResult == map[] && editingResult == None && bulkResults == []
      ensures filterDiscipline == None && filterGender == None && selectedDiscipline == None
      ensures sortField == ResultValue && sortDirection == Ascending
    {
      participants, disciplines, results := [], [], [];
      newResult, editingResult, bulkResults := map[], None, [];
      filterDiscipline, filterGender, selectedDiscipline := None, None, None;
      sortField, sortDirection := ResultValue, Ascending;
    }

    /** The three fetches have delivered their lists. */
    method Loaded(ps: seq<Participant>, ds: seq<Discipline>, rs: seq<Result>)
      modifies this`participants, this`disciplines, this`results
      ensures participants == ps && disciplines == ds && results == rs
    {
      participants, disciplines, results := ps, ds, rs;
    }

    /** `handleInputChange`: a bulk row's field, the discipline select, or a field of the
        edited or the new result. */
    method HandleInputChange(name: FieldName, value: string, index: Option<nat>)
      requires index.Some? ==> index.value < |bulkResults|
      modifies this`bulkResults, this`selectedDiscipline, this`editingResult, this`newResult
      ensures index.Some? ==>
        bulkResults == ReplaceAt(old(bulkResults), index.value,
                                 old(bulkResults)[index.value][name := FieldFor(name, value)])
        && selectedDiscipline == old(selectedDiscipline)
        && editingResult == old(editingResult) && newResult == old(newResult)
      ensures index.None? && name == DisciplineField ==>
        var found := Find(disciplines, HasId(NumberValue(value)));
        selectedDiscipline == found && bulkResults == old(bulkResults)
        && (old(editingResult).Some? ==>
              editingResult == Some(WithDiscipline(old(editingResult).value, value, found))
              && newResult == old(newResult))
        && (old(editingResult).None? ==>
              newResult == WithDiscipline(old(newResult), value, found) && editingResult == None)
      ensures index.None? && name != DisciplineField ==>
        selectedDiscipline == old(selectedDiscipline) && bulkResults == old(bulkResults)
        && (old(editingResult).Some? ==>
              editingResult == Some(old(editingResult).value[name := FieldFor(name, value)])
              && newResult == old(newResult))
        && (old(editingResult).None? ==>
              newResult == old(newResult)[name := FieldFor(name, value)] && editingResult == None)
    {
      if index.Some? {
        var i := index.value;
        bulkResults := ReplaceAt(bulkResults, i, bulkResults[i][name := FieldFor(name, value)]);
      } else if name == DisciplineField {
        var found := Find(disciplines, HasId(NumberValue(value)));
        selectedDiscipline := found;
        if editingResult.Some? {
          editingResult := Some(WithDiscipline(editingResult.value, value, found));
        } else {
          newResult := WithDiscipline(newResult, value, found);
        }
      } else if editingResult.Some? {
        editingResult := Some(editingResult.value[name := FieldFor(name, value)]);
      } else {
        newResult := newResult[name := FieldFor(name, value)];
      }
    }

    /** `handleTimeChange`: stores a `TimeInput`'s total as `resultValue`. */
    method HandleTimeChange(total: int, index: Option<nat>)
      requires index.Some? ==> index.value < |bulkResults|
      modifies this`bulkResults, this`editingResult, this`newResult
      ensures index.Some? ==>
        bulkResults == ReplaceAt(old(bulkResults), index.value,
                                 old(bulkResults)[index.value][ResultValueField := TimeTotal(total)])
        && editingResult == old(editingResult) && newResult == old(newResult)
      ensures index.None? && old(editingResult).Some? ==>
        editingResult == Some(old(editingResult).value[ResultValueField := TimeTotal(total)])
        && bulkResults == old(bulkResults) && newResult == old(newResult)
      ensures index.None? && old(editingResult).None? ==>
        newResult == old(newResult)[ResultValueField := TimeTotal(total)]
        && bulkResults == old(bulkResults) && editingResult == None
    {
      if index.Some? {
        var i := index.value;
        bulkResults := ReplaceAt(bulkResults, i, bulkResults[i][ResultValueField := TimeTotal(total)]);
      } else if editingResult.Some? {
        editingResult := Some(editingResult.value[ResultValueField := TimeTotal(total)]);
      } else {
        newResult := newResult[ResultValueField := TimeTotal(total)];
      }
    }

    /** `addBulkResult`: one more, empty, bulk row. */
    method AddBulkResult()
      modifies this`bulkResults
      ensures bulkResults == old(bulkResults) + [map[]]
    {
      bulkResults := bulkResults + [map[]];
    }

    method ResetForm()
      modifies this`newResult, this`editingResult, this`selectedDiscipline, this`bulkResults
      ensures newResult == map[] && editingResult == None && selectedDiscipline == None && bulkResults == []
    {
      newResult, editingResult, selectedDiscipline, bulkResults := map[], None, None, [];
    }

    /** `handleEdit`: the form switches to editing `r`. */
    method HandleEdit(r: Result)
      modifies this`editingResult, this`selectedDiscipline
      ensures editingResult == Some(EntryOf(r)) && selectedDiscipline == Some(r.discipline)
    {
      editingResult, selectedDiscipline := Some(EntryOf(r)), Some(r.discipline);
    }

    method SetFilterDiscipline(v: string)
      modifies this`filterDiscipline
      ensures filterDiscipline == DisciplineFilterOf(v)
    {
      filterDiscipline := DisciplineFilterOf(v);
    }

    method SetFilterGender(v: string)
      modifies this`filterGender
      ensures filterGender == GenderFilterOf(v)
    {
      filterGender := GenderFilterOf(v);
    }

    method SetSortField(field: SortField)
      modifies this`sortField
      ensures sortField == field
    {
      sortField := field;
    }

    /** The direction button flips between ascending and descending. */
    method ToggleSortDirection()
      modifies this`sortDirection
      ensures sortDirection != old(sortDirection)
      ensures sortDirection == (if old(sortDirection) == Ascending then Descending else Ascending)
    {
      sortDirection := if sortDirection == Ascending then Descending else Ascending;
    }

    /** `filteredAndSortedResults`: filters `results` into a new list and sorts that copy;
        `results` itself is left as it was. */
    method FilteredAndSortedResults() returns (shown: seq<Result>)
      ensures shown == Visible(results, filterDiscipline, filterGender, sortField, sortDirection)
    {
      var kept := Filter(Filter(results, KeepDiscipline(filterDiscipline)), KeepGender(filterGender));
      shown := SortedCopy(kept, ResultKey(sortField), sortDirection);
    }

    /** `handleSubmit`, with call number `failAt` (if any) throwing. The calls issued are the
        plan up to the failing one. A failure is caught and leaves the form as it was;
        otherwise the form is reset. */
    method Submit(failAt: Option<nat>) returns (calls: seq<Call>)
      modifies this`newResult, this`editingResult, this`selectedDiscipline, this`bulkResults
      ensures calls == Issued(SubmitPlan(old(editingResult), old(bulkResults), old(newResult),
                                         old(selectedDiscipline)), failAt)
      ensures Failed(SubmitPlan(old(editingResult), old(bulkResults), old(newResult), old(selectedDiscipline)), failAt) ==>
        newResult == old(newResult) && editingResult == old(editingResult)
        && selectedDiscipline == old(selectedDiscipline) && bulkResults == old(bulkResults)
      ensures !Failed(SubmitPlan(old(editingResult), old(bulkResults), old(newResult), old(selectedDiscipline)), failAt) ==>
        newResult == map[] && editingResult == None && selectedDiscipline == None && bulkResults == []
    {
      ghost var plan := SubmitPlan(editingResult, bulkResults, newResult, selectedDiscipline);
      if editingResult.Some? {
        calls := [UpdateFor(editingResult.value)];
        if failAt == Some(0) {
          return;
        }
        editingResult := None;
      } else if |bulkResults| > 0 {
        var did := SelectedId(selectedDiscipline);
        calls := CreateAll(bulkResults, did, failAt);
        if failAt.Some? && failAt.value < |bulkResults| {
          return;
        }
        bulkResults := [];
      } else {
        calls := [CreateFor(newResult)];
        if failAt == Some(0) {
          return;
        }
      }
      ResetForm();
    }
  }
}
