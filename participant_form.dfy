/** The participant form: every input replaces one field of the participant being written,
    and the disciplines multi-select maps the chosen option values back to disciplines. */
module ParticipantEditor {
  import opened Sequences
  import opened Participants

  /** The record the form edits. A chosen option that matches no discipline leaves
      `undefined` (`None`) in the list. */
  datatype Draft = Draft(id: int, name: string, gender: string, birthdate: string, team: string,
                         disciplines: seq<Option<Discipline>>)

  /** The blank record the list starts the form with. */
  const Blank := Draft(0, "", "", "", "", [])

  /** The form's text inputs and its gender select. */
  datatype TextField = NameField | GenderField | BirthdateField | TeamField

  function FieldValue(d: Draft, f: TextField): string
  {
    match f
    case NameField => d.name
    case GenderField => d.gender
    case BirthdateField => d.birthdate
    case TeamField => d.team
  }

  /** `{ ...newParticipant, [field]: value }`: the field is set, the other fields, the id
      and the disciplines are kept. */
  function WithField(d: Draft, f: TextField, value: string): (r: Draft)
    ensures FieldValue(r, f) == value
    ensures forall g :: g != f ==> FieldValue(r, g) == FieldValue(d, g)
    ensures r.id == d.id && r.disciplines == d.disciplines
  {
    match f
    case NameField => d.(name := value)
    case GenderField => d.(gender := value)
    case BirthdateField => d.(birthdate := value)
    case TeamField => d.(team := value)
  }

  /** Writing back what a field holds changes nothing, and of two writes to one field the
      second wins. */
  lemma WithFieldLaws(d: Draft, f: TextField, a: string, b: string)
    ensures WithField(d, f, FieldValue(d, f)) == d
    ensures WithField(WithField(d, f, a), f, b) == WithField(d, f, b)
  {
  }

  /** `d => d.id.toString() === value` */
  function HasIdText(value: string): Discipline -> bool
  {
    (d: Discipline) => IdText(d.id) == value
  }

  /** `disciplines.find(d => d.id.toString() === option.value)` */
  function Chosen(catalog: seq<Discipline>, value: string): Option<Discipline>
  {
    Find(catalog, HasIdText(value))
  }

  /** The chosen discipline is the first whose id text is the option value, or none when
      no discipline has it. */
  lemma ChosenFirst(catalog: seq<Discipline>, value: string)
    ensures Chosen(catalog, value).None? <==> forall i :: 0 <= i < |catalog| ==> IdText(catalog[i].id) != value
    ensures Chosen(catalog, value).Some? ==>
      exists i :: 0 <= i < |catalog| && catalog[i] == Chosen(catalog, value).value
        && IdText(catalog[i].id) == value && forall j :: 0 <= j < i ==> IdText(catalog[j].id) != value
  {
    FindFirst(catalog, HasIdText(value));
  }

  /** `handleDisciplineChange`: one entry per selected option, in option order; nothing
      but the disciplines changes. */
  function DisciplineChange(d: Draft, catalog: seq<Discipline>, selected: seq<string>): (r: Draft)
    ensures |r.disciplines| == |selected|
    ensures forall i :: 0 <= i < |selected| ==> r.disciplines[i] == Chosen(catalog, selected[i])
    ensures r.(disciplines := d.disciplines) == d
  {
    d.(disciplines := seq(|selected|, i requires 0 <= i < |selected| => Chosen(catalog, selected[i])))
  }

  /** The multi-select's `value`: the id texts of the draft's disciplines; `None` when an
      entry is `undefined`, whose `id` cannot be read. */
  function MultiSelectValue(d: Draft): (r: Option<seq<string>>)
    ensures r.Some? <==> forall i :: 0 <= i < |d.disciplines| ==> d.disciplines[i].Some?
    ensures r.Some? ==>
      |r.value| == |d.disciplines|
      && forall i :: 0 <= i < |d.disciplines| ==> r.value[i] == IdText(d.disciplines[i].value.id)
  {
    if forall i :: 0 <= i < |d.disciplines| ==> d.disciplines[i].Some?
    then Some(seq(|d.disciplines|, i requires 0 <= i < |d.disciplines| => IdText(d.disciplines[i].value.id)))
    else None
  }

  /** `selectedOptions` when the options whose values are in `picked` are selected: their
      values, in the catalog's order. */
  function SelectedValues(catalog: seq<Discipline>, picked: set<string>): seq<string>
  {
    var chosen := Filter(catalog, Picked(picked));
    seq(|chosen|, i requires 0 <= i < |chosen| => IdText(chosen[i].id))
  }

  function Picked(picked: set<string>): Discipline -> bool
  {
    (d: Discipline) => IdText(d.id) in picked
  }

  predicate UniqueIds(catalog: seq<Discipline>)
  {
    forall i, j :: 0 <= i < j < |catalog| ==> catalog[i].id != catalog[j].id
  }

  /** With unique ids, the option of a catalog discipline maps back to that discipline. */
  lemma ChosenOwnOption(catalog: seq<Discipline>, k: nat)
    requires UniqueIds(catalog) && k < |catalog|
    ensures Chosen(catalog, IdText(catalog[k].id)) == Some(catalog[k])
  {
    var value := IdText(catalog[k].id);
    ChosenFirst(catalog, value);
    var i :| 0 <= i < |catalog| && catalog[i] == Chosen(catalog, value).value
             && IdText(catalog[i].id) == value && forall j :: 0 <= j < i ==> IdText(catalog[j].id) != value;
    IdTextInjective(catalog[i].id, catalog[k].id);
  }

  /** Selecting some options stores exactly the selected disciplines, in catalog order. */
  lemma SelectStoresDisciplines(d: Draft, catalog: seq<Discipline>, picked: set<string>)
    requires UniqueIds(catalog)
    ensures var chosen := Filter(catalog, Picked(picked));
            DisciplineChange(d, catalog, SelectedValues(catalog, picked)).disciplines
              == seq(|chosen|, i requires 0 <= i < |chosen| => Some(chosen[i]))
  {
    var chosen := Filter(catalog, Picked(picked));
    var r := DisciplineChange(d, catalog, SelectedValues(catalog, picked));
    forall i | 0 <= i < |chosen|
      ensures r.disciplines[i] == Some(chosen[i])
    {
      FilterMembers(catalog, Picked(picked));
      assert chosen[i] in chosen;
      assert chosen[i] in catalog;
      var k :| 0 <= k < |catalog| && catalog[k] == chosen[i];
      ChosenOwnOption(catalog, k);
    }
  }

  /** The form shows what was selected: after selecting options, the multi-select's value
      names the selected options, and selecting exactly those again leaves the draft as it
      is. */
  lemma ReselectUnchanged(d: Draft, catalog: seq<Discipline>, picked: set<string>)
    requires UniqueIds(catalog)
    ensures var d1 := DisciplineChange(d, catalog, SelectedValues(catalog, picked));
            MultiSelectValue(d1) == Some(SelectedValues(catalog, picked))
            && DisciplineChange(d1, catalog, SelectedValues(catalog, ShownSet(d1))) == d1
  {
    var chosen := Filter(catalog, Picked(picked));
    var values := SelectedValues(catalog, picked);
    var d1 := DisciplineChange(d, catalog, values);
    SelectStoresDisciplines(d, catalog, picked);
    assert forall i :: 0 <= i < |d1.disciplines| ==> d1.disciplines[i] == Some(chosen[i]);
    assert MultiSelectValue(d1).Some?;
    assert MultiSelectValue(d1).value == values;
    var shown := ShownSet(d1);
    FilterMembers(catalog, Picked(picked));
    forall i | 0 <= i < |catalog|
      ensures Picked(shown)(catalog[i]) == Picked(picked)(catalog[i])
    {
      if IdText(catalog[i].id) in picked {
        assert catalog[i] in chosen;
        var k :| 0 <= k < |chosen| && chosen[k] == catalog[i];
        assert values[k] == IdText(catalog[i].id);
      }
      if IdText(catalog[i].id) in shown {
        var k :| 0 <= k < |values| && values[k] == IdText(catalog[i].id);
        assert chosen[k] in chosen;
      }
    }
    FilterCongruent(catalog, Picked(shown), Picked(picked));
    SelectStoresDisciplines(d1, catalog, shown);
  }

  /** The values the multi-select shows as selected. */
  function ShownSet(d: Draft): set<string>
  {
    match MultiSelectValue(d)
    case None => {}
    case Some(values) => set i | 0 <= i < |values| :: values[i]
  }

  datatype FormEffect = PreventDefault | CreateParticipant

  /** Submitting the form: the browser's default submission is prevented, then the
      participant is handed on, once. */
  function SubmitEffects(): (effects: seq<FormEffect>)
    ensures effects != [] && effects[0] == PreventDefault
    ensures multiset(effects)[CreateParticipant] == 1
  {
    [PreventDefault, CreateParticipant]
  }
}
