/** The participant table: the sort indicators in its headers, the disciplines cell, and
    the Previous/Next pager under it. */
module Pager {
  import opened Text
  import opened Sorting
  import opened Sequences
  import opened Participants

  /** Previous is disabled on page 1. */
  predicate PreviousDisabled(page: int)
  {
    page == 1
  }

  /** Next is disabled once the current page reaches the end of the list. */
  predicate NextDisabled(page: int, perPage: int, total: int)
  {
    page * perPage >= total
  }

  datatype Click = Previous | Next

  /** The page after a click: Previous goes back one page and Next forward one; a
      disabled button does nothing. */
  function AfterClick(page: int, click: Click, total: int): int
  {
    match click
    case Previous => if PreviousDisabled(page) then page else page - 1
    case Next => if NextDisabled(page, PerPage, total) then page else page + 1
  }

  function Navigate(page: int, clicks: seq<Click>, total: int): int
    decreases |clicks|
  {
    if clicks == [] then page else Navigate(AfterClick(page, clicks[0], total), clicks[1..], total)
  }

  /** Page 1, or a later page that starts inside the list. */
  predicate InRange(page: int, total: int)
  {
    page == 1 || (1 < page && (page - 1) * PerPage < total)
  }

  /** An enabled button leads from a page in range to a page in range. */
  lemma ClickInRange(page: int, click: Click, total: int)
    requires InRange(page, total)
    ensures InRange(AfterClick(page, click, total), total)
  {
    if click == Previous && page > 2 {
      assert (page - 2) * PerPage <= (page - 1) * PerPage;
    }
  }

  /** Clicking the buttons from a page in range (page 1, say) keeps the page in range, so
      it never drops below 1 nor runs past the list. */
  lemma {:induction false} NavigateInRange(page: int, clicks: seq<Click>, total: int)
    requires InRange(page, total)
    ensures InRange(Navigate(page, clicks, total), total) && Navigate(page, clicks, total) >= 1
    decreases |clicks|
  {
    if clicks != [] {
      ClickInRange(page, clicks[0], total);
      NavigateInRange(AfterClick(page, clicks[0], total), clicks[1..], total);
    }
  }

  /** From any page from 1 on, including a page a filter left past the end of the list,
      clicking the buttons never takes the page below 1. */
  lemma {:induction false} NavigatePositive(page: int, clicks: seq<Click>, total: int)
    requires page >= 1
    ensures Navigate(page, clicks, total) >= 1
    decreases |clicks|
  {
    if clicks != [] {
      NavigatePositive(AfterClick(page, clicks[0], total), clicks[1..], total);
    }
  }

  /** A page in range of a non-empty list shows at least one participant. */
  lemma InRangePageNonEmpty<T>(list: seq<T>, page: int)
    requires list != [] && InRange(page, |list|)
    ensures |Page(list, page)| > 0
  {
    PageSpec(list, page);
  }

  /** When Next is enabled, the page it leads to is not empty. */
  lemma NextPageNonEmpty<T>(list: seq<T>, page: int)
    requires page >= 1 && !NextDisabled(page, PerPage, |list|)
    ensures |Page(list, page + 1)| > 0
  {
    PageSpec(list, page + 1);
  }

  /** Filters do not reset the page: on page 3 of 41 participants, a filter that leaves 5
      shows an empty page with Next disabled and only Previous to leave it. */
  lemma StalePageAfterFilter<T>(narrowed: seq<T>)
    requires |narrowed| == 5
    ensures InRange(3, 41) && !InRange(3, 5)
    ensures Page(narrowed, 3) == [] && NextDisabled(3, PerPage, 5) && !PreviousDisabled(3)
  {
    PageSpec(narrowed, 3);
  }

  const Up: string := "\U{2191}"
  const Down: string := "\U{2193}"

  /** The arrow after a column header: only the sorted column shows one. */
  function SortIndicator(config: Option<SortConfig>, column: SortKey): (mark: string)
    ensures mark != [] <==> config.Some? && config.value.key == column
    ensures mark == Up <==> config.Some? && config.value.key == column && config.value.direction == Ascending
    ensures mark == Down <==> config.Some? && config.value.key == column && config.value.direction == Descending
  {
    assert Up != Down && Up != [] && Down != [] by { assert Up[0] != Down[0]; }
    if config.Some? && config.value.key == column then
      if config.value.direction == Ascending then Up
      else assert config.value.direction == Descending; Down
    else ""
  }

  /** At most one header shows an arrow. */
  lemma OneIndicator(config: Option<SortConfig>, a: SortKey, b: SortKey)
    requires a != b
    ensures SortIndicator(config, a) == [] || SortIndicator(config, b) == []
  {
  }

  function DisciplineNames(ds: seq<Discipline>): (names: seq<string>)
    ensures |names| == |ds| && forall i :: 0 <= i < |ds| ==> names[i] == ds[i].disciplineName
  {
    seq(|ds|, i requires 0 <= i < |ds| => ds[i].disciplineName)
  }

  /** `participant.disciplines.map(d => d.disciplineName).join(', ')` */
  function DisciplinesCell(ds: seq<Discipline>): string
  {
    Join(DisciplineNames(ds), ", ")
  }

  /** The cell is empty with no disciplines, the one name with one discipline, and one more
      discipline appends ", " and its name: every name, in order, with ", " between
      neighbours. */
  lemma DisciplinesCellSpec(ds: seq<Discipline>, d: Discipline)
    ensures DisciplinesCell([]) == []
    ensures DisciplinesCell([d]) == d.disciplineName
    ensures ds != [] ==> DisciplinesCell(ds + [d]) == DisciplinesCell(ds) + ", " + d.disciplineName
    ensures ds != [] ==> |DisciplinesCell(ds)| == SumLengths(DisciplineNames(ds)) + 2 * (|ds| - 1)
    ensures ds != [] ==> ds[0].disciplineName <= DisciplinesCell(ds)
  {
    if ds != [] {
      assert DisciplineNames(ds + [d]) == DisciplineNames(ds) + [d.disciplineName];
      JoinSnoc(DisciplineNames(ds), d.disciplineName, ", ");
      JoinLength(DisciplineNames(ds), ", ");
      JoinStartsWith(DisciplineNames(ds), ", ");
    }
  }
}
