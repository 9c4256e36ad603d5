/** Choosing how many rows the listing shows per page. */
module Density {
  import opened Wrappers
  import opened Numerals
  import opened Browser

  /** The values tried, in order: the requested count, then 60, 40, 20. */
  function Candidates(items: int): (c: seq<string>)
    ensures |c| == 4 && c[0] == IntToString(items)
  {
    [IntToString(items), "60", "40", "20"]
  }

  /** How a value was applied: by option value, or by visible text. */
  datatype Method = ByValue | ByText

  datatype Choice = Chosen(value: string, how: Method) | NotChosen

  /** A candidate is applied when it is among the offered values and one of
      the two ways of selecting it goes through. */
  predicate Applies(s: SizeSelect, v: string) {
    v in s.values && (v in s.byValue || v in s.byText)
  }

  /** The first candidate, from position `from` on, that applies. */
  function FirstApplicable(s: SizeSelect, candidates: seq<string>, from: nat): (r: Choice)
    requires from <= |candidates|
    ensures r.Chosen? ==> exists i :: (from <= i < |candidates| && candidates[i] == r.value
                                       && Applies(s, candidates[i])
                                       && forall j :: from <= j < i ==> !Applies(s, candidates[j]))
    ensures r.Chosen? ==> (r.how == ByValue <==> r.value in s.byValue)
    ensures r.NotChosen? <==> forall i :: from <= i < |candidates| ==> !Applies(s, candidates[i])
    decreases |candidates| - from
  {
    if from == |candidates| then NotChosen
    else
      var v := candidates[from];
      if v in s.values && v in s.byValue then Chosen(v, ByValue)
      else if v in s.values && v in s.byText then Chosen(v, ByText)
      else FirstApplicable(s, candidates, from + 1)
  }

  /** `_set_items_per_page`: nothing is chosen when the control never
      becomes clickable; otherwise the first applicable candidate. */
  function SetItemsPerPage(page: PageSnapshot, items: int): (r: Choice)
    ensures page.sizeSelect.None? ==> r.NotChosen?
    ensures r.Chosen? ==> r.value in Candidates(items) && Applies(page.sizeSelect.value, r.value)
    ensures page.sizeSelect.Some? ==>
      (r.NotChosen? <==> forall i :: 0 <= i < 4 ==> !Applies(page.sizeSelect.value, Candidates(items)[i]))
    ensures page.sizeSelect.Some? ==> r == FirstApplicable(page.sizeSelect.value, Candidates(items), 0)
  {
    match page.sizeSelect
    case None => NotChosen
    case Some(s) => FirstApplicable(s, Candidates(items), 0)
  }

  /** When the requested count is offered and selectable by value, it is
      chosen, whatever else the control offers. */
  lemma RequestedCountWins(page: PageSnapshot, items: int)
    requires page.sizeSelect.Some?
    requires IntToString(items) in page.sizeSelect.value.values
    requires IntToString(items) in page.sizeSelect.value.byValue
    ensures SetItemsPerPage(page, items) == Chosen(IntToString(items), ByValue)
  {
  }

  /** A control that offers nothing selectable leaves the default paging. */
  lemma NothingOfferedNothingChosen(page: PageSnapshot, items: int)
    requires page.sizeSelect.Some? && page.sizeSelect.value.values == []
    ensures SetItemsPerPage(page, items) == NotChosen
  {
  }
}
