/** How the scraper moves to the next page of the listing, and how it
    decides it is already on the last one. */
module Pagination {
  import opened Wrappers
  import opened Text
  import opened Numerals
  import opened Browser

  /** The selectors tried, in order, for a "next page" control. */
  const NextSelectors: seq<string> := [
    "a[aria-label='Next']",
    "a[title='Next']",
    "a[title='Próxima']",
    "button[aria-label='Next']",
    "button[title='Next']",
    "button[title='Próxima']",
    "a:contains('Next')",
    "a:contains('Próxima')",
    "a:contains('>')",
    ".pagination a[aria-label='Next']",
    ".pagination button[aria-label='Next']",
    ".pagination a:last-child",
    "a.page-link[aria-label='Next']",
    "li.page-item:last-child a",
    "a[data-dt-idx]",
    "button.paginate_button.next",
    ".dataTables_paginate .next"
  ]

  const ContainsMarker: string := ":contains("

  /** The text between the parentheses of a jQuery-style `:contains(...)`
      selector: the part after the first marker, up to the first `)`. */
  function SelectorArgument(selector: string): string
    requires Contains(selector, ContainsMarker)
  {
    Split(Split(selector, ContainsMarker)[1], ")")[0]
  }

  /** An XPath 1.0 test for an anchor whose text contains `literal`, with
      `literal` written as a single-quoted string. */
  function ContainsTextXPath(literal: string): string {
    "//a[contains(text(), '" + literal + "')]"
  }

  /** The XPath built for a `:contains` selector as the scraper writes it:
      the argument is interpolated with its own quotes still on it. */
  function ContainsXPathAsWritten(selector: string): string
    requires Contains(selector, ContainsMarker)
  {
    ContainsTextXPath(SelectorArgument(selector))
  }

  /** One pair of surrounding single quotes removed, if present. */
  function Unquote(a: string): (r: string)
    ensures |a| >= 2 && a[0] == '\'' && a[|a| - 1] == '\'' ==> a == "'" + r + "'"
    ensures !(|a| >= 2 && a[0] == '\'' && a[|a| - 1] == '\'') ==> r == a
  {
    if |a| >= 2 && a[0] == '\'' && a[|a| - 1] == '\'' then a[1..|a| - 1] else a
  }

  /** The XPath the `:contains` branch evidently means: the quoted argument
      becomes the XPath string literal. */
  function ContainsXPath(selector: string): string
    requires Contains(selector, ContainsMarker)
  {
    ContainsTextXPath(Unquote(SelectorArgument(selector)))
  }

  /** `IndexOf` is pinned down by one occurrence with none before it. */
  lemma IndexOfIs(s: string, p: string, i: nat)
    requires OccursAt(s, p, i)
    requires forall j :: 0 <= j < i ==> !OccursAt(s, p, j)
    ensures IndexOf(s, p) == Some(i)
  {
    IndexOfFirst(s, p);
  }

  /** The first piece of a split is the text before the first separator. */
  lemma SplitHead(s: string, sep: string, i: nat)
    requires |sep| > 0 && IndexOf(s, sep) == Some(i)
    ensures Split(s, sep)[0] == s[..i]
    ensures i + |sep| <= |s| && Split(s, sep)[1] == Split(s[i + |sep|..], sep)[0]
  {
    SplitStep(s, sep, i);
  }

  /** Where the marker sits in `tag:contains(arg)` when the tag has no colon. */
  lemma MarkerPosition(tag: string, rest: string)
    requires ':' !in tag
    ensures IndexOf(tag + ContainsMarker + rest, ContainsMarker) == Some(|tag|)
  {
    var s := tag + ContainsMarker + rest;
    assert s[|tag|..|tag| + |ContainsMarker|] == ContainsMarker;
    forall j | 0 <= j < |tag|
      ensures !OccursAt(s, ContainsMarker, j)
    {
      assert s[j] == tag[j] && tag[j] != ':';
      if j + |ContainsMarker| <= |s| {
        assert s[j..j + |ContainsMarker|][0] == s[j];
      }
    }
    IndexOfIs(s, ContainsMarker, |tag|);
  }

  /** Where the closing parenthesis sits in `arg)` when `arg` has none. */
  lemma ParenPosition(arg: string)
    requires ')' !in arg
    ensures IndexOf(arg + ")", ")") == Some(|arg|)
  {
    var s := arg + ")";
    assert s[|arg|..|arg| + 1] == ")";
    forall j | 0 <= j < |arg|
      ensures !OccursAt(s, ")", j)
    {
      assert s[j] == arg[j] && arg[j] != ')';
      assert s[j..j + 1][0] == s[j];
    }
    IndexOfIs(s, ")", |arg|);
  }

  /** Text without a colon holds no marker. */
  lemma NoColonNoMarker(x: string)
    requires ':' !in x
    ensures IndexOf(x, ContainsMarker) == None
  {
    IndexOfFirst(x, ContainsMarker);
    forall j | 0 <= j && j + |ContainsMarker| <= |x|
      ensures !OccursAt(x, ContainsMarker, j)
    {
      assert x[j..j + |ContainsMarker|][0] == x[j];
    }
  }

  /** For a selector `tag:contains(arg)` with no colon in the tag or the
      argument and no parenthesis in the argument, the extracted argument
      is `arg` exactly. */
  lemma ArgumentOfContainsSelector(tag: string, arg: string)
    requires ':' !in tag && ':' !in arg && ')' !in arg
    ensures Contains(tag + ContainsMarker + arg + ")", ContainsMarker)
    ensures SelectorArgument(tag + ContainsMarker + arg + ")") == arg
  {
    var rest := arg + ")";
    var s := tag + ContainsMarker + rest;
    assert s == tag + ContainsMarker + arg + ")";
    MarkerPosition(tag, rest);
    SplitHead(s, ContainsMarker, |tag|);
    assert s[|tag| + |ContainsMarker|..] == rest;
    NoColonNoMarker(rest);
    assert Split(s, ContainsMarker)[1] == rest;
    ParenPosition(arg);
    SplitHead(rest, ")", |arg|);
    assert rest[..|arg|] == arg;
  }

  /** As written, a selector `tag:contains('t')` becomes an XPath whose
      argument starts with an empty literal `''`: no single quoted literal
      makes it a well-formed `contains` test. */
  lemma ContainsXPathAsWrittenIsMalformed(tag: string, t: string)
    requires ':' !in tag && ':' !in t && ')' !in t
    ensures Contains(tag + ":contains('" + t + "')", ContainsMarker)
    ensures ContainsXPathAsWritten(tag + ":contains('" + t + "')") == "//a[contains(text(), ''" + t + "'')]"
    ensures forall literal :: '\'' !in literal ==>
      ContainsXPathAsWritten(tag + ":contains('" + t + "')") != ContainsTextXPath(literal)
  {
    var arg := "'" + t + "'";
    assert tag + ":contains('" + t + "')" == tag + ContainsMarker + arg + ")";
    ArgumentOfContainsSelector(tag, arg);
    var x := ContainsXPathAsWritten(tag + ":contains('" + t + "')");
    assert x == "//a[contains(text(), '" + arg + "')]";
    var prefix := "//a[contains(text(), '";
    assert x[|prefix|] == '\'';
    forall literal | '\'' !in literal
      ensures x != ContainsTextXPath(literal)
    {
      var y := ContainsTextXPath(literal);
      if |literal| == |arg| {
        assert y[|prefix|] == literal[0];
      } else {
        assert |y| != |x|;
      }
    }
  }

  /** With the quotes taken off, a selector `tag:contains('t')` becomes the
      `contains` test for the text `t`. */
  lemma ContainsXPathTestsText(tag: string, t: string)
    requires ':' !in tag && ':' !in t && ')' !in t
    ensures Contains(tag + ":contains('" + t + "')", ContainsMarker)
    ensures ContainsXPath(tag + ":contains('" + t + "')") == ContainsTextXPath(t)
  {
    var arg := "'" + t + "'";
    assert tag + ":contains('" + t + "')" == tag + ContainsMarker + arg + ")";
    ArgumentOfContainsSelector(tag, arg);
    assert arg[1..|arg| - 1] == t;
  }

  /** How a "next" selector is looked up: `:contains` selectors through the
      XPath the scraper builds (quotes and all), every other selector as
      CSS. What the driver answers for that XPath is up to the snapshot. */
  function NextLocator(selector: string): (l: Locator)
    ensures l.XPath? <==> Contains(selector, ContainsMarker)
    ensures l.XPath? ==> l.expr == ContainsXPathAsWritten(selector)
    ensures l.Css? ==> l.selector == selector
  {
    if Contains(selector, ContainsMarker) then XPath(ContainsXPathAsWritten(selector)) else Css(selector)
  }

  /** A control the scraper is willing to click: displayed, enabled, its
      `disabled` attribute absent or empty, `aria-disabled` not "true", and
      no "disabled" anywhere in its lower-cased class list. */
  predicate Usable(c: Control) {
    && c.displayed
    && c.enabled
    && (c.disabledAttr.None? || c.disabledAttr.value == "")
    && c.ariaDisabled != Some("true")
    && !Contains(Lower(c.classAttr.GetOr("")), "disabled")
  }

  /** A direct click or, failing that, a script click goes through. */
  predicate Clickable(c: Control) {
    c.clickWorks || c.scriptClickWorks
  }

  /** The index of the first usable control. */
  function FirstUsable(items: seq<Control>): (r: Option<nat>)
    ensures r.Some? ==> r.value < |items| && Usable(items[r.value])
    ensures r.Some? ==> forall j :: 0 <= j < r.value ==> !Usable(items[j])
    ensures r.None? ==> forall j :: 0 <= j < |items| ==> !Usable(items[j])
  {
    if items == [] then None
    else if Usable(items[0]) then Some(0)
    else
      match FirstUsable(items[1..])
      case Some(i) => Some(i + 1)
      case None => None
  }

  /** What one selector achieves: the index of the control it clicked. Only
      the first usable control is tried; if both the direct click and the
      script click fail, or the lookup raises, the selector is abandoned. */
  function SelectorClick(page: PageSnapshot, selector: string): (r: Option<nat>)
    ensures r.Some? ==> Query(page, NextLocator(selector)).Found?
    ensures r.Some? ==> var items := Query(page, NextLocator(selector)).items;
      r.value < |items| && Usable(items[r.value])
      && Clickable(items[r.value])
      && forall j :: 0 <= j < r.value ==> !Usable(items[j])
    ensures Query(page, NextLocator(selector)).Found? ==>
      var items := Query(page, NextLocator(selector)).items;
      FirstUsable(items).Some? && Clickable(items[FirstUsable(items).value]) ==> r == FirstUsable(items)
  {
    match Query(page, NextLocator(selector))
    case Broken => None
    case Found(items) =>
      match FirstUsable(items)
      case None => None
      case Some(j) =>
        if Clickable(items[j]) then Some(j) else None
  }

  /** A successful click: which selector found the control, and which of
      its matches was clicked. */
  datatype Clicked = Clicked(selector: nat, element: nat)

  /** The first selector, from position `from` on, that clicks something. */
  function FirstClick(page: PageSnapshot, selectors: seq<string>, from: nat): (r: Option<Clicked>)
    requires from <= |selectors|
    ensures r.Some? ==> (from <= r.value.selector < |selectors|
                         && SelectorClick(page, selectors[r.value.selector]) == Some(r.value.element))
    ensures r.Some? ==> forall i :: from <= i < r.value.selector ==> SelectorClick(page, selectors[i]).None?
    ensures r.None? ==> forall i :: from <= i < |selectors| ==> SelectorClick(page, selectors[i]).None?
    decreases |selectors| - from
  {
    if from == |selectors| then None
    else
      match SelectorClick(page, selectors[from])
      case Some(j) => Some(Clicked(from, j))
      case None => FirstClick(page, selectors, from + 1)
  }

  const NumericLinks: Locator := XPath("//a[matches(text(), '^[0-9]+$')]")
  const CurrentIndicators: Locator := Css(".active, .current, [aria-current='page']")

  /** The link to page `n`, looked up by its exact text. */
  function PageLink(n: int): Locator {
    XPath("//a[text()='" + IntToString(n) + "']")
  }

  /** The current page number as the indicator shows it; "1" when no
      indicator is found or the lookup raises. */
  function CurrentPageText(page: PageSnapshot): string {
    match Query(page, CurrentIndicators)
    case Found(items) => if items != [] then Strip(items[0].text) else "1"
    case Broken => "1"
  }

  /** Everything the numeric fallback needs: numbered links exist, the
      indicator parses, and the link to the next number is there, displayed,
      enabled and clickable. */
  predicate NextLinkReady(page: PageSnapshot) {
    && Query(page, NumericLinks).Found? && Query(page, NumericLinks).items != []
    && ParseInt(CurrentPageText(page)).Some?
    && var target := ParseInt(CurrentPageText(page)).value + 1;
       && Query(page, PageLink(target)).Found? && Query(page, PageLink(target)).items != []
       && var link := Query(page, PageLink(target)).items[0];
          link.displayed && link.enabled && link.clickWorks
  }

  /** The numeric fallback: when numbered links exist, read the current
      page number, and click the first link labelled with the next number.
      It fails when the number does not parse, the link is missing, hidden
      or disabled, or the click raises. */
  function NumericFallback(page: PageSnapshot): (r: Option<int>)
    ensures r.Some? ==> (Query(page, NumericLinks).Found? && Query(page, NumericLinks).items != [])
    ensures r.Some? ==> ParseInt(CurrentPageText(page)) == Some(r.value - 1)
    ensures r.Some? ==> (Query(page, PageLink(r.value)).Found? && Query(page, PageLink(r.value)).items != [])
    ensures r.Some? ==> var link := Query(page, PageLink(r.value)).items[0];
      link.displayed && link.enabled && link.clickWorks
    ensures NextLinkReady(page) ==> r == Some(ParseInt(CurrentPageText(page)).value + 1)
  {
    match Query(page, NumericLinks)
    case Broken => None
    case Found(links) =>
      if links == [] then None
      else
        match ParseInt(CurrentPageText(page))
        case None => None
        case Some(n) =>
          match Query(page, PageLink(n + 1))
          case Broken => None
          case Found(targets) =>
            if targets != [] && targets[0].displayed && targets[0].enabled && targets[0].clickWorks then Some(n + 1)
            else None
  }

  /** How the scraper left the page. */
  datatype Advance = ByControl(selectorIndex: nat, elementIndex: nat) | ByNumber(target: int) | NoAdvance

  /** `_find_next_page_button` with the given selector list (the scraper
      uses `NextSelectors`): the first selector that clicks a control wins;
      when none does, the numeric fallback is tried. */
  function FindNextPage(page: PageSnapshot, selectors: seq<string>): (r: Advance)
    ensures r.ByControl? ==> (r.selectorIndex < |selectors|
                              && SelectorClick(page, selectors[r.selectorIndex]) == Some(r.elementIndex))
    ensures r.ByControl? ==> forall i :: 0 <= i < r.selectorIndex ==> SelectorClick(page, selectors[i]).None?
    ensures !r.ByControl? ==> forall i :: 0 <= i < |selectors| ==> SelectorClick(page, selectors[i]).None?
    ensures r.ByNumber? ==> NumericFallback(page) == Some(r.target)
    ensures r.NoAdvance? ==> NumericFallback(page).None?
  {
    match FirstClick(page, selectors, 0)
    case Some(c) => ByControl(c.selector, c.element)
    case None =>
      match NumericFallback(page)
      case Some(n) => ByNumber(n)
      case None => NoAdvance
  }

  /** When no selector clicks anything and the next numbered link is ready,
      the scraper advances to the page after the current one. */
  lemma FallbackAdvancesWhenNoControlClicks(page: PageSnapshot, selectors: seq<string>)
    requires forall i :: 0 <= i < |selectors| ==> SelectorClick(page, selectors[i]).None?
    requires NextLinkReady(page)
    ensures FindNextPage(page, selectors) == ByNumber(ParseInt(CurrentPageText(page)).value + 1)
  {
  }

  /** A disabled-looking control is never the one clicked. */
  lemma ClickedControlIsUsable(page: PageSnapshot, selectors: seq<string>)
    requires FindNextPage(page, selectors).ByControl?
    ensures var a := FindNextPage(page, selectors);
      var l := Query(page, NextLocator(selectors[a.selectorIndex]));
      l.Found? && a.elementIndex < |l.items| && Usable(l.items[a.elementIndex])
  {
  }

  /** A page on which every lookup finds nothing offers no way forward. */
  lemma EmptyPageHasNoNext(page: PageSnapshot, selectors: seq<string>)
    requires page.queries == map[]
    ensures FindNextPage(page, selectors) == NoAdvance
  {
  }

  /** The selectors whose match means the "next" control is disabled. */
  const DisabledSelectors: seq<string> := [
    "a[aria-label='Next'][aria-disabled='true']",
    "button[aria-label='Next'][disabled]",
    "a[title='Next'].disabled",
    "button[title='Next']:disabled",
    ".pagination .next.disabled",
    ".dataTables_paginate .next.disabled"
  ]

  /** Texts that announce the end of the listing. */
  const LastPageMarkers: seq<string> := ["última página", "last page", "fim da lista", "end of list"]

  /** Outcome of scanning the disabled selectors: one matched, one raised
      before any matched, or none matched. */
  datatype Scan = Hit | Raised | Clear

  /** The answer to the lookup of the i-th disabled selector. */
  function DisabledLookup(page: PageSnapshot, i: nat): Lookup<Control>
    requires i < |DisabledSelectors|
  {
    Query(page, Css(DisabledSelectors[i]))
  }

  /** The i-th disabled selector finds at least one element. */
  predicate DisabledMatch(page: PageSnapshot, i: nat)
    requires i < |DisabledSelectors|
  {
    DisabledLookup(page, i).Found? && DisabledLookup(page, i).items != []
  }

  /** Every disabled selector from `from` up to `to` finds nothing. */
  predicate ClearBetween(page: PageSnapshot, from: nat, to: nat)
    requires to <= |DisabledSelectors|
  {
    forall j :: from <= j < to ==> DisabledLookup(page, j) == Found([])
  }

  /** The scan from position `from`: the first selector whose lookup does
      not come back empty decides, a match giving `Hit` and a raise giving
      `Raised`. */
  function ScanDisabled(page: PageSnapshot, from: nat): (r: Scan)
    requires from <= |DisabledSelectors|
    ensures r == Clear <==> ClearBetween(page, from, |DisabledSelectors|)
    ensures r == Hit <==> (exists i :: from <= i < |DisabledSelectors| &&
                                       ClearBetween(page, from, i) && DisabledMatch(page, i))
    ensures r == Raised <==> (exists i :: from <= i < |DisabledSelectors| &&
                                          ClearBetween(page, from, i) && DisabledLookup(page, i).Broken?)
    decreases |DisabledSelectors| - from
  {
    if from == |DisabledSelectors| then Clear
    else
      match DisabledLookup(page, from)
      case Broken =>
        assert ClearBetween(page, from, from);
        Raised
      case Found(items) =>
        if items != [] then
          assert ClearBetween(page, from, from);
          Hit
        else
          var r := ScanDisabled(page, from + 1);
          assert forall i :: from < i <= |DisabledSelectors| ==>
            (ClearBetween(page, from, i) <==> ClearBetween(page, from + 1, i));
          r
  }

  /** The first disabled selector that finds something decides the page is
      the last one, whatever the page source says. */
  lemma DisabledMatchMeansLastPage(page: PageSnapshot, i: nat)
    requires i < |DisabledSelectors| && ClearBetween(page, 0, i) && DisabledMatch(page, i)
    ensures IsLastPage(page)
  {
  }

  /** Some marker occurs in the text. */
  predicate HasMarker(text: string) {
    exists i :: 0 <= i < |LastPageMarkers| && Contains(text, LastPageMarkers[i])
  }

  /** `_check_if_last_page`: a disabled "next" control, or failing that an
      end-of-list text in the lower-cased page source. A lookup or source
      read that raises makes the answer "not last". */
  function IsLastPage(page: PageSnapshot): (r: bool)
    ensures ScanDisabled(page, 0) == Hit ==> r
    ensures ScanDisabled(page, 0) == Raised ==> !r
    ensures ScanDisabled(page, 0) == Clear ==> (r <==> page.source.Some? && HasMarker(Lower(page.source.value)))
  {
    match ScanDisabled(page, 0)
    case Hit => true
    case Raised => false
    case Clear =>
      match page.source
      case None => false
      case Some(src) => HasMarker(Lower(src))
  }

  /** The marker test ignores case: a page whose source contains any text
      that lower-cases to one of the markers ("LAST PAGE", "Fim da Lista",
      ...) counts as the last. */
  lemma MarkersMatchAnyCase(page: PageSnapshot, text: string, i: nat)
    requires ScanDisabled(page, 0) == Clear && page.source.Some?
    requires i < |LastPageMarkers| && Lower(text) == LastPageMarkers[i]
    requires Contains(page.source.value, text)
    ensures IsLastPage(page)
  {
    LowerPreservesContains(page.source.value, text);
    assert Contains(Lower(page.source.value), LastPageMarkers[i]);
  }
}
