/**
 * The OWASP Top 10 scraper: it finds the heading with id
 * "top-10-web-application-security-risks", the list that follows it, and for every list item
 * the item's link, and records each link's text and target. The records go to a CSV file.
 * Any exception raised inside the `try` block is caught and reported as one diagnostic line,
 * and the browser is quit in the `finally` clause whatever happened.
 */
module Owasp {
  import opened Browser

  // ---------------------------------------------------------------------------
  // The page, as the selectors see it
  // ---------------------------------------------------------------------------

  /** An `a` element: its text and the value of its `href` attribute, which may be absent. */
  datatype Link = Link(text: string, href: Option<string>)

  /** One `li` of the list, with its first `a` element, if any. */
  datatype RiskItem = RiskItem(link: Option<Link>)

  /** The heading, with the `li` elements of the first `ul` that follows it, if there is one. */
  datatype Heading = Heading(followingList: Option<seq<RiskItem>>)

  /** The page, with the heading carrying the expected id, if there is one. */
  datatype TopTenPage = TopTenPage(heading: Option<Heading>)

  /** One CSV row: `{'Name': link.text, 'URL': link.get_attribute('href')}`. */
  datatype RiskRecord = RiskRecord(name: string, url: Option<string>)

  const HeadingSelector: string := "h2[id=\"top-10-web-application-security-risks\"]"
  const ListSelector: string := "following-sibling::ul"
  const LinkSelector: string := "a"

  /** Reading a CSV row back: its Name and URL columns as a link. */
  function LinkOf(r: RiskRecord): Link {
    Link(r.name, r.url)
  }

  /** The record made from an item's link. It keeps all of the link: reading it back gives the link. */
  function RecordOf(link: Link): (r: RiskRecord)
    ensures LinkOf(r) == link
    ensures RecordOf(LinkOf(r)) == r
  {
    RiskRecord(link.text, link.href)
  }

  predicate AllLinked(items: seq<RiskItem>) {
    forall k :: 0 <= k < |items| ==> items[k].link.Some?
  }

  /** The position of the first item without a link. */
  function FirstUnlinked(items: seq<RiskItem>): (k: nat)
    requires !AllLinked(items)
    ensures k < |items| && items[k].link.None?
    ensures forall j :: 0 <= j < k ==> items[j].link.Some?
  {
    if items[0].link.None? then 0
    else
      var k := FirstUnlinked(items[1..]);
      assert items[k + 1] == items[1..][k];
      k + 1
  }

  /** The records of all items, or the exception of the first item whose link lookup raises. */
  function CollectLinks(items: seq<RiskItem>): (r: Result<seq<RiskRecord>>)
    ensures r.Ok? <==> AllLinked(items)
    ensures r.Ok? ==> |r.value| == |items|
    ensures r.Ok? ==> forall k :: 0 <= k < |items| ==> r.value[k] == RecordOf(items[k].link.value)
    ensures r.Raised? ==> r.error == NotFound(LinkSelector)
  {
    if items == [] then Ok([])
    else
      match FindElement(items[0].link, LinkSelector)
      case Raised(e) => Raised(e)
      case Ok(link) =>
        match CollectLinks(items[1..])
        case Raised(e) => Raised(e)
        case Ok(rest) =>
          assert forall k :: 1 <= k < |items| ==> items[k] == items[1..][k - 1];
          Ok([RecordOf(link)] + rest)
  }

  /** The heading and the list both exist; `items` is then that list's items. */
  predicate HasList(page: TopTenPage) {
    page.heading.Some? && page.heading.value.followingList.Some?
  }

  function ListItems(page: TopTenPage): seq<RiskItem>
    requires HasList(page)
  {
    page.heading.value.followingList.value
  }

  /**
   * What the `try` and `except` clauses produce. The CSV is written only when the page
   * loaded, the heading and its list were found and every item had a link; then it holds one
   * record per item, in list order. Otherwise the first exception is reported and nothing is
   * written. The two `if` guards never fail, so the run is never silently skipped.
   */
  function ScrapeTopTen(nav: Navigation<TopTenPage>): (r: ScrapeOutcome<RiskRecord>)
    ensures r.Saved? <==> nav.Loaded? && HasList(nav.page) && AllLinked(ListItems(nav.page))
    ensures r.Saved? ==> |r.records| == |ListItems(nav.page)|
    ensures r.Saved? ==> forall k :: 0 <= k < |r.records| ==>
      r.records[k] == RecordOf(ListItems(nav.page)[k].link.value)
    ensures nav.NavigationFailed? ==> r == Reported(Diagnostic(nav.error))
    ensures nav.Loaded? && nav.page.heading.None? ==> r == Reported(Diagnostic(NotFound(HeadingSelector)))
    ensures nav.Loaded? && nav.page.heading.Some? && !HasList(nav.page) ==>
      r == Reported(Diagnostic(NotFound(ListSelector)))
    ensures nav.Loaded? && HasList(nav.page) && !AllLinked(ListItems(nav.page)) ==>
      r == Reported(Diagnostic(NotFound(LinkSelector)))
    ensures !r.Skipped?
  {
    match nav
    case NavigationFailed(e) => Reported(Diagnostic(e))
    case Loaded(page) =>
      match FindElement(page.heading, HeadingSelector)
      case Raised(e) => Reported(Diagnostic(e))
      case Ok(heading) =>
        match FindElement(heading.followingList, ListSelector)
        case Raised(e) => Reported(Diagnostic(e))
        case Ok(items) =>
          match CollectLinks(items)
          case Raised(e) => Reported(Diagnostic(e))
          case Ok(results) => Saved(results)
  }

  /**
   * The `try` and `except` clauses: the lookups in order, the records appended one per item
   * inside the loop; an exception ends the block and is reported.
   */
  method TryScrape(nav: Navigation<TopTenPage>) returns (outcome: ScrapeOutcome<RiskRecord>)
    ensures outcome == ScrapeTopTen(nav)
  {
    if nav.NavigationFailed? {
      return Reported(Diagnostic(nav.error));
    }
    var top10Header := FindElement(nav.page.heading, HeadingSelector);
    if top10Header.Raised? {
      return Reported(Diagnostic(top10Header.error));
    }
    // A found element is truthy: `if top_10_header:` always holds here.
    var unorderedList := FindElement(top10Header.value.followingList, ListSelector);
    if unorderedList.Raised? {
      return Reported(Diagnostic(unorderedList.error));
    }
    // Likewise `if unordered_list:`.
    var top10 := unorderedList.value;
    var results: seq<RiskRecord> := [];
    for i := 0 to |top10|
      invariant |results| == i
      invariant forall k :: 0 <= k < i ==> top10[k].link.Some? && results[k] == RecordOf(top10[k].link.value)
    {
      var riskLink := FindElement(top10[i].link, LinkSelector);
      if riskLink.Raised? {
        return Reported(Diagnostic(riskLink.error));
      }
      // And `if risk_link:`.
      results := results + [RecordOf(riskLink.value)];
    }
    outcome := Saved(results);
  }

  /** The whole script after the browser has started: `try` ... `finally: driver.quit()`. */
  method Run(driver: Driver, nav: Navigation<TopTenPage>) returns (outcome: ScrapeOutcome<RiskRecord>)
    requires !driver.closed
    modifies driver
    ensures driver.closed
    ensures outcome == ScrapeTopTen(nav)
  {
    outcome := TryScrape(nav);
    driver.Quit();
  }

  // ---------------------------------------------------------------------------
  // The evidently intended behaviour: the `if` guards skip what is missing
  // ---------------------------------------------------------------------------

  /** The records of the items that have a link, in list order. */
  function LinkedRecords(items: seq<RiskItem>): (records: seq<RiskRecord>)
    ensures |records| <= |items|
    ensures |records| == |items| <==> AllLinked(items)
  {
    if items == [] then []
    else
      var n := |items| - 1;
      var rest := LinkedRecords(items[..n]);
      assert AllLinked(items) <==> AllLinked(items[..n]) && items[n].link.Some? by {
        if AllLinked(items[..n]) && items[n].link.Some? {
          forall k | 0 <= k < |items| ensures items[k].link.Some? {
            if k < n { assert items[k] == items[..n][k]; }
          }
        }
      }
      rest + match items[n].link
             case Some(link) => [RecordOf(link)]
             case None => []
  }

  /**
   * Each intended record stands for a linked item: a record occurs exactly as often as an item
   * with that record's link does, and nothing else is recorded.
   */
  lemma {:induction false} LinkedRecordsCounts(items: seq<RiskItem>)
    ensures forall r :: multiset(LinkedRecords(items))[r] == multiset(items)[RiskItem(Some(LinkOf(r)))]
  {
    if items != [] {
      var n := |items| - 1;
      var front, last := items[..n], items[n];
      LinkedRecordsCounts(front);
      assert items == front + [last];
      var rest := LinkedRecords(front);
      forall r
        ensures multiset(LinkedRecords(items))[r] == multiset(items)[RiskItem(Some(LinkOf(r)))]
      {
        var item := RiskItem(Some(LinkOf(r)));
        assert multiset(items)[item] == multiset(front)[item] + multiset([last])[item];
        match last.link
        case None =>
          assert LinkedRecords(items) == rest;
          assert last != item;
        case Some(l) =>
          assert LinkedRecords(items) == rest + [RecordOf(l)];
          assert RecordOf(l) == r <==> last == item;
      }
    }
  }

  /** The intended filter works on each part of the list independently, so it keeps list order. */
  lemma {:induction false} LinkedRecordsAppend(a: seq<RiskItem>, b: seq<RiskItem>)
    ensures LinkedRecords(a + b) == LinkedRecords(a) + LinkedRecords(b)
    decreases |b|
  {
    if b == [] {
      assert a + b == a;
    } else {
      var n := |b| - 1;
      assert (a + b)[..|a + b| - 1] == a + b[..n];
      LinkedRecordsAppend(a, b[..n]);
    }
  }

  /**
   * The run the guards were written for: a missing heading or list skips the CSV without a
   * diagnostic, and an item without a link is skipped rather than aborting the run.
   */
  function ScrapeTopTenIntended(nav: Navigation<TopTenPage>): (r: ScrapeOutcome<RiskRecord>)
    ensures r.Saved? <==> nav.Loaded? && HasList(nav.page)
    ensures r.Skipped? <==> nav.Loaded? && !HasList(nav.page)
    ensures r.Saved? ==> r.records == LinkedRecords(ListItems(nav.page))
    ensures r.Saved? ==> |r.records| <= |ListItems(nav.page)|
    ensures nav.NavigationFailed? ==> r == Reported(Diagnostic(nav.error))
  {
    match nav
    case NavigationFailed(e) => Reported(Diagnostic(e))
    case Loaded(page) =>
      if HasList(page) then Saved(LinkedRecords(ListItems(page))) else Skipped
  }

  /** Where every item has a link, the intended records are one per item, in list order. */
  lemma {:induction false} LinkedRecordsAll(items: seq<RiskItem>)
    requires AllLinked(items)
    ensures |LinkedRecords(items)| == |items|
    ensures forall k :: 0 <= k < |items| ==> LinkedRecords(items)[k] == RecordOf(items[k].link.value)
  {
    if items != [] {
      var n := |items| - 1;
      var front := items[..n];
      assert AllLinked(front) by {
        forall k | 0 <= k < n ensures front[k].link.Some? { assert front[k] == items[k]; }
      }
      LinkedRecordsAll(front);
      var rest := LinkedRecords(front);
      assert LinkedRecords(items) == rest + [RecordOf(items[n].link.value)];
      forall k | 0 <= k < n ensures LinkedRecords(items)[k] == RecordOf(items[k].link.value) {
        assert front[k] == items[k];
      }
    }
  }

  /** Where every lookup succeeds, the script as written and the intended one agree. */
  lemma IntendedAgreesWhenAllFound(nav: Navigation<TopTenPage>)
    requires nav.Loaded? ==> HasList(nav.page) && AllLinked(ListItems(nav.page))
    ensures ScrapeTopTenIntended(nav) == ScrapeTopTen(nav)
  {
    if nav.Loaded? {
      LinkedRecordsAll(ListItems(nav.page));
    }
  }

  /**
   * A list whose only item has no link: as written, the run raises and writes no CSV; as
   * intended, it writes a CSV with no rows.
   */
  lemma UnlinkedItemAbortsScrape(nav: Navigation<TopTenPage>)
    requires nav == Loaded(TopTenPage(Some(Heading(Some([RiskItem(None)])))))
    ensures ScrapeTopTen(nav) == Reported(Diagnostic(NotFound(LinkSelector)))
    ensures ScrapeTopTenIntended(nav) == Saved([])
  {
    assert ListItems(nav.page)[0].link.None?;
  }
}
