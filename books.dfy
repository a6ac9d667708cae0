/**
 * The library-catalogue scraper: for every search result item on the page it builds a
 * dictionary with the keys Title, Author and Format-Year, then writes the list of
 * dictionaries to a '|'-separated file and a JSON file. Any exception raised inside the `try`
 * block is caught and reported as one diagnostic line, and nothing is written.
 */
module Books {
  import opened Browser

  // ---------------------------------------------------------------------------
  // The page, as the selectors see it
  // ---------------------------------------------------------------------------

  /** `div.cp-format-info`, with the text of its first `span.display-info-primary`, if any. */
  datatype FormatInfo = FormatInfo(primary: Option<string>)

  /**
   * One `li.cp-search-result-item`: the text of its first `span.title-content`, the texts of
   * all its `a.author-link` elements in page order, and its first `div.cp-format-info`.
   */
  datatype ResultItem = ResultItem(title: Option<string>, authors: seq<string>, formatInfo: Option<FormatInfo>)

  /** The search results page: its result items in page order. */
  datatype SearchPage = SearchPage(items: seq<ResultItem>)

  const TitleSelector: string := "span.title-content"
  const FormatSelector: string := "div.cp-format-info"
  const PrimarySelector: string := "span.display-info-primary"

  const TitleKey: string := "Title"
  const AuthorKey: string := "Author"
  const FormatYearKey: string := "Format-Year"

  const TitleNotFound: string := "title not found"
  const AuthorNotFound: string := "author not found"
  const NoFormatYear: string := "no format-year found"

  /** The separator of the joined author names. */
  const AuthorSeparator: char := ';'

  // ---------------------------------------------------------------------------
  // Python dictionaries: insertion-ordered, an overwrite keeps the key's position
  // ---------------------------------------------------------------------------

  /** A dictionary as the list of its items in insertion order. */
  type Dict = seq<(string, string)>

  function Keys(d: Dict): (ks: seq<string>)
    ensures |ks| == |d|
    ensures forall i :: 0 <= i < |d| ==> ks[i] == d[i].0
  {
    if d == [] then [] else [d[0].0] + Keys(d[1..])
  }

  /** `d.get(k)`. */
  function Get(d: Dict, k: string): Option<string> {
    if d == [] then None
    else if d[0].0 == k then Some(d[0].1)
    else Get(d[1..], k)
  }

  /** `d[k] = v`: a new key goes to the end, an existing key keeps its place. */
  function Put(d: Dict, k: string, v: string): (r: Dict)
    ensures Keys(r) == if k in Keys(d) then Keys(d) else Keys(d) + [k]
    ensures Get(r, k) == Some(v)
    ensures forall other :: other != k ==> Get(r, other) == Get(d, other)
  {
    if d == [] then [(k, v)]
    else if d[0].0 == k then [(k, v)] + d[1..]
    else
      var rest := Put(d[1..], k, v);
      assert Keys([d[0]] + rest) == [d[0].0] + Keys(rest) by {
        assert ([d[0]] + rest)[1..] == rest;
      }
      [d[0]] + rest
  }

  /** The value stored under the first occurrence of a key is what `get` finds. */
  lemma {:induction false} GetAt(d: Dict, i: nat)
    requires i < |d| && forall j :: 0 <= j < i ==> d[j].0 != d[i].0
    ensures Get(d, d[i].0) == Some(d[i].1)
  {
    if i > 0 {
      assert d[1..][i - 1] == d[i];
      GetAt(d[1..], i - 1);
    }
  }

  /** Storing under a new key appends the item. */
  lemma {:induction false} PutNew(d: Dict, k: string, v: string)
    requires k !in Keys(d)
    ensures Put(d, k, v) == d + [(k, v)]
  {
    if d != [] {
      assert d[0].0 == Keys(d)[0];
      assert k !in Keys(d[1..]) by {
        forall i | 0 <= i < |d| - 1 ensures Keys(d[1..])[i] != k { assert Keys(d[1..])[i] == Keys(d)[i + 1]; }
      }
      PutNew(d[1..], k, v);
      assert [d[0]] + (d[1..] + [(k, v)]) == d + [(k, v)];
    }
  }

  /** Storing under an existing key replaces its value in place. */
  lemma {:induction false} PutExisting(d: Dict, i: nat, v: string)
    requires i < |d| && forall j :: 0 <= j < i ==> d[j].0 != d[i].0
    ensures Put(d, d[i].0, v) == d[i := (d[i].0, v)]
  {
    var k := d[i].0;
    if i > 0 {
      var tail := d[1..];
      assert tail[i - 1] == d[i];
      assert forall j :: 0 <= j < i - 1 ==> tail[j].0 != k by {
        forall j | 0 <= j < i - 1 ensures tail[j].0 != k { assert tail[j] == d[j + 1]; }
      }
      assert d[0].0 != k;
      PutExisting(tail, i - 1, v);
      UpdateAfterHead(d, i, (k, v));
    }
  }

  /** Updating past the head of a dictionary updates its tail. */
  lemma UpdateAfterHead(d: Dict, i: nat, item: (string, string))
    requires 0 < i < |d|
    ensures [d[0]] + d[1..][i - 1 := item] == d[i := item]
  {
  }

  // ---------------------------------------------------------------------------
  // Joining the author names
  // ---------------------------------------------------------------------------

  /** `sep.join(parts)`. */
  function Join(parts: seq<string>, sep: char): string {
    if parts == [] then []
    else if |parts| == 1 then parts[0]
    else parts[0] + [sep] + Join(parts[1..], sep)
  }

  /** `s.split(sep)`: the pieces between the separators; always at least one piece. */
  function Split(s: string, sep: char): (pieces: seq<string>)
    ensures |pieces| > 0
  {
    if s == [] then [[]]
    else if s[0] == sep then [[]] + Split(s[1..], sep)
    else
      var rest := Split(s[1..], sep);
      [[s[0]] + rest[0]] + rest[1..]
  }

  lemma {:induction false} SplitWithoutSeparator(s: string, sep: char)
    requires sep !in s
    ensures Split(s, sep) == [s]
  {
    if s != [] {
      SplitWithoutSeparator(s[1..], sep);
      assert [s[0]] + s[1..] == s;
    }
  }

  lemma {:induction false} SplitAtSeparator(p: string, sep: char, t: string)
    requires sep !in p
    ensures Split(p + [sep] + t, sep) == [p] + Split(t, sep)
  {
    var s := p + [sep] + t;
    if p == [] {
      assert s == [sep] + t;
      assert s[1..] == t;
    } else {
      assert s[1..] == p[1..] + [sep] + t;
      SplitAtSeparator(p[1..], sep, t);
      assert [p[0]] + p[1..] == p;
    }
  }

  /** Splitting the joined names at the separator gives back the names, if none holds it. */
  lemma {:induction false} SplitJoin(parts: seq<string>, sep: char)
    requires |parts| > 0
    requires forall k :: 0 <= k < |parts| ==> sep !in parts[k]
    ensures Split(Join(parts, sep), sep) == parts
  {
    if |parts| == 1 {
      SplitWithoutSeparator(parts[0], sep);
    } else {
      SplitJoin(parts[1..], sep);
      SplitAtSeparator(parts[0], sep, Join(parts[1..], sep));
      assert [parts[0]] + parts[1..] == parts;
    }
  }

  /** Three authors "Alice", "Bob" and "Carol" give "Alice;Bob;Carol". */
  lemma JoinExample(parts: seq<string>)
    requires parts == ["Alice", "Bob", "Carol"]
    ensures Join(parts, AuthorSeparator) == "Alice;Bob;Carol"
  {
    assert parts[1..][1..] == ["Carol"];
    assert Join(parts[1..], AuthorSeparator) == "Bob;Carol";
  }

  // ---------------------------------------------------------------------------
  // One record
  // ---------------------------------------------------------------------------

  /** The Author field: the joined link texts, or the sentinel when the item has no author link. */
  function AuthorField(authors: seq<string>): string {
    if |authors| == 0 then AuthorNotFound else Join(authors, AuthorSeparator)
  }

  /**
   * The Author field is the sentinel exactly when there is no author link, provided no
   * author is literally called "author not found".
   */
  lemma AuthorSentinelExactly(authors: seq<string>)
    requires AuthorNotFound !in authors
    ensures AuthorField(authors) == AuthorNotFound <==> authors == []
  {
    if |authors| > 1 {
      var s := AuthorField(authors);
      assert s[|authors[0]|] == AuthorSeparator;
      assert AuthorSeparator !in AuthorNotFound by {
        forall i | 0 <= i < |AuthorNotFound| ensures AuthorNotFound[i] != AuthorSeparator { }
      }
    }
  }

  /** Every single-element lookup of an item succeeds; only then is a record produced. */
  predicate Complete(item: ResultItem) {
    item.title.Some? && item.formatInfo.Some? && item.formatInfo.value.primary.Some?
  }

  /** The selector of the first lookup that raises on an incomplete item, in program order. */
  function MissingSelector(item: ResultItem): (selector: string)
    requires !Complete(item)
    ensures selector == TitleSelector <==> item.title.None?
    ensures selector == PrimarySelector <==> item.title.Some? && item.formatInfo.Some?
  {
    if item.title.None? then TitleSelector
    else if item.formatInfo.None? then FormatSelector
    else PrimarySelector
  }

  /** The record built for a complete item. */
  function BookRecordOf(item: ResultItem): (d: Dict)
    requires Complete(item)
    ensures Keys(d) == [TitleKey, AuthorKey, FormatYearKey]
    ensures Get(d, TitleKey) == Some(item.title.value)
    ensures Get(d, AuthorKey) == Some(AuthorField(item.authors))
    ensures Get(d, FormatYearKey) == item.formatInfo.value.primary
  {
    var d := [(TitleKey, item.title.value), (AuthorKey, AuthorField(item.authors)),
              (FormatYearKey, item.formatInfo.value.primary.value)];
    GetAt(d, 0);
    GetAt(d, 1);
    GetAt(d, 2);
    d
  }

  /**
   * The diagnostic line tells which element of an item was missing: two incomplete items
   * print the same line only if they lack the same element.
   */
  lemma DiagnosticTellsMissingElement(a: ResultItem, b: ResultItem)
    requires !Complete(a) && !Complete(b)
    requires Diagnostic(NotFound(MissingSelector(a))) == Diagnostic(NotFound(MissingSelector(b)))
    ensures a.title.None? <==> b.title.None?
    ensures a.title.Some? && a.formatInfo.None? <==> b.title.Some? && b.formatInfo.None?
    ensures a.title.Some? && a.formatInfo.Some? <==> b.title.Some? && b.formatInfo.Some?
  {
    var sa, sb := MissingSelector(a), MissingSelector(b);
    if sa != sb {
      DistinctSelectorsDistinctLines<string>(None, sa, sb);
    }
  }

  /** Building one record: the record, or the exception the first failing lookup raises. */
  function BookDict(item: ResultItem): Result<Dict> {
    if Complete(item) then Ok(BookRecordOf(item)) else Raised(NotFound(MissingSelector(item)))
  }

  /**
   * Lines 33-40 of the loop body: the author names are collected one by one by an inner
   * loop and joined, or the sentinel is used when the item has no author link.
   */
  method AuthorValue(bookAuthors: seq<string>) returns (author: string)
    ensures author == AuthorField(bookAuthors)
  {
    if |bookAuthors| == 0 {
      author := AuthorNotFound;
    } else {
      var authorList: seq<string> := [];
      for i := 0 to |bookAuthors|
        invariant authorList == bookAuthors[..i]
      {
        authorList := authorList + [bookAuthors[i]];
      }
      assert authorList == bookAuthors;
      author := Join(authorList, AuthorSeparator);
    }
  }

  /** The three fields stored in program order land in that order. */
  lemma FilledInOrder(title: string, author: string)
    ensures Put(Put(Put([], TitleKey, title), AuthorKey, author), FormatYearKey, NoFormatYear)
         == [(TitleKey, title), (AuthorKey, author), (FormatYearKey, NoFormatYear)]
  {
    var d1 := [(TitleKey, title)];
    var d2 := d1 + [(AuthorKey, author)];
    assert Put([], TitleKey, title) == d1;
    assert Put(d1, AuthorKey, author) == d2 by { PutNew(d1, AuthorKey, author); }
    PutNew(d2, FormatYearKey, NoFormatYear);
  }

  /** Storing the found format text replaces the 'no format-year found' default in place. */
  lemma FormatYearOverwritten(title: string, author: string, formatYear: string)
    ensures Put([(TitleKey, title), (AuthorKey, author), (FormatYearKey, NoFormatYear)], FormatYearKey, formatYear)
         == [(TitleKey, title), (AuthorKey, author), (FormatYearKey, formatYear)]
  {
    PutExisting([(TitleKey, title), (AuthorKey, author), (FormatYearKey, NoFormatYear)], 2, formatYear);
  }

  /**
   * The body of the `for element in results_list` loop: `book_dict` filled field by field.
   * A lookup that raises ends the body with its exception.
   */
  method BuildBookDict(element: ResultItem) returns (r: Result<Dict>)
    ensures r == BookDict(element)
  {
    var bookDict: Dict := [];
    var bookTitle := FindElement(element.title, TitleSelector);
    if bookTitle.Raised? {
      return Raised(bookTitle.error);
    }
    var title := bookTitle.value;
    // A found element is truthy, so the 'title not found' branch is never taken.
    bookDict := Put(bookDict, TitleKey, title);
    var author := AuthorValue(element.authors);
    bookDict := Put(bookDict, AuthorKey, author);
    bookDict := Put(bookDict, FormatYearKey, NoFormatYear);
    FilledInOrder(title, author);
    var bookInfoDiv := FindElement(element.formatInfo, FormatSelector);
    if bookInfoDiv.Raised? {
      return Raised(bookInfoDiv.error);
    }
    var formatYear := FindElement(bookInfoDiv.value.primary, PrimarySelector);
    if formatYear.Raised? {
      return Raised(formatYear.error);
    }
    bookDict := Put(bookDict, FormatYearKey, formatYear.value);
    FormatYearOverwritten(title, author, formatYear.value);
    r := Ok(bookDict);
  }

  // ---------------------------------------------------------------------------
  // The whole run
  // ---------------------------------------------------------------------------

  predicate AllComplete(items: seq<ResultItem>) {
    forall k :: 0 <= k < |items| ==> Complete(items[k])
  }

  /** The position of the first item whose record cannot be built. */
  function FirstIncomplete(items: seq<ResultItem>): (k: nat)
    requires !AllComplete(items)
    ensures k < |items| && !Complete(items[k])
    ensures forall j :: 0 <= j < k ==> Complete(items[j])
  {
    if !Complete(items[0]) then 0
    else
      var k := FirstIncomplete(items[1..]);
      assert items[k + 1] == items[1..][k];
      k + 1
  }

  /** The records of all items, or the exception of the first item that raises. */
  function BuildAll(items: seq<ResultItem>): (r: Result<seq<Dict>>)
    ensures r.Ok? <==> AllComplete(items)
    ensures r.Ok? ==> |r.value| == |items|
    ensures r.Ok? ==> forall k :: 0 <= k < |items| ==> r.value[k] == BookRecordOf(items[k])
    ensures r.Raised? ==> r.error == NotFound(MissingSelector(items[FirstIncomplete(items)]))
  {
    if items == [] then Ok([])
    else
      match BookDict(items[0])
      case Raised(e) => Raised(e)
      case Ok(d) =>
        match BuildAll(items[1..])
        case Raised(e) =>
          assert FirstIncomplete(items) == FirstIncomplete(items[1..]) + 1;
          Raised(e)
        case Ok(rest) =>
          assert forall k :: 1 <= k < |items| ==> items[k] == items[1..][k - 1];
          Ok([d] + rest)
  }

  /**
   * One run of the script on the page `driver.get` produced: records are saved only when the
   * page loaded and every item yielded its record; then there is one record per item, in page
   * order. Otherwise the run prints the diagnostic of the first exception and saves nothing.
   */
  function ScrapeBooks(nav: Navigation<SearchPage>): (r: ScrapeOutcome<Dict>)
    ensures r.Saved? <==> nav.Loaded? && AllComplete(nav.page.items)
    ensures r.Saved? ==> |r.records| == |nav.page.items|
    ensures r.Saved? ==> forall k :: 0 <= k < |r.records| ==> r.records[k] == BookRecordOf(nav.page.items[k])
    ensures nav.NavigationFailed? ==> r == Reported(Diagnostic(nav.error))
    ensures nav.Loaded? && !AllComplete(nav.page.items) ==>
      r == Reported(Diagnostic(NotFound(MissingSelector(nav.page.items[FirstIncomplete(nav.page.items)]))))
    ensures !r.Skipped?
  {
    match nav
    case NavigationFailed(e) => Reported(Diagnostic(e))
    case Loaded(page) =>
      match BuildAll(page.items)
      case Raised(e) => Reported(Diagnostic(e))
      case Ok(results) => Saved(results)
  }

  /** Every saved record has exactly the keys Title, Author and Format-Year, in that order. */
  lemma SavedRecordsHaveThreeKeys(nav: Navigation<SearchPage>, k: nat)
    requires ScrapeBooks(nav).Saved? && k < |ScrapeBooks(nav).records|
    ensures Keys(ScrapeBooks(nav).records[k]) == [TitleKey, AuthorKey, FormatYearKey]
    ensures Get(ScrapeBooks(nav).records[k], FormatYearKey) == nav.page.items[k].formatInfo.value.primary
  {
  }

  /**
   * The script: navigate, loop over the result items, and on success write the records
   * (the writes themselves are not modelled). The script never calls `driver.quit()`.
   */
  method GetBooks(driver: Driver, nav: Navigation<SearchPage>) returns (outcome: ScrapeOutcome<Dict>)
    requires !driver.closed
    ensures outcome == ScrapeBooks(nav)
    ensures !driver.closed
  {
    if nav.NavigationFailed? {
      return Reported(Diagnostic(nav.error));
    }
    var resultsList := nav.page.items;
    var results: seq<Dict> := [];
    for i := 0 to |resultsList|
      invariant |results| == i
      invariant forall k :: 0 <= k < i ==> Complete(resultsList[k]) && results[k] == BookRecordOf(resultsList[k])
    {
      var bookDict := BuildBookDict(resultsList[i]);
      if bookDict.Raised? {
        assert FirstIncomplete(resultsList) == i;
        return Reported(Diagnostic(bookDict.error));
      }
      results := results + [bookDict.value];
    }
    outcome := Saved(results);
  }

  // ---------------------------------------------------------------------------
  // The evidently intended behaviour: a missing element gives its field's sentinel
  // ---------------------------------------------------------------------------

  /**
   * The record the `else` branches and the 'no format-year found' default were written for:
   * every field present, a sentinel standing in for a missing element.
   */
  function IntendedBookRecord(item: ResultItem): (d: Dict)
    ensures Keys(d) == [TitleKey, AuthorKey, FormatYearKey]
    ensures Get(d, TitleKey) == Some(if item.title.Some? then item.title.value else TitleNotFound)
    ensures Get(d, AuthorKey) == Some(AuthorField(item.authors))
    ensures Get(d, FormatYearKey) == Some(
      if item.formatInfo.Some? && item.formatInfo.value.primary.Some?
      then item.formatInfo.value.primary.value else NoFormatYear)
  {
    var title := if item.title.Some? then item.title.value else TitleNotFound;
    var formatYear :=
      if item.formatInfo.Some? && item.formatInfo.value.primary.Some?
      then item.formatInfo.value.primary.value else NoFormatYear;
    var d := [(TitleKey, title), (AuthorKey, AuthorField(item.authors)), (FormatYearKey, formatYear)];
    GetAt(d, 0);
    GetAt(d, 1);
    GetAt(d, 2);
    d
  }

  function IntendedRecords(items: seq<ResultItem>): (records: seq<Dict>)
    ensures |records| == |items|
    ensures forall k :: 0 <= k < |items| ==> records[k] == IntendedBookRecord(items[k])
  {
    if items == [] then []
    else IntendedRecords(items[..|items| - 1]) + [IntendedBookRecord(items[|items| - 1])]
  }

  /** The intended run: a loaded page always yields one record per result item. */
  function ScrapeBooksIntended(nav: Navigation<SearchPage>): (r: ScrapeOutcome<Dict>)
    ensures r.Saved? <==> nav.Loaded?
    ensures r.Saved? ==> |r.records| == |nav.page.items|
    ensures r.Saved? ==> r.records == IntendedRecords(nav.page.items)
    ensures r.Saved? ==> forall k :: 0 <= k < |r.records| ==>
      Keys(r.records[k]) == [TitleKey, AuthorKey, FormatYearKey]
    ensures nav.NavigationFailed? ==> r == Reported(Diagnostic(nav.error))
  {
    match nav
    case NavigationFailed(e) => Reported(Diagnostic(e))
    case Loaded(page) => Saved(IntendedRecords(page.items))
  }

  /** Where no element is missing, the script as written and the intended one agree. */
  lemma IntendedAgreesWhenComplete(nav: Navigation<SearchPage>)
    requires nav.Loaded? ==> AllComplete(nav.page.items)
    ensures ScrapeBooksIntended(nav) == ScrapeBooks(nav)
  {
    if nav.Loaded? {
      var items := nav.page.items;
      forall k | 0 <= k < |items|
        ensures IntendedBookRecord(items[k]) == BookRecordOf(items[k])
      {
      }
    }
  }

  /**
   * One result item without a title: as written, the scrape raises and saves nothing; as
   * intended, it saves the item's record with Title 'title not found'.
   */
  lemma MissingTitleAbortsScrape(item: ResultItem)
    requires item.title.None?
    ensures ScrapeBooks(Loaded(SearchPage([item]))) == Reported(Diagnostic(NotFound(TitleSelector)))
    ensures ScrapeBooksIntended(Loaded(SearchPage([item]))).records == [IntendedBookRecord(item)]
    ensures Get(IntendedBookRecord(item), TitleKey) == Some(TitleNotFound)
  {
    var items := [item];
    assert !Complete(items[0]);
    assert FirstIncomplete(items) == 0;
  }
}
