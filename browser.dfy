/**
 * What the two scraping scripts need from the browser automation library, abstracted to
 * values: a page is a datatype of what the selectors would find; a single-element lookup
 * (`find_element`) either yields the element or raises NoSuchElementException; a
 * many-element lookup (`find_elements`) yields a possibly empty list. The browser process
 * itself is an object whose only modelled state is whether it has been quit.
 */
module Browser {

  datatype Option<T> = None | Some(value: T)

  /** A Python exception as an `except Exception as e` clause sees it: class name and message. */
  datatype Exception = Exception(kind: string, message: string)

  /** The outcome of a step that may raise. */
  datatype Result<T> = Ok(value: T) | Raised(error: Exception)

  /** The exception class `find_element` raises when nothing matches. */
  const NoSuchElement: string := "NoSuchElementException"

  /** The exception a failed `find_element` raises; its message is abstracted to the selector. */
  function NotFound(selector: string): Exception {
    Exception(NoSuchElement, selector)
  }

  /**
   * `find_element(selector)` on a scope in which the first match, if any, is `first`.
   * An absent element raises; a found element is a WebElement, which is always truthy.
   */
  function FindElement<T>(first: Option<T>, selector: string): (r: Result<T>)
    ensures r.Ok? <==> first.Some?
    ensures r.Ok? ==> r.value == first.value
    ensures r.Raised? ==> r.error.kind == NoSuchElement && r.error.message == selector
  {
    match first
    case Some(e) => Ok(e)
    case None => Raised(NotFound(selector))
  }

  /** `driver.get(url)`: the loaded page, or the exception loading it raised. */
  datatype Navigation<Page> = Loaded(page: Page) | NavigationFailed(error: Exception)

  /**
   * How one run of a script ends: the records it wrote to its output files, the diagnostic
   * line its `except` clause printed, or (only where a guard can be false) nothing at all.
   */
  datatype ScrapeOutcome<R> = Saved(records: seq<R>) | Reported(diagnostic: string) | Skipped

  const DiagnosticPrefix: string := "An exception occurred getting the page: "

  /** `f"An exception occurred getting the page: {type(e).__name__} {e}"`. */
  function Diagnostic(e: Exception): string {
    DiagnosticPrefix + e.kind + " " + e.message
  }

  /**
   * The diagnostic identifies the exception: two exceptions whose class names hold no space
   * never print the same line.
   */
  lemma DiagnosticIdentifiesKind(e1: Exception, e2: Exception)
    requires ' ' !in e1.kind && ' ' !in e2.kind
    requires Diagnostic(e1) == Diagnostic(e2)
    ensures e1 == e2
  {
    var p := |DiagnosticPrefix|;
    var s := Diagnostic(e1);
    assert s == Diagnostic(e2);
    var k1, k2 := |e1.kind|, |e2.kind|;
    assert s[p + k1] == ' ' && s[p + k2] == ' ';
    assert k1 == k2;
    assert e1.kind == s[p..p + k1] == e2.kind;
    assert e1.message == s[p + k1 + 1..] == e2.message;
  }

  /** Where the selector of a failed lookup sits in the diagnostic line; a helper for the lemma below. */
  lemma FailedLookupNamesSelector<T>(first: Option<T>, selector: string)
    requires first.None?
    ensures var line := Diagnostic(FindElement(first, selector).error);
      var start := |DiagnosticPrefix| + |NoSuchElement| + 1;
      start <= |line| && line[start..] == selector
  {
    var line := Diagnostic(FindElement(first, selector).error);
    assert line == (DiagnosticPrefix + NoSuchElement + " ") + selector;
  }

  /** Failed lookups of different selectors print different diagnostic lines. */
  lemma DistinctSelectorsDistinctLines<T>(first: Option<T>, a: string, b: string)
    requires first.None? && a != b
    ensures Diagnostic(FindElement(first, a).error) != Diagnostic(FindElement(first, b).error)
  {
    FailedLookupNamesSelector(first, a);
    FailedLookupNamesSelector(first, b);
  }

  /** The browser process the script starts. */
  class Driver {
    /** Whether `driver.quit()` has been called. */
    ghost var closed: bool

    /** `webdriver.Chrome(...)`: a freshly started browser. */
    constructor ()
      ensures !closed
    {
      closed := false;
    }

    /** `driver.quit()`. */
    method Quit()
      modifies this
      ensures closed
    {
      closed := true;
    }
  }
}
