# Python essentials: worked solutions, modelled in Dafny

This project models the core of several worked solutions from the mentor guidebook of the
Code the Dream "Python essentials" course, and proves properties of each:

- **Hangman** (`hangman-closure.py`): `make_hangman` returns a closure. The closure captures the
  secret word and a growing list of guessed letters. Each call records the guess's first
  letter, builds the masked word and reports whether the word is fully revealed. The closure
  and its captured state are a class `Game` with a `Guess` method.
- **Paging** (`print-dataframe-with-headers.py`): `print_with_headers` prints a frame in
  slices of ten rows, so every slice carries the column headers. Each printed slice is returned
  as a page.
- **Wind** (`wind.py`): the `strength` column goes through two regex rewrites, `.*\-` then
  `\D`, both replaced by the empty string. It is then converted to a number.
- **Cumulative** (`cumulative.py`): a per-row `apply` sums the `total_price` column from the
  first row up to that row.
- **Names** (`list-comprehensions.py`): the comprehensions `names1` (full names) and
  `names2` (names that contain the letter `e`).
- **Browser**, **Books** and **Owasp** (`get_books.py`, `owasp_top_10.py`): two Selenium
  scrapers. The page is a datatype that holds what each selector finds. `find_element` either
  yields the element or raises `NoSuchElementException`. Every run ends in one of three ways:
  records saved, a printed diagnostic, or (in the intended versions only) nothing. The browser
  is an object with a ghost flag that records whether `driver.quit()` was called.

Two facts of the scraper code shape the model:

- `get_books.py`, unlike `owasp_top_10.py`, never calls `driver.quit()`, so `Books.GetBooks`
  promises that the driver is still open.
- In both scrapers a missing element raises an exception. It does not take the `else`/skip
  branch, because a `WebElement` is always truthy. See "Findings".

## Model

| member | source | states |
|---|---|---|
| Hangman.Revealed | mentor-guidebook/assignment-solution-examples/assignment12/hangman-closure.py:6-11 | definition: every letter of the secret is among the guesses, the condition under which `done` stays true |
| Hangman.Mask | mentor-guidebook/assignment-solution-examples/assignment12/hangman-closure.py:5-12 | the masked word has exactly one character per letter of the secret |
| Hangman.MaskAt | mentor-guidebook/assignment-solution-examples/assignment12/hangman-closure.py:7-12 | each position shows the secret's letter if that letter was guessed, otherwise '_' |
| Hangman.RevealedShowsSecret | mentor-guidebook/assignment-solution-examples/assignment12/hangman-closure.py:6-14 | once every letter is guessed, the printed pattern is the secret word |
| Hangman.RevealedIffPatternIsSecret | mentor-guidebook/assignment-solution-examples/assignment12/hangman-closure.py:6-14 | for a secret without '_', the game is won if and only if the pattern equals the secret |
| Hangman.StaysRevealed | mentor-guidebook/assignment-solution-examples/assignment12/hangman-closure.py:2-4 | guesses only accumulate, so a revealed word stays revealed whatever is guessed next |
| Hangman.ShownStaysShown | mentor-guidebook/assignment-solution-examples/assignment12/hangman-closure.py:4-12 | a letter shown in the pattern is the secret's letter and stays shown after more guesses |
| Hangman.Game.constructor | mentor-guidebook/assignment-solution-examples/assignment12/hangman-closure.py:1-2 | the closure captures the secret and starts with no guesses |
| Hangman.Game.Guess | mentor-guidebook/assignment-solution-examples/assignment12/hangman-closure.py:3-14 | appends the guess's first letter; returns the masked word and true exactly when every letter of the secret has been guessed |
| Hangman.FirstGuessOnEmptySecret | mentor-guidebook/assignment-solution-examples/assignment12/hangman-closure.py:5-14 | with an empty secret, the first call prints an empty line and returns true |
| Hangman.DoneStaysDone | mentor-guidebook/assignment-solution-examples/assignment12/hangman-closure.py:17-22 | once a call has returned true, the next call returns true as well, so the driver loop's exit is stable |
| Paging.PrintWithHeaders | mentor-guidebook/assignment-solution-examples/assignment12/print-dataframe-with-headers.py:12-17 | prints ceil(n/10) slices; slice k is rows 10k to 10k+10 (clipped); no slice is empty; all but the last have ten rows; together they are the frame in order; `pos` ends at 10 times the number of slices |
| Wind.StripThroughDash | mentor-guidebook/assignment-solution-examples/assignment12/wind.py:7 | definition: `.*\-` -> '' applied line by line; its properties are the Strip* lemmas |
| Wind.AfterLastDash | mentor-guidebook/assignment-solution-examples/assignment12/wind.py:7 | on one line, `.*\-` leaves a suffix with no '-' that is the whole line or is preceded by '-' |
| Wind.FirstNewline | mentor-guidebook/assignment-solution-examples/assignment12/wind.py:7 | finds the first newline, where the `.` of `.*\-` stops matching |
| Wind.StripSingleLine | mentor-guidebook/assignment-solution-examples/assignment12/wind.py:7 | on a line whose last '-' is at k, the rewrite keeps exactly the characters after k |
| Wind.StripLines | mentor-guidebook/assignment-solution-examples/assignment12/wind.py:7 | for any newline-free first line `a` and any rest `b`, rewriting `a + "\n" + b` rewrites `a` as one line, keeps the newline and rewrites `b`: the `.` of `.*\-` never crosses a newline |
| Wind.StripLeavesNoDash | mentor-guidebook/assignment-solution-examples/assignment12/wind.py:7 | after the first rewrite no '-' is left |
| Wind.AfterLastDashWithoutDash | mentor-guidebook/assignment-solution-examples/assignment12/wind.py:7 | a line without '-' is not changed |
| Wind.StripWithoutDash | mentor-guidebook/assignment-solution-examples/assignment12/wind.py:7 | a string without '-' is not changed |
| Wind.StripIdempotent | mentor-guidebook/assignment-solution-examples/assignment12/wind.py:7 | applying the first rewrite twice is the same as applying it once |
| Wind.StripKeepsCharacters | mentor-guidebook/assignment-solution-examples/assignment12/wind.py:7 | the first rewrite only deletes: every remaining character occurs in the input |
| Wind.KeepDigits | mentor-guidebook/assignment-solution-examples/assignment12/wind.py:8 | `\D` -> '' leaves only digits and never lengthens the string |
| Wind.KeepDigitsAppend | mentor-guidebook/assignment-solution-examples/assignment12/wind.py:8 | the second rewrite treats the parts of a string independently and keeps order |
| Wind.KeepDigitsCounts | mentor-guidebook/assignment-solution-examples/assignment12/wind.py:8 | every digit keeps its number of occurrences; every other character is gone |
| Wind.KeepDigitsOfDigits | mentor-guidebook/assignment-solution-examples/assignment12/wind.py:8 | a digit string is unchanged |
| Wind.KeepDigitsOfNonDigits | mentor-guidebook/assignment-solution-examples/assignment12/wind.py:8 | a string without digits becomes empty |
| Wind.KeepDigitsIdempotent | mentor-guidebook/assignment-solution-examples/assignment12/wind.py:8 | applying the second rewrite twice is the same as applying it once |
| Wind.DigitsValue | mentor-guidebook/assignment-solution-examples/assignment12/wind.py:9 | definition: the number a digit string spells |
| Wind.ParseDecimal | mentor-guidebook/assignment-solution-examples/assignment12/wind.py:9 | converting the decimal spelling of any natural number gives that number back |
| Wind.DigitsValueAppend | mentor-guidebook/assignment-solution-examples/assignment12/wind.py:9 | digit strings are positional: the value of `a + b` is the value of `a` times 10 to the length of `b`, plus the value of `b` |
| Wind.LeadingZeroIgnored | mentor-guidebook/assignment-solution-examples/assignment12/wind.py:9 | a leading zero does not change the converted number |
| Wind.ParseDigits | mentor-guidebook/assignment-solution-examples/assignment12/wind.py:9 | definition: `float()` of one cleaned cell: ValueError for the empty string, otherwise the number its digits spell |
| Wind.Strength | mentor-guidebook/assignment-solution-examples/assignment12/wind.py:7-9 | definition: the three steps on one strength cell |
| Wind.StrengthWithoutDigits | mentor-guidebook/assignment-solution-examples/assignment12/wind.py:7-9 | a strength without any digit cannot be converted |
| Wind.StrengthOfCategory | mentor-guidebook/assignment-solution-examples/assignment12/wind.py:7-9 | "Category-5 mph" is cleaned to 5 |
| Wind.StrengthOfNoNumbers | mentor-guidebook/assignment-solution-examples/assignment12/wind.py:7-9 | "no numbers here" cannot be converted |
| Wind.RewriteStrength | mentor-guidebook/assignment-solution-examples/assignment12/wind.py:7-8 | a column rewrite changes each row's strength with the step and leaves the other columns and the row order alone |
| Wind.CleanFrame | mentor-guidebook/assignment-solution-examples/assignment12/wind.py:7-9 | after both rewrites every strength cell holds only digits, and converting it gives the per-cell result |
| Wind.ToNumbers | mentor-guidebook/assignment-solution-examples/assignment12/wind.py:9 | the column conversion fails if and only if some cleaned cell is empty; otherwise each row gets its digits' value |
| Cumulative.Prices | mentor-guidebook/assignment-solution-examples/assignment12/cumulative.py:12 | the `total_price` column, row by row |
| Cumulative.CumulativeAt | mentor-guidebook/assignment-solution-examples/assignment12/cumulative.py:11-13 | definition: `cumulative(row)` for the row at position `name` |
| Cumulative.CumulativeColumn | mentor-guidebook/assignment-solution-examples/assignment12/cumulative.py:15 | definition: `df.apply(cumulative, axis=1)`; its properties are the Cumulative* lemmas |
| Cumulative.WithCumulative | mentor-guidebook/assignment-solution-examples/assignment12/cumulative.py:11-15 | the new column at row i holds the sum of the prices of rows 0 to i; every row keeps its order id and price |
| Cumulative.SumAppend | mentor-guidebook/assignment-solution-examples/assignment12/cumulative.py:13 | summing a concatenation adds the two sums |
| Cumulative.CumulativeFirst | mentor-guidebook/assignment-solution-examples/assignment12/cumulative.py:11-15 | the first row's running total is its own price |
| Cumulative.CumulativeStep | mentor-guidebook/assignment-solution-examples/assignment12/cumulative.py:11-15 | each later row's total is the previous row's total plus its own price |
| Cumulative.CumulativeLast | mentor-guidebook/assignment-solution-examples/assignment12/cumulative.py:11-15 | the last row's total is the total revenue |
| Cumulative.CumulativeMonotone | mentor-guidebook/assignment-solution-examples/assignment12/cumulative.py:11-15 | with no negative prices the running totals never decrease |
| Cumulative.RunningTotals | mentor-guidebook/assignment-solution-examples/assignment12/cumulative.py:11-15 | the single-pass running total gives one value per price |
| Cumulative.RunningTotalsAt | mentor-guidebook/assignment-solution-examples/assignment12/cumulative.py:11-15 | the single pass at position i is the carried amount plus the sum of the first i+1 prices |
| Cumulative.CumulativeIsRunningTotal | mentor-guidebook/assignment-solution-examples/assignment12/cumulative.py:11-15 | the row-by-row `apply` column equals the single-pass running totals |
| Names.FullName | mentor-guidebook/assignment-solution-examples/assignment12/list-comprehensions.py:5 | definition: `first_name + " " + last_name` |
| Names.Names1 | mentor-guidebook/assignment-solution-examples/assignment12/list-comprehensions.py:5 | one name per row, in row order, each first name + " " + last name |
| Names.Names2 | mentor-guidebook/assignment-solution-examples/assignment12/list-comprehensions.py:7 | never longer than its input; every kept name contains 'e' |
| Names.Names2Append | mentor-guidebook/assignment-solution-examples/assignment12/list-comprehensions.py:7 | the filter treats the parts of a list independently, so it keeps order |
| Names.Names2Counts | mentor-guidebook/assignment-solution-examples/assignment12/list-comprehensions.py:7 | each name containing 'e' is kept as often as it occurs; no other name is kept |
| Names.LetterInFullName | mentor-guidebook/assignment-solution-examples/assignment12/list-comprehensions.py:5-7 | a full name contains 'e' if and only if the first or the last name does |
| Names.Names2OfNames1 | mentor-guidebook/assignment-solution-examples/assignment12/list-comprehensions.py:5-7 | `names2` is exactly the full names of the employees whose first or last name contains 'e' |
| Names.CaseSensitive | mentor-guidebook/assignment-solution-examples/assignment12/list-comprehensions.py:7 | the test is case-sensitive: "EVA" is dropped |
| Browser.Diagnostic | mentor-guidebook/assignment-solution-examples/assignment9/get_books.py:55 | definition: the line the `except` clause prints |
| Browser.FindElement | mentor-guidebook/assignment-solution-examples/assignment9/get_books.py:28 | definition: `find_element` yields the first match, or raises `NoSuchElementException` when nothing matches; a found element is never falsy |
| Browser.DistinctSelectorsDistinctLines | mentor-guidebook/assignment-solution-examples/assignment9/get_books.py:54-55 | failed lookups of different selectors print different diagnostic lines |
| Browser.DiagnosticIdentifiesKind | mentor-guidebook/assignment-solution-examples/assignment9/get_books.py:54-55 | two exceptions whose class names contain no space never print the same diagnostic line |
| Browser.Driver.constructor | mentor-guidebook/assignment-solution-examples/assignment9/owasp_top_10.py:16 | a freshly started browser has not been quit |
| Browser.Driver.Quit | mentor-guidebook/assignment-solution-examples/assignment9/owasp_top_10.py:36-37 | after `driver.quit()` the browser is closed |
| Books.Keys | mentor-guidebook/assignment-solution-examples/assignment9/get_books.py:27-47 | a dictionary's keys in insertion order |
| Books.Put | mentor-guidebook/assignment-solution-examples/assignment9/get_books.py:30-46 | storing a new key appends it to the keys; an existing key keeps its place; `get` then finds the new value, and other keys are unaffected |
| Books.GetAt | mentor-guidebook/assignment-solution-examples/assignment9/get_books.py:27-47 | `get` finds the value stored under a key's first occurrence |
| Books.PutNew | mentor-guidebook/assignment-solution-examples/assignment9/get_books.py:30-41 | storing under a new key appends the item |
| Books.PutExisting | mentor-guidebook/assignment-solution-examples/assignment9/get_books.py:41-46 | overwriting 'Format-Year' replaces its value in place |
| Books.FilledInOrder | mentor-guidebook/assignment-solution-examples/assignment9/get_books.py:27-41 | storing Title, Author and the Format-Year default in program order gives a dictionary with those three keys in that order |
| Books.FormatYearOverwritten | mentor-guidebook/assignment-solution-examples/assignment9/get_books.py:41-46 | storing the found format text replaces the default and keeps Format-Year in third place |
| Books.Join | mentor-guidebook/assignment-solution-examples/assignment9/get_books.py:40 | definition: `';'.join`; its inverse is Split (see SplitJoin) |
| Books.SplitWithoutSeparator | mentor-guidebook/assignment-solution-examples/assignment9/get_books.py:40 | a name without ';' splits into itself |
| Books.SplitAtSeparator | mentor-guidebook/assignment-solution-examples/assignment9/get_books.py:40 | splitting at the first ';' separates the first name from the rest |
| Books.SplitJoin | mentor-guidebook/assignment-solution-examples/assignment9/get_books.py:37-40 | if no author name contains ';', splitting the joined Author field gives back the names in order |
| Books.JoinExample | mentor-guidebook/assignment-solution-examples/assignment9/get_books.py:40 | authors Alice, Bob, Carol give "Alice;Bob;Carol" |
| Books.AuthorField | mentor-guidebook/assignment-solution-examples/assignment9/get_books.py:33-40 | definition: the joined author names, or the sentinel when there is no author link |
| Books.AuthorSentinelExactly | mentor-guidebook/assignment-solution-examples/assignment9/get_books.py:33-40 | if no author is literally "author not found", the Author field is that sentinel exactly when there is no author link |
| Books.DiagnosticTellsMissingElement | mentor-guidebook/assignment-solution-examples/assignment9/get_books.py:28-55 | two incomplete items print the same diagnostic line only if they lack the same element: the title, the format div, or the primary span |
| Books.BookRecordOf | mentor-guidebook/assignment-solution-examples/assignment9/get_books.py:27-46 | a record has the keys Title, Author, Format-Year in that order, holding the title, the joined authors (or the sentinel) and the primary format text |
| Books.AuthorValue | mentor-guidebook/assignment-solution-examples/assignment9/get_books.py:33-40 | the inner loop's result is the Author field |
| Books.BookDict | mentor-guidebook/assignment-solution-examples/assignment9/get_books.py:27-46 | definition: the record of a complete item, otherwise NoSuchElementException for its first missing element |
| Books.BuildBookDict | mentor-guidebook/assignment-solution-examples/assignment9/get_books.py:27-46 | the loop body gives the item's record, or the exception of its first missing element |
| Books.FirstIncomplete | mentor-guidebook/assignment-solution-examples/assignment9/get_books.py:26-47 | the first item whose record raises; every earlier item is complete |
| Books.BuildAll | mentor-guidebook/assignment-solution-examples/assignment9/get_books.py:24-47 | all records, one per item in page order, exactly when every item is complete; otherwise the first item's exception |
| Books.ScrapeBooks | mentor-guidebook/assignment-solution-examples/assignment9/get_books.py:22-55 | saves if and only if the page loaded and every item is complete, then one record per item in order; otherwise prints the diagnostic of the navigation error or of the first missing element; never silently skips |
| Books.SavedRecordsHaveThreeKeys | mentor-guidebook/assignment-solution-examples/assignment9/get_books.py:27-47 | every saved record has exactly the keys Title, Author, Format-Year, and its Format-Year is the item's primary format text |
| Books.GetBooks | mentor-guidebook/assignment-solution-examples/assignment9/get_books.py:22-55 | the script's loop produces exactly the `ScrapeBooks` outcome, and the browser is left open |
| Books.IntendedBookRecord | mentor-guidebook/assignment-solution-examples/assignment9/get_books.py:29-46 | the intended record: the three keys, with the sentinel standing in for each missing element |
| Books.IntendedRecords | mentor-guidebook/assignment-solution-examples/assignment9/get_books.py:24-47 | one intended record per item, in page order |
| Books.ScrapeBooksIntended | mentor-guidebook/assignment-solution-examples/assignment9/get_books.py:22-55 | the intended run saves if and only if the page loaded; it saves the intended records, one per item in page order, each with the three keys and sentinels for missing elements; a navigation error is reported |
| Books.IntendedAgreesWhenComplete | mentor-guidebook/assignment-solution-examples/assignment9/get_books.py:22-55 | when no element is missing, the code as written and the intended version agree |
| Books.MissingTitleAbortsScrape | mentor-guidebook/assignment-solution-examples/assignment9/get_books.py:28-32 | an item without a title aborts the code as written; the intended version records "title not found" |
| Owasp.RecordOf | mentor-guidebook/assignment-solution-examples/assignment9/owasp_top_10.py:29 | the CSV row keeps all of the link: reading its Name and URL columns back gives the link's text and href, and turning that back into a row gives the same row |
| Owasp.FirstUnlinked | mentor-guidebook/assignment-solution-examples/assignment9/owasp_top_10.py:26-28 | the first list item without a link; every earlier item has one |
| Owasp.CollectLinks | mentor-guidebook/assignment-solution-examples/assignment9/owasp_top_10.py:24-30 | one record per item, in order, exactly when every item has a link; otherwise the `a` lookup raises |
| Owasp.ScrapeTopTen | mentor-guidebook/assignment-solution-examples/assignment9/owasp_top_10.py:18-35 | saves if and only if the page loaded, the heading and its list exist and every item has a link, then one record per item in order; otherwise prints the diagnostic naming the first failing step; never silently skips |
| Owasp.TryScrape | mentor-guidebook/assignment-solution-examples/assignment9/owasp_top_10.py:18-35 | the `try`/`except` block with its loop produces exactly the `ScrapeTopTen` outcome |
| Owasp.Run | mentor-guidebook/assignment-solution-examples/assignment9/owasp_top_10.py:18-37 | the same outcome, and the browser is closed afterwards on every path |
| Owasp.LinkedRecords | mentor-guidebook/assignment-solution-examples/assignment9/owasp_top_10.py:26-30 | the intended records are never more than the items, and as many exactly when every item has a link |
| Owasp.LinkedRecordsCounts | mentor-guidebook/assignment-solution-examples/assignment9/owasp_top_10.py:26-30 | each intended record occurs exactly as often as an item whose link it records, and no other record occurs |
| Owasp.LinkedRecordsAppend | mentor-guidebook/assignment-solution-examples/assignment9/owasp_top_10.py:26-30 | the intended filter treats the parts of the list independently, so it keeps order |
| Owasp.LinkedRecordsAll | mentor-guidebook/assignment-solution-examples/assignment9/owasp_top_10.py:26-30 | when every item has a link, the intended records are one per item, in order |
| Owasp.ScrapeTopTenIntended | mentor-guidebook/assignment-solution-examples/assignment9/owasp_top_10.py:20-32 | the intended run saves exactly when the heading and list exist, and then saves the records of the linked items in list order (never more than the items); it skips silently when either is missing; a navigation error is reported |
| Owasp.IntendedAgreesWhenAllFound | mentor-guidebook/assignment-solution-examples/assignment9/owasp_top_10.py:18-35 | when every lookup succeeds, the code as written and the intended version agree |
| Owasp.UnlinkedItemAbortsScrape | mentor-guidebook/assignment-solution-examples/assignment9/owasp_top_10.py:26-30 | a single item without a link aborts the code as written; the intended version saves an empty table |

## Left out

- Console and file I/O is not modelled: `input`, `print`, `print(df)`, `to_csv`, `json.dump`, `read_csv`, the SQL query, plotting and writing HTML. The paging method and the hangman closure return what they would print. The scrapers end in `Saved(records)` instead of writing files, so a write failure is not modelled either, though the same `except` clause would catch and report it.
- The hangman driver loop (`input` and the `while not done` loop) is covered only by `Hangman.DoneStaysDone`, which shows that its exit condition is stable.
- Hangman.Game.Guess: requires a non-empty guess, because `guess[0]` raises `IndexError` on an empty string and that error is not caught.
- Browser start-up (`ChromeDriverManager`, options) and `driver.get` are not modelled as operations. The outcome of `driver.get` is a parameter: either the loaded page or the exception it raised.
- Browser.FindElement: the exception message is abstracted to the selector. The real Selenium message is longer, but it also names the selector.
- Browser.Driver.Quit: assumes `driver.quit()` itself does not raise.
- Wind.KeepDigits: `\D` is modelled on the ASCII digits. Python's `\d` on `str` patterns also matches other Unicode decimal digits.
- Wind.ParseDigits: `astype('float')` is modelled as a conversion to a natural number. Float precision, and the `nan` that pandas produces for missing cells, are not modelled.
- Cumulative: prices are exact whole numbers of cents. The floating-point rounding of the pandas sum is not modelled, and neither is `apply` on an empty frame (pandas then returns an empty frame rather than a column).
- The other files of the assignment directory (`employee_results.py`, `gdp_growth.py`, `log-decorator.py`, `type-decorator.py`) are not part of this model.

## Findings

| source | as written | input that shows it | evidently intended | confidence | as-written member | corrected member |
|---|---|---|---|---|---|---|
| mentor-guidebook/assignment-solution-examples/assignment9/get_books.py:28-46 | `find_element` raises `NoSuchElementException` when nothing matches, so `if (book_title):` / `if book_info_div:` / `if format_year:` never see a missing element; one item without a title, format div or primary span aborts the whole scrape and no file is written | a results page with one item that has no `span.title-content` | the sentinel values ('title not found', 'no format-year found') stand in for the missing element and the item is still recorded | not executed | Books.MissingTitleAbortsScrape | Books.ScrapeBooksIntended |
| mentor-guidebook/assignment-solution-examples/assignment9/owasp_top_10.py:20-30 | the `if top_10_header:`, `if unordered_list:` and `if risk_link:` guards never fail, because a missing element raises instead; a list item without a link aborts the run and no CSV is written | a list with one `li` that has no `a` | a missing heading or list skips the output, and an item without a link is left out of the table | not executed | Owasp.UnlinkedItemAbortsScrape | Owasp.ScrapeTopTenIntended |
