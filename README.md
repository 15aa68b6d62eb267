# Application category lookup: result classification and batch numbering

This project models the logic at the centre of a small scraper. The scraper
reads a list of queries (application names or URLs) from a spreadsheet. It
submits each query to a vendor's public application-classification page and
records the categories and sub-categories the page lists. The browser, the
spreadsheet library and the timing are left out. What remains is the part
of `main.py` that decides what one lookup records, plus the loop that
numbers the records.

- `pystr.dfy` (module `PyStr`): the two Python string operations the
  lookup uses. `str.strip()` is modelled over Python's `str.isspace()`
  character set. `"\n".join(parts)` is modelled with, as its partner,
  `s.split("\n")`, which recovers the parts.
- `scraper.dfy` (module `Scraper`): `WebScraper.search_and_extract`. An
  `Observation` is what the browser reports. It is either `Failure` (any
  error while loading the page, waiting for the body, the search input or
  the search button, or typing and clicking) or `Observed(catTexts, subTexts)`,
  the raw texts of the `#CategoryList` and `#SubCategoryList` elements in
  document order. The two extraction loops are the method `CollectStripped`,
  proved against the function `KeepStripped`. The found/not-found decision is
  the pure function `Classify`. `Outcome` records whether the `try` block
  returned (`Found`) or raised (`NoResults`). Every raise becomes the sentinel
  record "No Categories Found" / "No Sub Categories Found". `RecordFor` is
  the whole lookup as a function. `SearchAndExtract` is the same lookup as a
  method that runs the loops.
- `batch.dfy` (module `Batch`): the `for index, url in enumerate(urls, 1)`
  loop of `process_urls`. The per-query browser lookup is a function
  parameter `lookup: string -> Observation`.

Only what `main.py` does is modelled. It has no handling of an "invalid
value" dialog, no third sentinel ("No Application Found"), no colour-coded
output and no "Application" column label, so none of these appear here. Its
two sentinels are "No Categories Found" and "No Sub Categories Found".

## Model

| member | source | states |
|---|---|---|
| PyStr.Strip | main.py:124-125 | `strip()` never lengthens a string |
| PyStr.StripSlice | main.py:124-125 | the stripped text is the slice of the raw text that starts after its leading whitespace; everything after it is whitespace; it neither starts nor ends with whitespace |
| PyStr.StripEmpty | main.py:124 | a text strips to the empty string exactly when every character is whitespace, i.e. exactly when the `if elem.text.strip()` test fails |
| PyStr.StripPadded | main.py:124-125 | whitespace around a label that neither starts nor ends with whitespace is removed exactly, and the label is left unchanged |
| PyStr.StripIdempotent | main.py:125 | what is stored is already stripped: stripping it again changes nothing |
| PyStr.JoinLines | main.py:136-137 | the join starts with the first part, followed by a newline when there is a second part |
| PyStr.SplitJoinLines | main.py:136-137 | when no part contains a newline, splitting the joined string on newlines gives back exactly the parts, in order: the join is order-preserving and loses nothing |
| PyStr.JoinLinesNonEmpty | main.py:133-137 | joining a non-empty list whose first part is non-empty gives a non-empty string |
| Scraper.NotFoundRecord | main.py:144-148 | the fallback record keeps the query as URL and carries "No Categories Found" / "No Sub Categories Found" |
| Scraper.KeepStripped | main.py:118-131 | the kept list is no longer than the element list and holds no empty string |
| Scraper.KeepStrippedAt | main.py:121-131 | an element contributes exactly when its stripped text is non-empty; the k-th kept entry is the stripped text of the k-th such element; positions increase, so document order is kept |
| Scraper.KeepStrippedEmpty | main.py:123-131 | nothing is kept exactly when every element text is blank after stripping |
| Scraper.KeepStrippedAppend | main.py:123-131 | extraction distributes over concatenation of element lists (a later element never changes what an earlier one contributed) |
| Scraper.KeepStrippedInsertBlank | main.py:124 | inserting an element whose text is blank after stripping, at any position, leaves the kept list unchanged |
| Scraper.CollectStripped | main.py:118-131 | the imperative append loop builds exactly `KeepStripped` of the element texts |
| Scraper.Classify | main.py:133-140 | the decision is "found" exactly when both kept lists are non-empty |
| Scraper.Lookup | main.py:96-114 | any failure before extraction ends the `try` block without results |
| Scraper.RecordFor | main.py:95-148 | the record's URL is always the query; a failure, and an empty kept category list or an empty kept sub-category list (whatever the other holds), give the sentinel record |
| Scraper.FoundIffBothNonBlank | main.py:122-133 | a lookup is found exactly when the page was observed and both the category elements and the sub-category elements include a text that is non-blank after stripping |
| Scraper.FoundRecord | main.py:133-138 | in the found case the record is (query, newline-join of kept categories, newline-join of kept sub-categories), both strings are non-empty, and splitting them on newlines recovers the kept lists in document order (when no kept text spans lines) |
| Scraper.SameKeptSameRecord | main.py:118-148 | the record depends on the page only through the two kept lists: observations with the same kept lists give the same record (determinism of the classification) |
| Scraper.BlankCategoryIgnored | main.py:122-125 | a blank `#CategoryList` element anywhere on the page does not change the record |
| Scraper.BlankSubCategoryIgnored | main.py:128-131 | a blank `#SubCategoryList` element anywhere on the page does not change the record |
| Scraper.SearchAndExtract | main.py:95-148 | the lookup as a method, running the two extraction loops, returns exactly `RecordFor` of the query and the observation |
| Scraper.PaddedLabelsFound | main.py:118-138 | one whitespace-padded category label beside a blank element, plus one sub-category label, give the record carrying the query and the two bare labels |
| Scraper.TikTokExample | main.py:118-138 | the lookup of "tiktok.com" that shows " Social Networking\n", a blank element and "General Social Networking" records ("tiktok.com", "Social Networking", "General Social Networking") |
| Batch.Stamp | main.py:168 | the numbered row keeps the record's URL, Category and Sub Category and carries SNO = index |
| Batch.ProcessUrls | main.py:162-169 | exactly one row per query, in input order; row i (from 0) is the lookup record of `urls[i]` with SNO i + 1, so its URL is `urls[i]` and SNOs increase strictly from 1 |

## Left out

- The browser is left out: Chrome and ChromeDriver setup, the page-load timeout, the `WebDriverWait` conditions, `clear`/`send_keys`/`click`, and `driver.quit` in the `finally` block (main.py:76-114, 150-152, 178-179). These are foreign calls. Their combined effect is the `Observation` value, and every exception they raise is `Failure`.
- `time.sleep(3)` and `time.sleep(2)` are left out (main.py:115, 170). They are delays with no logical effect.
- `ExcelHandler.read_excel` is left out (main.py:21-28). It wraps pandas and drops missing cells. The model takes the list of queries it returns as given.
- `ExcelHandler.write_excel` is left out (main.py:30-72). It wraps pandas and openpyxl: column selection, column widths, wrap and alignment. Its failure is caught by the outer `except` in `process_urls` (main.py:176-177). The model stops at the list of rows.
- `print` logging, exception message texts and the `Excel_Files` directory creation are left out (main.py:143, 160-177, 182-189). These are I/O.
- ProcessUrls: the browser session is shared across queries, so a page could in principle keep state from one query to the next. The model treats the lookup as a function of the query alone.
- Python `str.strip()` is modelled over Unicode scalar values with Python's `str.isspace()` set. The model does not cover how Selenium normalises element text before `.text` returns it.
