# Amazon multi-product price tracker, modelled in Dafny

The tracker keeps a catalog of products (`TRACKED_PRODUCTS`: product id →
url, name, last price, in insertion order), a price-history CSV file, and a
saved copy of the catalog in a JSON file. On each check it fetches every
tracked product page and refreshes the product's name. It decides from the
*history file* whether the price changed by more than a cent. When it did, it
appends a row, updates the catalog's last price, queues an e-mail alert and
counts the change if the row was written. If anything was touched, it saves
the catalog once. Products are added by URL (their id is the path segment
after `dp`), removed by their 1-based position in the catalog, and the daily
check time is validated against an `HH:MM` pattern.

The fetch is modelled as the code is written (lines 180-184): the tracker
reads "10-20" as 1020.0 and "-5" as 5.0. The intended reading of a range,
its lower bound, is defined and proved separately (see "## Findings").

The model has these modules:

- `Text`: the Python `str` operations used: `isspace`, `strip`, `replace(c, "")`, `split()`, `split(sep)`.
- `Prices`: exact-real prices, rounding to cents, the `:.2f` text and the decimal `float()` that reads it back.
- `ChangeRule`: the one-cent rule, the direction of a change and the alert subject.
- `History`: the CSV file as rows; appending, the header, the last logged price.
- `ProductIds`: `generate_product_id`.
- `Fetch`: the price-text normalisation and what a fetch returns for a retrieved page.
- `Schedule`: `validate_time_format`.
- `Tracker`: the catalog and the class `PriceTracker`, whose methods update the state in place as `check_all_products`, `add_product` and `remove_product` do.

One check is specified by the function `CheckProducts`. It folds the single-product step `CheckProduct` over the catalog order. The method `CheckAllProducts` is proved equal to it, and the run's properties are lemmas about `CheckProducts`.

Two behaviours of the source are modelled as written:
- The new `last_price` is stored even when the CSV write fails (line 245 runs before the test at line 255). So a product's last price changes only when the rule fires, and the history then holds the rounded price only if the write succeeded.
- A history file that exists but is empty never receives the header. Its first data row is then read as the header and skipped (`History.EmptyFileHidesFirstRow`).

## Model

| member | source | states |
|---|---|---|
| Text.Remove | amazon_price_tracker_multiproduct.py:180 | `replace(c, "")` leaves no `c`, keeps every other character and is the identity when `c` is absent |
| Text.RemoveAppend | amazon_price_tracker_multiproduct.py:184 | removing a character distributes over concatenation |
| Text.FirstWord | amazon_price_tracker_multiproduct.py:184 | `split()[0]` is absent exactly for all-whitespace text; otherwise it is a non-empty whitespace-free word, preceded only by whitespace and ended by whitespace or the end of the text |
| Text.FirstWordOf | amazon_price_tracker_multiproduct.py:184 | a whitespace-free word at the start of the text, ended by whitespace or the end, is the first word |
| Text.TrimStartOf | amazon_price_tracker_multiproduct.py:187 | `lstrip` removes exactly the whitespace run the text starts with: whenever an all-whitespace prefix ends at a non-space character or at the end, the result is the rest of the text |
| Text.TrimEndOf | amazon_price_tracker_multiproduct.py:187 | `rstrip` removes exactly the whitespace run the text ends with: whenever an all-whitespace suffix follows a non-space character or is the whole text, the result is the text before it |
| Text.StripKeepsTrimmed | amazon_price_tracker_multiproduct.py:187 | `strip` keeps text that starts and ends with non-spaces |
| Text.Split | amazon_price_tracker_multiproduct.py:41 | `split('/')` gives at least one field, none containing the separator, and joining them gives back the text |
| Text.SplitJoin | amazon_price_tracker_multiproduct.py:41 | splitting inverts joining of separator-free fields |
| Prices.RoundHalfEven | amazon_price_tracker_multiproduct.py:82 | the result is the nearest integer, the even one on a tie, and non-negative for a non-negative input |
| Prices.RoundHalfEvenUnique | amazon_price_tracker_multiproduct.py:82 | any integer within a half of the value, and even on a tie, is the half-even rounding: the rounding is unique |
| Prices.RoundHalfEvenNegate | amazon_price_tracker_multiproduct.py:82 | half-even rounding is symmetric about zero |
| Prices.RoundCents | amazon_price_tracker_multiproduct.py:82 | the price rounded to cents is within half a cent of the price and is non-negative for a non-negative price |
| Prices.RoundCentsHalfEven | amazon_price_tracker_multiproduct.py:82 | rounding to cents is exactly half-even rounding of the amount in cents, divided by 100, for negative prices too |
| Prices.FormatCentsShape | amazon_price_tracker_multiproduct.py:82 | the `:.2f` text is a minus sign exactly for a negative price, at least one digit, the point and exactly two digits |
| Prices.RoundCentsOfCents | amazon_price_tracker_multiproduct.py:82 | a whole number of cents is unchanged by rounding |
| Prices.ParseCentsText | amazon_price_tracker_multiproduct.py:103 | `float` reads the unsigned two-decimal text of `n` cents as `n / 100` |
| Prices.ParseSignedCentsText | amazon_price_tracker_multiproduct.py:103 | the same holds with a leading minus sign, which negates the value |
| Prices.FormatCentsStripped | amazon_price_tracker_multiproduct.py:82 | the `:.2f` text has no surrounding whitespace |
| Prices.ParseFormatCents | amazon_price_tracker_multiproduct.py:103 | reading back the `:.2f` text of a price gives the price rounded to cents |
| Prices.ParsePriceDigits | amazon_price_tracker_multiproduct.py:187 | `float` reads a non-empty digit string as its numeral value |
| ChangeRule.UnchangedIsNotRecorded | amazon_price_tracker_multiproduct.py:233 | a price within a cent of the last is never recorded; a first price always is |
| ChangeRule.SubjectOf | amazon_price_tracker_multiproduct.py:111-121 | the subject is "new" exactly without a previous price, "drop" exactly when the price fell, "increase" exactly when it rose or stayed |
| ChangeRule.TrendOf | amazon_price_tracker_multiproduct.py:237-238 | the arrow is "rise" exactly when the price went up, "fall" exactly when it went down or stayed |
| ChangeRule.ChangeAmount | amazon_price_tracker_multiproduct.py:115-120 | the saving or rise reported is the size of the change, never negative, and takes one price to the other |
| ChangeRule.RecordedChangeIsClassified | amazon_price_tracker_multiproduct.py:237-238 | for a recorded change, the printed arrow rises exactly when the subject is "increase", exactly when current > last, and the reported amount is the size of the change, above a cent |
| History.Appended | amazon_price_tracker_multiproduct.py:76-82 | an append keeps every earlier row, adds the row last, and adds the header first only when the file did not exist |
| History.PriceRowReadsBack | amazon_price_tracker_multiproduct.py:82-102 | the row written for an observation has the header's five columns, is matched by its id and its price column reads back as the price rounded to cents |
| History.LastMatch | amazon_price_tracker_multiproduct.py:101-102 | the index found is a row with at least 5 columns and the id in the fifth, and no later row matches; when nothing is found, no row matches |
| History.LastMatchIs | amazon_price_tracker_multiproduct.py:101-102 | a matching row with no later match is the one found |
| History.LastLoggedPriceFound | amazon_price_tracker_multiproduct.py:92-102 | when a data row after the header is the last one for the id, the last logged price is its price column read with `float` (none if it does not parse) |
| History.LastLoggedPriceNotFound | amazon_price_tracker_multiproduct.py:91-104 | when no data row after the header is for the id (an absent file or one of at most one row included), nothing is found |
| History.GetLastLoggedPrice | amazon_price_tracker_multiproduct.py:89-107 | the reverse scan with early return gives the last-logged-price function: none for an absent file, a file of at most one row, no match or an unparsable price column |
| History.LastLoggedPriceOfAppended | amazon_price_tracker_multiproduct.py:76-103 | after appending a product's row to a file that is not empty, its last logged price is the appended price rounded to cents |
| History.LastLoggedPriceIgnoresOthers | amazon_price_tracker_multiproduct.py:101-102 | appending a row for another id does not change the price found for an id |
| History.EmptyFileHidesFirstRow | amazon_price_tracker_multiproduct.py:76-101 | an existing empty file gets no header, and after one append nothing is found |
| ProductIds.LastEight | amazon_price_tracker_multiproduct.py:46 | `s[-8:]` is the last eight characters, or all of a shorter string |
| ProductIds.GenerateProductId | amazon_price_tracker_multiproduct.py:37-46 | the loop with early return computes the id function |
| ProductIds.ProductIdAfterFirstDp | amazon_price_tracker_multiproduct.py:41-44 | when some `dp` segment is followed by another, the id is the segment after the first such `dp` |
| ProductIds.ProductIdFallback | amazon_price_tracker_multiproduct.py:42-46 | without such a segment, a trailing `dp` included, the id is the last eight characters of the hash text |
| Fetch.Unformatted | amazon_price_tracker_multiproduct.py:180 | no `$` or `,` remains and every other character is kept |
| Fetch.RangeHasFirstWord | amazon_price_tracker_multiproduct.py:183-184 | a text containing "to" or `-` always has a first word, so `split()[0]` cannot fail |
| Fetch.NormalizePriceTextAsWritten | amazon_price_tracker_multiproduct.py:180-184 | the result has no `$` or `,`; for a range it is the first word of the cleaned text with every `-` removed, so no `-` and no whitespace; otherwise it is the cleaned text |
| Fetch.AsWrittenJoinsBounds | amazon_price_tracker_multiproduct.py:183-184 | the code as written reads the range "X-Y" as the two bounds run together |
| Fetch.NormalizePriceText | amazon_price_tracker_multiproduct.py:180-184 | the corrected normalisation: no `$` or `,`; for a range the first word of the cleaned text up to its first `-`, so no `-` and no whitespace; otherwise the cleaned text |
| Fetch.NormalizeRangeFirstBound | amazon_price_tracker_multiproduct.py:182-184 | every spelling of a range, "X to Y", "X - Y" or "X-Y", gives its lower bound "X" |
| Fetch.NormalizeAgreesWithoutInnerDash | amazon_price_tracker_multiproduct.py:183-184 | both readings agree unless the first word of a range holds a `-` |
| Fetch.FetchProductDetails | amazon_price_tracker_multiproduct.py:147-199 | a url with no retrieved page gives nothing, and a successful fetch carries the page title as the name |
| Fetch.FetchJoinedRange | amazon_price_tracker_multiproduct.py:180-190 | the fetch as written reads a page showing "X-Y" as the number "XY": "10-20" gives 1020.0 |
| Fetch.FetchDropsSign | amazon_price_tracker_multiproduct.py:180-190 | the fetch as written reads a leading minus as a range, so "-5" gives 5.0 |
| Fetch.FetchPlainPrice | amazon_price_tracker_multiproduct.py:179-192 | a page showing "$" and the two-decimal text of a non-negative price gives the page title and that price rounded to cents |
| Schedule.ValidTimeFormatIff | amazon_price_tracker_multiproduct.py:372-375 | the accepted texts are exactly H:MM and HH:MM, hour 0–23 with one digit or a leading zero, minute 00–59, optionally ended by one newline (`$` also matches before a final newline) |
| Schedule.TimeTextIsValid | amazon_price_tracker_multiproduct.py:374 | every such time text matches the pattern |
| Schedule.TimeFormatExamples | amazon_price_tracker_multiproduct.py:374 | "24:00", "12:60" and "12:5" are refused; "9:05", "09:05", "23:59" and the default "09:00" are accepted |
| Tracker.Catalog.Insert | amazon_price_tracker_multiproduct.py:292-296 | a new id goes last in the order with its record; every other entry is kept and the catalog stays free of duplicate ids |
| Tracker.Catalog.Delete | amazon_price_tracker_multiproduct.py:336-340 | deleting position `k` removes exactly that id from the order and the map, keeps every other entry and the order of the rest |
| Tracker.RemoveAtIndex | amazon_price_tracker_multiproduct.py:336-338 | taking out one position of a duplicate-free list keeps every other id once and drops that one |
| Tracker.DeleteUndoesInsert | amazon_price_tracker_multiproduct.py:292-340 | deleting the last-added product gives back the catalog as it was |
| Tracker.CheckProduct | amazon_price_tracker_multiproduct.py:216-256 | one product's step never adds or removes catalog keys |
| Tracker.CheckProductAppendsIff | amazon_price_tracker_multiproduct.py:230-256 | one product's step writes a history row exactly when the fetch succeeds, the one-cent rule records the price against the logged history and the write succeeds, and that row is the price row of the fetched details; it queues an alert exactly when the fetch succeeds, the rule records and e-mail is on, and that alert carries the change's subject class (new when nothing was logged, otherwise drop or increase by the sign of the change), the fetched name and price, the logged price, the url and the timestamp |
| Tracker.CheckProducts | amazon_price_tracker_multiproduct.py:212-262 | a check never adds or removes catalog keys |
| Tracker.CheckProductsEntry | amazon_price_tracker_multiproduct.py:224-245 | after a run, each visited product is refreshed against the history as it was before the run; products not visited are untouched |
| Tracker.CheckProductsProductFacts | amazon_price_tracker_multiproduct.py:217-246 | a product whose fetch fails is left untouched and no url changes. A last price changes only for a visited product whose fetched price the rule records, and then becomes that price |
| Tracker.CheckProductsKeepsOtherHistory | amazon_price_tracker_multiproduct.py:242 | rows are written only for visited ids, so the last logged price of any other id is unchanged |
| Tracker.CheckProductsLastLogged | amazon_price_tracker_multiproduct.py:230-256 | after a run, the history gives each visited product the rounded price just recorded. When nothing was recorded or the write failed, it gives what it gave before |
| Tracker.CheckProductsCounts | amazon_price_tracker_multiproduct.py:242-256 | a run keeps every earlier row and adds one row per counted change, plus the header on a new file. It counts at most one change per product, so at most the catalog size, and queues no alert when e-mail is off |
| Tracker.CheckProductsClean | amazon_price_tracker_multiproduct.py:224-265 | a run that sets no dirty flag changed no entry, wrote no row and counted nothing |
| Tracker.CheckProductsNonEmptyHistory | amazon_price_tracker_multiproduct.py:76-82 | appending never leaves an existing empty file |
| Tracker.PriceTracker.constructor | amazon_price_tracker_multiproduct.py:30-34 | the state starts from the given catalog, files and e-mail switch with no alerts sent |
| Tracker.PriceTracker.SaveTrackedProducts | amazon_price_tracker_multiproduct.py:62-71 | a successful save stores the current catalog, a failed one changes nothing; the result says which |
| Tracker.PriceTracker.SaveToCsv | amazon_price_tracker_multiproduct.py:73-87 | a successful write appends the row with the price as `:.2f` text (after the header on a new file), a failed one changes nothing |
| Tracker.PriceTracker.CheckProductStep | amazon_price_tracker_multiproduct.py:212-262 | one pass of the loop updates the catalog, history, alerts, count and flag exactly as the step function says |
| Tracker.PriceTracker.CheckEachProduct | amazon_price_tracker_multiproduct.py:212-262 | the loop over the catalog order leaves the state the run function gives, with the ids, the saved catalog and the e-mail switch unchanged |
| Tracker.PriceTracker.CheckAllProducts | amazon_price_tracker_multiproduct.py:201-274 | a check leaves the catalog, history, alerts and count that the run function gives, and saves the catalog exactly when the run touched something and the save succeeds. An empty catalog returns 0 and changes nothing |
| Tracker.PriceTracker.TrackNewProduct | amazon_price_tracker_multiproduct.py:292-319 | a new product is inserted with its fetched name and price and its first row written if the CSV write succeeds. The catalog is saved if the JSON write succeeds, a "new product" alert is queued when e-mail is on, and the result says whether both writes succeeded |
| Tracker.PriceTracker.AddProduct | amazon_price_tracker_multiproduct.py:276-319 | a tracked id or a failed fetch returns false and changes nothing; otherwise exactly one entry is inserted and at most one row appended, as above |
| Tracker.PriceTracker.RemoveProduct | amazon_price_tracker_multiproduct.py:321-350 | a choice from 1 to the catalog size deletes exactly that entry and saves the catalog. 0, an out-of-range number or a non-number changes nothing, and the history and alerts are never touched |

## Left out

- HTTP retrieval and the BeautifulSoup lookups (lines 150-177): a retrieved page is given as its title text and the text of the first price element found. A url with no page stands for every failure path of the fetch.
- The fetches of one check are taken as a map from url to result, computed for all pages before the loop. Fetching is a pure function of the given pages here, so fetching inside the loop, as the source does, gives the same results.
- `urlparse(url).path` and `str(hash(url))` (lines 39 and 46) are inputs to `ProductId`. Hash seeding is per process and URL parsing is a library.
- IEEE floating point: prices are exact reals. `:.2f` is round-half-even on the exact value. `float()` is modelled on decimal text (whitespace, optional sign, digits, optional fraction); exponents, underscores, `inf` and `nan` are not.
- CSV quoting and the JSON encoding of the catalog: files are rows of fields and the stored catalog value. Whether each write succeeds is a boolean input.
- SMTP (lines 123-145): an alert is appended to an outbox with its subject class and data; the message text and delivery failures are not modelled.
- `datetime.now()`: timestamps are given strings.
- `time.sleep`, the `schedule` loop, the interactive menu, `input()`, `list_products`, the load/save of the schedule and e-mail configuration and all printing.
- `"to" in s.lower()` is modelled for ASCII `t`/`o` only; Unicode case folding is not.
- Fetch.FetchProductDetails: its own contract says only that a url with no page fails and where the name comes from. The price it gives is stated by `Fetch.FetchPlainPrice`, `Fetch.FetchJoinedRange` and `Fetch.FetchDropsSign`, which keeps the function cheap where the tracker's proofs unfold it.
- Tracker.PriceTracker.TrackNewProduct: does not state the new product's last logged price in its contract. That would make the method's proof too costly; `History.LastLoggedPriceOfAppended` states it for the appended history.
- Tracker.PriceTracker.AddProduct: does not state the last logged price either, for the same reason.

## Findings

| source | as written | input that shows it | evidently intended | confidence | as-written member | corrected member |
|---|---|---|---|---|---|---|
| amazon_price_tracker_multiproduct.py:183-184 | a range's first word has every `-` removed | price text "10-20" becomes "1020" and is read as 1020.0 (`Fetch.FetchJoinedRange`); "-5" is read as 5.0 (`Fetch.FetchDropsSign`) | the range's lower bound, 10.0 | not executed | Fetch.AsWrittenJoinsBounds | Fetch.NormalizeRangeFirstBound |
