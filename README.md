# Steam discount watcher — a Dafny model of its core

The watcher pages through the Steam store search at 100 results per request.
It reads every result row into an offer: app id, name, discount percentage,
and original and final price in pt-BR notation ("R$ 1.234,56"). It announces
each offer with a discount whose original price is at least R$ 100,00. An
offer is announced again only when its final price differs from the last price
announced for it, and the last prices announced are kept in
a ledger (`offers.json`). This project models that core and proves its
properties:

- `numerals.dfy` (module `Numerals`): the parts of Python's `str.strip()`,
  `int()` and `float()` that the watcher relies on. Amounts are read as
  integer cents.
- `prices.dfy` (module `Prices`): the discount label ("-50%" → 50) and the
  two price labels. Each label's text has `R$`, `.` and `,` rewritten before
  `float` reads it. The final price also accepts the "Gratuito" (free)
  sentinel and an empty text.
- `rows.dfy` (module `Rows`): from the rows of one search page to the list
  of offers (`fetch_games_from_search` after the page is fetched). Rows
  without an app id are skipped.
- `ledger.dfy` (module `Ledger`): `process_game`, which checks eligibility,
  deduplicates against the ledger and builds the announcement text. It is a
  class `OfferLedger` whose `ProcessGame` method updates the ledger in place.
  Next to it sit the pure `Process`/`ProcessAll` that specify it.
- `sweep.dfy` (module `Sweep`): `check_steam_discounts`, the pagination loop,
  and its stopping rule.
- `results.dfy` (module `Results`): `Option` and `Result`.

The model follows the code in these points:

- A discount or price label that `int`/`float` refuses raises `ValueError`.
  A row with no `.title` raises `AttributeError`. Nothing catches either
  error, so the sweep stops on that page, the ledger is not saved, and
  since `start()` has no handler either the whole watcher exits, with no
  later sweep. The
  model's `Outcome` is either `Finished`, with the ledger to save, or
  `Crashed`, with the error and the announcements already printed. A bad
  field is not read as 0: the error escapes and the sweep stops.
- The loop goes on while a page yields exactly 100 offers. That count is
  taken after rows without an app id are dropped, not over the raw rows
  (`Sweep.RowWithoutIdEndsSweep`).
- `replace('R$', '')` is a single left-to-right pass. The rewritten text can
  therefore still contain `R$`: "RR$$" becomes "R$"
  (`Prices.CurrencySymbolCanSurvive`).
- `str.strip()` skips every character `str.isspace()` accepts. `int()` and
  `float()` skip the same characters except the ASCII information separators
  U+001C to U+001F. A price label with such a separator after `R$` passes the
  rewriting and then raises (`Prices.SeparatorAfterCurrencyRaises`).

## Model

| member | source | states |
|---|---|---|
| Numerals.StripSlice | main.py:75 | for `strip()` and for the trimming inside `int` and `float` alike, stripping leaves the slice of the text between its leading and trailing whitespace: what it keeps neither starts nor ends with whitespace, and everything it drops is whitespace |
| Numerals.ParseIntDecimal | main.py:69 | `int` reads an optionally signed decimal numeral as its value, with any whitespace that `int` skips before it and, independently, after it |
| Numerals.ParseIntDigits | main.py:69 | `int` reads any non-empty digit string, leading zeros included, with an optional sign, as the value of its digits |
| Numerals.ParseCentsParts | main.py:76 | `float` reads digits, a point and digits as whole × 100 + the first two fraction digits, in cents |
| Numerals.ParseCentsText | main.py:76 | an amount written as "whole.ff" is read back as the same number of cents |
| Prices.DeleteCurrencyRemovesPairs | main.py:75 | `replace('R$', '')` removes the same number of `R` and `$` characters and leaves every other character's count unchanged |
| Prices.DeleteCurrencyAround | main.py:75 | `replace('R$', '')` deletes every `R$`: the text around one is rewritten as if it were not there |
| Prices.DeleteCurrencyUnchanged | main.py:75 | `replace('R$', '')` leaves the text as it is exactly when the text holds no `R` directly followed by `$` |
| Prices.DeleteCharRemovesAll | main.py:75 | `replace('.', '')` removes every `.` and nothing else |
| Prices.ReplaceCharPointwise | main.py:75 | `replace(',', '.')` keeps the length and turns each `,` into `.` in place, changing nothing else |
| Prices.NoCommaAfterRewrite | main.py:75 | the text handed to `float` never contains a comma |
| Prices.UngroupDigits | main.py:75 | deleting the dots from a digit string grouped in thousands gives back the digits |
| Prices.RewriteBrlText | main.py:75 | rewriting "R$ 1.234,56" gives " 1234.56": the space that followed the symbol, then the plain numeral |
| Prices.DiscountDigitsOfLabel | main.py:69 | deleting `-` and `%` from a "-N%" label leaves the digits N |
| Prices.DiscountLabel | main.py:69 | a "-N%" label reads as discount N |
| Prices.BrlPriceRoundTrip | main.py:72-87 | any amount written in pt-BR notation reads back as its cents, as original price and as final price, when the character after `R$` is whitespace that `float` skips |
| Prices.SeparatorAfterCurrencyRaises | main.py:75-76 | an amount written with an ASCII information separator (U+001C to U+001F) after `R$` survives the rewriting and raises, as original price and as final price |
| Prices.MissingLabelsReadZero | main.py:68-87 | a missing discount, original-price or final-price element reads as 0 |
| Prices.FreeSentinelOnlyForFinalPrice | main.py:72-87 | any label that rewrites to "gratuito" in any ASCII letter case reads as 0 as a final price, but raises as an original price |
| Prices.GratuitoLabel | main.py:72-87 | the label "Gratuito" passes the rewriting unchanged, reads as 0 as a final price and raises as an original price |
| Prices.EmptyOnlyForFinalPrice | main.py:72-87 | any label left empty by the rewriting reads as 0 as a final price, but raises `float("")` as an original price |
| Prices.CurrencyOnlyLabel | main.py:72-87 | the label "R$" is emptied by the rewriting, so it reads as 0 as a final price and raises as an original price |
| Prices.RewritePlain | main.py:75 | text with no `$`, `.` or `,` and no outer whitespace passes the rewriting unchanged |
| Prices.NotANumber | main.py:76 | a text that starts with neither a digit, a sign nor a point, has no point, and has no whitespace `float` skips at either end is refused by `float` |
| Prices.SampleBrlText | main.py:75 | 123456 cents written in pt-BR notation is "R$ 1.234,56" |
| Prices.SampleBrlPrice | main.py:75-76 | "R$ 1.234,56" reads as 123456 cents, as original and as final price |
| Prices.CurrencySymbolCanSurvive | main.py:75-76 | "RR$$" loses only one `R$` to the rewriting, so the original-price read raises on "R$" |
| Rows.BuildOffer | main.py:65-97 | a row with an id yields an offer exactly when it has a title and all three labels read; the offer carries the id, the title and the read values; a missing title raises AttributeError |
| Rows.CountWithIdAll | main.py:59-63 | no row of a page is skipped exactly when every row has a non-empty app id |
| Rows.FetchGames | main.py:49-100 | the page loop returns the page's offers: none for an envelope that does not parse, otherwise the rows' normalisation, stopping at the first row that raises |
| Rows.NormalizeRowsErrStays | main.py:58-97 | once a prefix of the rows raises, the whole page raises the same error |
| Rows.NormalizeRowsKept | main.py:58-97 | a page that reads has one offer per row with an id, in row order, each the offer its row reads as, each with a non-empty id |
| Rows.NormalizeRowsFails | main.py:58-97 | a page raises exactly when one of its rows raises, and the error is that of the first such row |
| Ledger.Message | main.py:119-124 | the announcement text carries the discount as "N%" right after the name line, and ends with the store link built from the app id |
| Ledger.OfferLedger.constructor | main.py:128 | the sweep's ledger starts as the one loaded from `offers.json` |
| Ledger.OfferLedger.ProcessGame | main.py:102-125 | an offer is announced exactly when it is eligible and its final price differs from the ledger's entry for its id; only then is the entry set to that price |
| Ledger.IneligibleIsSilent | main.py:113 | an offer with no discount or an original price below R$ 100,00 is neither announced nor recorded |
| Ledger.NewPriceIsAnnounced | main.py:113-125 | an eligible offer at a new price is announced and recorded, and its message holds its discount and its link |
| Ledger.KnownPriceIsSilent | main.py:115-117 | an offer at the price the ledger already holds for its id is not announced again |
| Ledger.RepeatIsSilent | main.py:115-118 | processing the same offer twice in a row announces at most once |
| Ledger.ProcessKeepsEntries | main.py:118 | processing an offer keeps every id of the ledger, and changes no entry but the offer's own |
| Ledger.ThresholdBoundary | main.py:109-113 | with a discount, an original price of 9999 cents is not announced, and one of 10000 cents at a new price is |
| Ledger.ProcessAllGrows | main.py:136-137 | over a page the ledger only gains ids, with at most one announcement per offer |
| Ledger.PriceReturnIsAnnouncedAgain | main.py:115-118 | the ledger keeps only the last price announced per id, so an offer whose price goes A, B, A is announced all three times |
| Ledger.ProcessAllAppend | main.py:136-137 | processing two runs of offers one after the other is processing their concatenation |
| Ledger.ProcessAllLedger | main.py:115-118 | after a run, each id holds the final price of its last eligible offer in the run, or its old entry if it had none |
| Ledger.AnnouncedAreEligible | main.py:113-125 | every announcement of a run is the announcement of an eligible offer of the run |
| Ledger.AgreeingRunIsSilent | main.py:115-117 | a run whose eligible offers all match the ledger announces nothing and leaves the ledger as it is |
| Ledger.SecondRunIsSilent | main.py:113-118 | processing the same run again from the ledger it left announces nothing, when no id is listed twice at different eligible prices |
| Sweep.ProcessPage | main.py:136-137 | processing a page's offers in place leaves the ledger, and prints the announcements, of `ProcessAll` over that page |
| Sweep.CheckSteamDiscounts | main.py:127-146 | the pagination loop ends as `Sweep` over the catalog: the ledger to save and the announcements, or the error that escaped |
| Sweep.SweepFromStops | main.py:132-144 | pages are fetched in order up to and including the first one that is not a full page of 100 offers, and at most one page past the end of the catalog is fetched; the sweep crashes exactly when that last page raised |
| Sweep.FinishedSweepIsFold | main.py:132-146 | a finished sweep's ledger and announcements are those of `process_game` over the offers of every fetched page, in order |
| Sweep.CrashedSweepIsFold | main.py:132-137 | a crashed sweep has made the announcements of the fold over the pages fetched before the one that raised |
| Sweep.SweepSummary | main.py:127-146 | the stopping rule, the fold, and the saved ledger keeping every loaded id, for a whole sweep |
| Sweep.SweepShapeIgnoresLedger | main.py:132-144 | how many pages a sweep fetches, and whether it crashes, does not depend on the ledger it starts from |
| Sweep.ShortThirdPage | main.py:140-141 | two full pages and one of 37 offers: three pages are fetched and the sweep finishes |
| Sweep.EmptySecondPage | main.py:135-144 | a full page and then an empty one: two pages are fetched and the sweep finishes |
| Sweep.RowWithoutIdEndsSweep | main.py:135-141 | a first page of 100 rows, one without an app id, ends the sweep after that page |
| Sweep.SecondSweepIsSilent | main.py:127-146 | a second sweep over the same catalog, from the saved ledger, announces nothing and saves the same ledger, when no id is listed twice at different eligible prices |
| Sweep.SingleOfferSweeps | main.py:132-146 | a catalog of one eligible offer: the first sweep announces it and records its final price, and the second sweep is silent |
| Sweep.ListedOfferAnnouncedOnce | main.py:65-125 | a row listing a discounted game of at least R$ 100,00 as "-N%" and pt-BR prices is announced once from an empty ledger with the prices printed, and then not again |

## Left out

- Fetching: the browser driver, the search URL, and the waits (main.py:39-47, 142) are not modelled. The catalog is a sequence of pages, and a request past its end returns no rows. A catalog that changes between requests is not modelled.
- Markup extraction: BeautifulSoup parsing is not modelled. Each page is an envelope with rows, or `MalformedJson` when `json.loads` fails. Each row holds the attribute and the element texts found in it.
- A JSON envelope that decodes to something other than an object would raise on `.get`. This is not modelled.
- A missing `results_html` field gives an envelope with no rows.
- `get_text(strip=True)` strips and joins each text fragment of an element. The model takes each label as a single fragment and applies `str.strip()` to it.
- Printing (main.py:54, 99, 105, 125): announcements are returned in order instead of printed, and log lines are dropped.
- `locale.currency`: `Ledger.Message` takes the formatter as a parameter.
- The `start()` loop and `CHECK_INTERVAL` (main.py:148-156) are not modelled; one sweep is.
- `load_offers`/`save_offers` file I/O is not modelled. The loaded ledger is a parameter, and a missing file is the empty map. The saved ledger is `Finished.published`. A corrupt `offers.json` is not modelled.
- Numerals.ParseCents: prices are integer cents rather than floats. Digits after the second decimal are truncated, where `float` keeps them and `* 100` can then give a non-integral value. Float rounding in `* 100` and `/ 100` is not modelled.
- Ledger.OfferLedger.ProcessGame: the ledger holds final prices in cents, where the source stores reais as floats. The comparison `last_offer != final_price` is the same on both, up to float rounding and up to the truncation past the second decimal (Numerals.ParseCents): "R$ 10,002" after an announced 10.001 is announced again by the source but not by the model.
- Numerals.ParseCents: Python `float` also accepts exponents, "inf"/"nan", underscores between digits and non-ASCII digits. The model refuses these, so such a label raises in the model instead of reading as a number.
- Numerals.ParseInt: Python `int` also accepts underscores between digits and non-ASCII digits. The model refuses these. Python `int` also raises `ValueError` on a decimal string of more than 4300 digits (the integer string conversion length limit); the model has no such limit, so Prices.DiscountLabel, Numerals.ParseIntDecimal and Numerals.ParseIntDigits also hold for numerals the source refuses.
- Prices.DiscountLabel: proved for every N, while the source raises on a label whose N has more than 4300 digits (see Numerals.ParseInt above).
- Prices.IsGratuito: `lower()` is modelled on ASCII letters only. Full Unicode case folding is not modelled.
- Rows.BuildOffer: the discount's `int()` and the prices in `process_game` (main.py:107-110) always receive the values the row normalisation built. Their defaults and conversions are therefore not modelled separately.
- The inter-request delay and the process-level scheduling are not modelled, because they have no effect on the values computed.
