# Inventory pipeline: a Dafny model

This project models the core of a small Python inventory system written twice. `part1.py` is a
procedural script. `part2.py` is a class, `InventoryManager`, that adds an interactive matcher.
Both do the same work:

- **Merge.** Three tables of comma-split rows are merged into one dictionary keyed by item id.
  Manufacturer rows create records. Price rows and service-date rows fill in fields of ids that
  already exist.
- **Sort.** Hand-written exchange sorts (`for i, for j > i: if a[i] > a[j]: swap`) order item ids
  by manufacturer, and `(id, record)` pairs by id, by service date or by descending price.
- **Report.** Four reports are written: the full inventory, one file per item type, the items
  whose service date is past, and the damaged items. Each report filters the store, orders what
  it kept and prints one `", "`-joined line per record.
- **Match.** The class answers free-text queries. It finds the dearest eligible item of one
  manufacturer and type, then the eligible item of that type whose price is closest to it.

The model follows the source's own form:

- The dictionary is a `Records.Store`: the ids in first-insertion order, which is Python's dict
  iteration order, plus a map from id to record.
- A record's service date has three states: no key, the key with `None`, or a date.
- The script's functions are methods of module `InventoryScript`.
- The class is `Manager.InventoryManager`, with its dictionary in the mutable field `inventory`.
- Loops are `while` loops with invariants. Each is proved against a specification function or a
  stated property.
- The exchange sorts are one in-place array method, `Sorting.ExchangeSort`, proved to leave the
  array ordered and a permutation of its input.
- The class methods whose bodies are the same text as the script's call the script's methods.
  These are the three sorts and the per-type report.

Specification modules:

- `Merging` defines the merge as functions over the rows.
- `Reports` defines the line formats and what each report selects.
- `Matching` defines the matcher and the query as reference functions.
- `Text` and `Dates` model `strip`, `lower`, `capitalize`, `split`, string order, `int()`,
  `str()`, `strptime` and `strftime` on the inputs the pipeline gives them.

How the model stands in for what the source does at run time:

- Every report returns the lines it would write.
- The clock is a parameter `now`.
- A Python exception in the merge or the matcher becomes an error value: `MergeError`, or the
  `Fault` in `Printed`.
- A crash in a report becomes a precondition that excludes it.

## Model

| member | source | states |
|---|---|---|
| Records.Empty | part2.py:6-8 | The empty dictionary: no ids and no records. |
| Records.Put | part2.py:28-32 | `d[id] = r`: a new id is appended to the iteration order. An existing id keeps its place and only its record changes. Every other record is unchanged. |
| Records.Update | part2.py:37-38 | Assigning a field under a present key keeps the key set and the iteration order. The key holds the new record and every other record is unchanged. |
| Records.Entries | part2.py:156 | `items()`: the pairs in iteration order, each pairing an id with its own record. |
| Text.Strip | part2.py:23 | `strip()` is no longer than its input and neither starts nor ends with whitespace. |
| Text.StripSpec | part2.py:23 | `strip()` keeps one contiguous slice of its input. Only whitespace lies outside it, and the slice has none at either end. |
| Text.StripIdempotent | part2.py:23 | Stripping twice is stripping once. |
| Text.Lower | part2.py:158 | `lower()` keeps the length and folds each character on its own: `A`-`Z` to `a`-`z`, everything else unchanged. |
| Text.LowerIdempotent | part2.py:158 | Lower-casing twice is lower-casing once. |
| Text.Capitalize | part2.py:101 | `capitalize()` keeps the length and agrees with its input up to case. Its first character is not a lower-case letter and no later one is an upper-case letter. |
| Text.CapitalizeIgnoresCase | part2.py:101 | Two strings that agree up to case capitalize to the same string. |
| Text.Words | part2.py:195 | `split()`: no word is empty or holds whitespace. |
| Text.WordsSplit | part2.py:195 | Every string is its `split()` words with whitespace runs around them, and the run between two words is not empty. |
| Text.WordsUnique | part2.py:195 | Words separated by whitespace, with at least one whitespace character between two words, split back into exactly those words. So `split()` returns the maximal whitespace-free runs, in order. |
| Text.WordsOfWord | part2.py:195 | A single whitespace-free word splits into itself. |
| Text.LessSpec | part2.py:54 | Python's `<` on strings is the dictionary order: the left string is a proper prefix of the right one, or they agree up to a position where the left one has the smaller character. |
| Text.LessIrreflexive | part2.py:54 | Python's `>` on strings never holds between a string and itself. |
| Text.LessTransitive | part2.py:54 | Python's `>` on strings is transitive. |
| Text.LessTotal | part2.py:54 | Two different strings are ordered one way or the other. |
| Text.ParseInt | part2.py:36 | `int()` of a stripped field succeeds exactly on an optional sign followed by decimal digits. |
| Text.IntToString | part2.py:86 | `str(n)`: digits, with a minus sign for a negative number. |
| Text.IntRoundTrip | part2.py:86 | A printed price reads back as the same integer: `int(str(n)) == n`. |
| Dates.ParseDate | part2.py:44 | `strptime(s, "%m/%d/%Y")` yields only real calendar dates. |
| Dates.FormatDate | part2.py:84 | `strftime('%m/%d/%Y')` is ten characters with slashes at positions 2 and 5. |
| Dates.FormatParseRoundTrip | part2.py:84 | Parsing a formatted date gives the date back. |
| Dates.FormatDateExample | part2.py:84 | 15 March 2025 prints as `03/15/2025`. |
| Dates.PastAndFuture | part2.py:122 | A midnight date is before `now` exactly when its day is over, or it is today after midnight. It is after `now` exactly when its day is later. It is never both. |
| Merging.AddManufacturers | part2.py:22-32 | A manufacturer pass that succeeds leaves a well-formed store. `ManufacturerKeys`, `ManufacturerOrder` and `ManufacturerLastWins` state what it holds. |
| Merging.NewRecord | part2.py:22-32 | A manufacturer row's record holds the stripped manufacturer and item type, and the stripped fourth field as damage note, or an empty note when the row has only three fields. It has no price and no service-date key. |
| Merging.PriceStep | part2.py:35-38 | A price row succeeds exactly when it has two fields and `int()` accepts the price, whatever its id. It stores the price under a known id and changes no other record, key or order. A row for an unknown id leaves the store as it was. |
| Merging.AddPrices | part2.py:34-38 | The price loop keeps the ids, the keys and every field except the price. |
| Merging.DateValue | part2.py:42-44 | A date field is accepted exactly when it is empty or `strptime` parses it. An empty field gives `None` and only an empty one does. Any other field gives the parsed date. |
| Merging.DateStep | part2.py:41-46 | A date row succeeds exactly when it has two fields and its date field is empty or parses, whatever its id. It stores the date under a known id and changes no other record, key or order. A row for an unknown id leaves the store as it was. |
| Merging.AddDates | part2.py:40-46 | The date loop keeps the ids, the keys and every field except the service date. |
| Merging.Merge | part2.py:20-46 | A successful merge leaves a well-formed store: distinct ids and real dates. |
| Merging.ManufacturersSucceed | part2.py:22-26 | The manufacturer loop completes exactly when every row has at least three fields. |
| Merging.PricesSucceed | part2.py:34-38 | The price loop completes exactly when every row has a price `int()` accepts. A row for an unknown id is no error. |
| Merging.DatesSucceed | part2.py:40-46 | The date loop completes exactly when every row's date field is empty or parses. A row for an unknown id is no error. |
| Merging.MergeSucceeds | part2.py:20-46 | The merge completes exactly when all three tables' rows are well-formed in those senses. |
| Merging.ManufacturersFailureSticks | part2.py:22-26 | A manufacturer row that raises ends the whole merge with that error. |
| Merging.PricesFailureSticks | part2.py:34-36 | A price row that raises ends the whole merge with that error. |
| Merging.DatesFailureSticks | part2.py:40-44 | A date row that raises ends the whole merge with that error. |
| Merging.ManufacturerRowsComplete | part2.py:22-25 | A merge that succeeds saw at least three fields in every manufacturer row. |
| Merging.ManufacturerKeys | part2.py:22-32 | After the manufacturer loop, the keys are the old keys plus every row's id. |
| Merging.ManufacturerOrder | part2.py:28-32 | After the manufacturer loop, the iteration order is the old ids followed by each new id at its first row. |
| Merging.ManufacturerLastWins | part2.py:22-32 | An id's record is the one built from its last manufacturer row. |
| Merging.ManufacturerUntouched | part2.py:22-32 | An id that no manufacturer row names keeps its record. |
| Merging.PriceLastWins | part2.py:34-38 | A known id's price is the parse of its last price row. |
| Merging.PriceUntouched | part2.py:34-38 | A known id without a price row keeps its record, with no `'Price'` key added. |
| Merging.BadPriceFails | part2.py:35-37 | A price `int()` rejects fails the merge even when its id is unknown, because the parse comes before the membership test. |
| Merging.PricesIgnoreUnknownIds | part2.py:37-38 | Dropping the price rows of unknown ids gives the same result. |
| Merging.DateLastWins | part2.py:40-46 | A known id's date comes from its last date row. An empty field stores `None`, not "no key". |
| Merging.DateUntouched | part2.py:40-46 | A known id without a date row keeps its record, with no `'ServiceDate'` key added. |
| Merging.BadDateFails | part2.py:44-45 | A non-empty date `strptime` rejects fails the merge even when its id is unknown. |
| Merging.DatesIgnoreUnknownIds | part2.py:45-46 | Dropping the date rows of unknown ids gives the same result. |
| Merging.MergeKeys | part1.py:14-42 | A fresh merge's keys are exactly the manufacturer-row ids, in order of first appearance. |
| Merging.LoadManufacturers | part2.py:22-32 | The manufacturer loop computes `AddManufacturers`. |
| Merging.LoadPrices | part2.py:34-38 | The price loop computes `AddPrices` and stops at the first failing row. |
| Merging.ReadPriceRow | part2.py:35-38 | One pass of the price loop body computes `PriceStep`. |
| Merging.LoadDates | part2.py:40-46 | The date loop computes `AddDates` and stops at the first failing row. |
| Merging.ReadDateRow | part2.py:41-46 | One pass of the date loop body computes `DateStep`. |
| Sorting.ExchangeSort | part2.py:52-55 | The nested exchange loop leaves the array ordered for the strict order `>`. The result is a permutation of the input. |
| Sorting.FilterKeepsSorted | part2.py:119-125 | Keeping some entries of a sorted list keeps it sorted. |
| Sorting.ToArray | part2.py:50 | `list(...)`: a fresh list holding the sequence. |
| Sorting.InsertDescending | part1.py:130 | Inserting into a descending list keeps it descending and adds exactly one element. |
| Sorting.SortDescending | part1.py:130 | `list.sort(key, reverse=True)` gives a descending permutation of its input. |
| Sorting.SortDescendingStable | part1.py:130 | That sort is stable: elements with equal keys keep their input order. |
| Reports.PriceText | part2.py:86 | The price column is `N/A` exactly when there is no price. Otherwise it reads back as the price. |
| Reports.DateText | part2.py:82-84 | The date column is `N/A` exactly when there is no date key. Otherwise it reads back as the date. |
| Reports.DamageSuffix | part2.py:86 | The damage suffix is present exactly when the note is non-empty, as `", "` followed by the note. |
| Reports.FullLineColumns | part2.py:86 | The class's full-inventory line, split at `", "`, gives back id, manufacturer, type, price column and date column, then the damage note only when it is non-empty. |
| Reports.BriefLineColumns | part2.py:107 | The per-type line, which is also the script's full-inventory line (part1.py:77), splits back into id, manufacturer, price column and date column, then the damage note only when it is non-empty. |
| Reports.PastLineColumns | part2.py:125 | The past-service line splits back into id, manufacturer, type, price column and formatted date. The script's line (part1.py:114) also carries the non-empty damage note, the class's does not. |
| Reports.DamagedLineColumns | part2.py:148 | The damaged-report line of both versions (also part1.py:137) splits back into id, manufacturer, type, price column and date column, with no damage note. |
| Reports.FileName | part2.py:101 | The per-type file name is the type, in its capitalised form, followed by `Inventory.txt`. It agrees with the type up to case. |
| Reports.FormatExample | part2.py:82-86 | A 15 March 2025 date prints `03/15/2025` and a missing price prints `N/A`. |
| Reports.ColumnsInjective | part2.py:86 | Equal price columns mean equal prices. Equal date columns mean equal dates. |
| Reports.OrdersAreStrict | part2.py:52-74 | The comparisons of the four exchange sorts are strict orders: manufacturer, id, date and price. |
| Reports.TypesPartition | part2.py:91-97 | The per-type groups partition the store. The types are distinct, each entry is in exactly its own type's group, and no group is empty. |
| Reports.FileNameCollision | part2.py:101 | Two types share a report file exactly when they differ only in case. |
| Reports.PastSelection | part2.py:113-122 | However the dated entries are ordered, the past-service report keeps exactly the entries dated before `now`. Entries with no date key never appear. |
| Reports.DamagedReportSpec | part1.py:119-130 | The script's damaged report holds exactly the damaged entries, by non-increasing price with a missing price as 0. Equal prices keep store order. |
| Matching.InFuture | part2.py:159 | Reading the date raises `KeyError` without a key and `TypeError` on `None`. Otherwise it reports whether the date is after `now`. |
| Matching.Select | part2.py:156-160 | The selection fails exactly when a screened entry has no date. Otherwise it keeps exactly the eligible entries, in order. |
| Matching.SelectFailureSticks | part2.py:156-160 | The first screened entry without a date ends the selection with its fault. |
| Matching.ArgMaxPrice | part2.py:162-167 | The dearest-match loop succeeds exactly when every match has a price, and returns one of them. |
| Matching.ArgMaxPriceSpec | part2.py:162-167 | The result has the greatest price, and no earlier match is as dear. |
| Matching.ArgMinDistance | part2.py:182-191 | The closest-price loop succeeds exactly when every candidate has a price. It gives `None` exactly when there is no candidate. |
| Matching.ArgMinDistanceSpec | part2.py:182-191 | The result is closest to the price, and no earlier candidate is as close. |
| Matching.BestMatch | part2.py:151-169 | A best match found has a price. |
| Matching.ClosestAlternative | part2.py:171-191 | An alternative found has a price. |
| Matching.BestMatchSpec | part2.py:151-169 | `find_best_match` completes exactly when every matching undamaged item has a date and every eligible one a price. It then returns `None` exactly when nothing is eligible, and otherwise the first eligible item of greatest price. |
| Matching.ClosestAlternativeSpec | part2.py:171-191 | The same for `find_closest_alternative`. It returns the first eligible item of the type, other than the selected id, whose price is closest. Its manufacturer is not constrained. |
| Matching.Recognized | part2.py:199-205 | The recognised names are distinct, and are exactly the query words that name something in the store. |
| Matching.Respond | part2.py:207-226 | Once the names are recognised, a query prints at most two lines, and at most one before a fault. `QueryNoSuchItem` and `QueryFound` state which lines. |
| Matching.QueryResponse | part2.py:193-212 | No lookup happens unless the words name exactly one manufacturer and one type. With no manufacturer word, no type word, two different manufacturer words or two different type words, the answer is "No such item in inventory". When exactly one of each is named, however often, the answer is the lookup for those two names. |
| Matching.QueryNoSuchItem | part2.py:207-226 | The answer is "No such item in inventory" exactly when the query does not name one manufacturer and one type, or nothing is eligible. |
| Matching.ItemLine | part2.py:219 | The printed line is the prefix, then id, manufacturer, item type and price, which split back at `", "` when the text fields are comma-free. The same holds for the alternative's line at part2.py:224. |
| Matching.QueryFound | part2.py:214-224 | Once one manufacturer and one type are named, a lookup fault is the whole answer. Otherwise the best match prints first. A second line follows exactly when an alternative exists, and it is that alternative's line. A fault of the alternative search is the fault that ends the output. |
| Matching.ExampleBestSelection | part2.py:156-160 | Of two Acme widgets and a Bolt widget, the Acme search keeps both Acme widgets. |
| Matching.ExampleAltSelection | part2.py:176-180 | The alternative search for `A2` keeps the other Acme widget and the Bolt one. |
| Matching.AcmeBestMatch | part2.py:151-169 | With Acme widgets at 50 and 80, the best match is the one at 80. |
| Matching.AcmeAlternative | part2.py:171-191 | Against 80, a Bolt widget at 70 is the alternative. With Bolt at 40, the other Acme widget is chosen instead. |
| Matching.SearchesStraddleMidnight | part2.py:173-179 | The alternative search reads the clock again. When that second reading falls on the widgets' service day, the Bolt widget is no longer in the future and the query prints the match alone. With the earlier reading it is offered. |
| InventoryScript.ProcessTheInventory | part1.py:14-42 | The three loops over a fresh dictionary compute `Merge` from the empty store, and succeed with a well-formed store. |
| InventoryScript.SortByTheManufacturer | part1.py:43-50 | The result lists every id once, with manufacturers non-decreasing. |
| InventoryScript.SortByItemID | part1.py:52-58 | The list is reordered in place: a permutation with ids non-decreasing. |
| InventoryScript.SortByTheServiceDate | part1.py:60-66 | The list is reordered in place: a permutation from the oldest date on. |
| InventoryScript.FullInventory | part1.py:68-78 | One line per id in manufacturer order, in the script's format without the item-type column. |
| InventoryScript.GroupKeys | part1.py:82-88 | The grouping dictionary's keys are the types seen so far. |
| InventoryScript.GroupsAfterSpec | part1.py:82-88 | After the grouping loop, the key order is the types' first-appearance order. Each list holds exactly its type's entries, in store order. |
| InventoryScript.GroupByType | part1.py:82-88 | The grouping loop builds that dictionary and that key order. |
| InventoryScript.TypeFile | part1.py:91-97 | One group's file lists each of its entries once, by ascending id, in the per-type format. |
| InventoryScript.ItemTypeInventory | part1.py:80-98 | One file per type, in first-appearance order, named `Capitalized` + `Inventory.txt`. Each file lists exactly that type's entries by ascending id. |
| InventoryScript.StoreGroups | part1.py:82-91 | For a printable store, the grouping's keys are the store's item types. Each key's list is the entries of that type. |
| InventoryScript.WriteTypeFiles | part1.py:90-98 | The writing loop gives each type its file name and its group's lines by id. |
| InventoryScript.PastServiceDateInventory | part1.py:100-117 | The dated entries are sorted oldest first. Exactly the entries dated before `now` are written, in that order, with the damage note. |
| InventoryScript.WritePast | part1.py:111-116 | The writing loop keeps exactly the entries before `now`, in order, one line each. |
| InventoryScript.DamagedInventory | part1.py:119-138 | One line per entry of the stable descending-price order of the damaged entries. |
| InventoryScript.WriteDamaged | part1.py:133-137 | One line per entry, in the given order, without a damage suffix. |
| Seqs.Collect | part2.py:113-117 | The accumulate loop of the reports keeps exactly the elements that pass the test, in order. |
| Seqs.LinesWhere | part1.py:111-116 | The writing loop writes one line for each element that passes the test, in order, and no other line. |
| Manager.SelectEligible | part2.py:156-160 | The selection loop computes `Select` and stops at the first fault. |
| Manager.Dearest | part2.py:162-167 | The running `most_expensive` loop computes `ArgMaxPrice`. |
| Manager.Closest | part2.py:182-191 | The loop over `closest` and `min_price_diff`, starting from `None`, computes `ArgMinDistance`. |
| Manager.RecognizedStep | part2.py:199-205 | One more query word appends itself exactly when it names something and was not recognised yet. |
| Manager.InventoryManager.constructor | part2.py:6-8 | `__init__` starts with an empty inventory. |
| Manager.InventoryManager.ProcessInventory | part2.py:20-46 | It raises exactly when `Merge` of the current inventory fails, with the same error. On success the field holds the merged store. |
| Manager.InventoryManager.SortByManufacturer | part2.py:48-56 | The result lists every id once, with manufacturers non-decreasing. |
| Manager.InventoryManager.SortByItemId | part2.py:58-65 | The list is reordered in place: a permutation with ids non-decreasing. |
| Manager.InventoryManager.SortByServiceDate | part2.py:67-74 | The list is reordered in place: a permutation from the oldest date on. |
| Manager.InventoryManager.FullInventory | part2.py:76-87 | One line per id in manufacturer order, with the item-type column. |
| Manager.InventoryManager.ItemTypeInventory | part2.py:89-108 | One file per type, in first-appearance order. Each lists exactly that type's entries by ascending id. |
| Manager.InventoryManager.PastServiceDateInventory | part2.py:110-126 | Exactly the entries dated before `now`, oldest first, without the damage note. |
| Manager.InventoryManager.DamagedInventory | part2.py:128-149 | Exactly the damaged entries, by non-increasing price with a missing price as 0. |
| Manager.InventoryManager.FindBestMatch | part2.py:151-169 | The method computes `BestMatch` on the field. |
| Manager.InventoryManager.FindClosestAlternative | part2.py:171-191 | The method computes `ClosestAlternative` on the field. |
| Manager.InventoryManager.ScanWord | part2.py:200-205 | One word's scan over the records appends the word to each list exactly when it names something and is not there yet. |
| Manager.InventoryManager.NamedSomewhere | part2.py:200-205 | Some record names the word exactly when it is among the store's lower-cased names. |
| Manager.InventoryManager.RecognizeWords | part2.py:199-205 | The word loops compute the recognised manufacturers and types. |
| Manager.InventoryManager.ProcessQuery | part2.py:193-226 | What a query prints, and the fault that ends it, is `QueryResponse`. The best-match search and the alternative search each take their own clock reading. |

## Left out

- Reading files (`ReadTheFile`, `read_file`) and writing them (`open`, `write`, `close`) are not modelled.
  - The merge takes rows that are already split at commas.
  - Each report returns its lines. The per-type report returns `(file name, lines)` pairs.
- `main`, the `input` loop and `print` are not modelled. `ProcessQuery` returns the printed lines and the fault that ends the query.
- `datetime.now()` is not modelled: each clock reading is a parameter. `ProcessQuery` takes two, one for `find_best_match` and one for `find_closest_alternative`, with no order assumed between them.
- Library details are simplified:
  - `int()` takes an optional sign and ASCII digits. Underscores and non-ASCII digits are not accepted.
  - `strptime` takes ASCII digits only: the model reads `\d` in the `%d` and `%Y` patterns as `0`-`9`.
  - `lower` and `capitalize` fold ASCII letters only.
  - `strftime` is taken to pad years below 1000 to four digits, which some platforms do not.
- A crash halfway through a report is excluded by a precondition, so the lines written before it are not modelled. The preconditions are:
  - `AllPrintable` for the full and per-type reports (no `None` date);
  - `NoBlankDates` for the past-service report;
  - `DamagedPrintable` for the damaged report.
- Manager.InventoryManager.ProcessInventory: when a row raises, the contract says nothing about the field. The method keeps the tables merged before the failing one, but drops the rows of the failing table that came before the bad row, which the source has already stored.
- Sorting.ExchangeSort: the contract states ordered and a permutation, not the exact arrangement of equal keys. So the full reports, both past-service reports and the class's damaged report do not fix the order of ties. The per-type reports are fixed, because ids are distinct.
- Dates.ParseDate: rejects a date written with non-ASCII decimal digits, which Python's `strptime` accepts.
- Manager.InventoryManager.DamagedInventory: it states the damaged entries in non-increasing price order, not which of two equal-priced entries comes first.
- Python list aliasing is not modelled. `sort_by_item_id` and `sort_by_service_date` return the list they sorted. The model sorts an array in place and the caller reads that array.
- Two item types that differ only in case share one file name, and the later file replaces the earlier one. `Reports.FileNameCollision` characterises when this happens. The model returns both files.
- The exchange sorts are not stable. With keys B1, B2, A the loop ends with A, B2, B1. Only the script's damaged report, which uses `list.sort`, is proved stable.
- `find_closest_alternative` is documented as picking another manufacturer, but the code does not compare manufacturers. The model follows the code, and `Matching.AcmeAlternative` shows it picking the match's own manufacturer.
- The two files differ in their lines. The script's full-inventory line has no item-type column, and its past-service lines carry the damage note. The class's do not. Each file is modelled as written.
