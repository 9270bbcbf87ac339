# finnbar in Dafny

finnbar is a terminal client that checks whether IKEA products are in stock
at the stores of one country. This project models the logic it runs on its
data, once the network call and the bundled data file are taken away:

- **The store directory** is in `api.dfy`, module `Api`. It covers
  `get_country_codes`, `get_country_name` and `get_stores`. The country
  table is passed in as a `map<string, string>` and the store table as a
  `seq<StoreRec>`.
- **The projection inside `check_availability`** is also in `Api`. It starts
  from the parsed response body, a `Body` value, and rejects a body without
  an `availabilities` list. It then builds the `bu_code` → `Store` lookup,
  where the last duplicate wins. It keeps the store-type entries that
  resolve and fills in the defaults. Finally it applies the optional store
  filter and sorts by `(store_name, product_id)`.
  - `CheckAvailability` is imperative, as the source is. Its loop is the
    method `ProjectEntries`, and the body of that loop is `BuildRecord`.
    Each is proved equal to a specification function: `Availability`,
    `Project` and `ToStockInfo`.
  - The lemmas about `Availability` state what the result promises.
- **The pure helpers of the user interface** are in `app.dfy`, module `App`:
  - the product-id reader `_product_ids`, a method with a loop proved
    against `KeptIds`;
  - the store and country drop-down options;
  - the cells of one results row: the label and colour table with its
    fallback, and the stock column that shows 0 for out-of-stock records.
- **The record types** `Store` and `StockInfo` of `finnbar/models.py` are in
  `models.dfy`.
- **Support modules:**
  - `text.dfy` holds the parts of Python's `str` that the client uses:
    `isspace`, `lower`/`upper`, `strip`, `split`, `replace` of one
    character, the order `<=`, and `str(int)`.
  - `sorting.dfy` holds the stable sort used for `sorted` and `list.sort`.
  - `wrappers.dfy` holds `Option` and `Result`.

The timestamp reformatting (`datetime.fromisoformat(...).strftime(...)`) is
a parameter, `parseIso: string -> Option<string>`. It returns `None` where
Python raises `ValueError`.

In these places the code does something other than a first reading
suggests:

- `check_availability` does not set the stock to 0 for `OUT_OF_STOCK`. It
  keeps the quantity (`Api.OutOfStockKeepsQuantity`). Only the display shows
  0 (`App.OutOfStockShowsZero`).
- Dots are removed from product ids only by the interface
  (finnbar/app.py:146). `check_availability` only strips white space, and
  only for the request, which the model leaves out.
- The store filter applies whenever `bu_code` is truthy. An empty string
  means no filter.
- A present availability block without `updateDateTime` leaves `updated_at`
  as `None`, although the field is declared `str` (finnbar/api.py:124). The
  model's `StockInfo.updatedAt` is therefore an `Option<string>`.
- A date-only time string is not passed through untouched. It goes through
  `fromisoformat` like every other non-empty string, and here that is the
  `parseIso` parameter.
- One might expect a code to be listed exactly when `get_country_name` does
  not fall back to the upper-cased code. That holds only if no country is
  named as its own upper-cased code. This is
  `Api.CountryListedIffNamed`, and `Api.CountryNameMayEqualFallback` gives
  the counterexample.

## Model

| member | source | states |
|---|---|---|
| `Api.NormalizeIdempotent` | finnbar/api.py:52 | normalising a country code (`lower().strip()`) twice is the same as normalising it once |
| `Api.CountryCodes` | finnbar/api.py:31-33 | the country codes are exactly the table's keys, one per key, in strictly ascending code-point order |
| `Api.CountryListedIffNamed` | finnbar/api.py:31-38 | if no country is named as its upper-cased code, a code is listed exactly when its name is not the upper-cased fallback |
| `Api.CountryNameMayEqualFallback` | finnbar/api.py:31-38 | without that condition the equivalence fails: a listed code can get the fallback name |
| `Api.CountryNameNotNormalized` | finnbar/api.py:38 | the name lookup does not normalise its argument: `"DE"` misses the key `"de"` and falls back to `"DE"` |
| `Api.CountryName` | finnbar/api.py:36-38 | a code in the table gets its name; any other code gets the code upper-cased, character by character |
| `Api.ToStore` | finnbar/api.py:44-50 | a table row becomes a store with its bu_code, name and country code, its country or `""`, and its coordinates or `[]` |
| `Api.StoresFor` | finnbar/api.py:41-53 | never more stores than table rows, and every store returned has the normalised country code |
| `Api.StoresForMember` | finnbar/api.py:41-53 | a store is returned if and only if some row of the normalised country gives it, with `""` for a missing country and `[]` for missing coordinates |
| `Api.StoresForAppend` | finnbar/api.py:43-53 | table order is kept: the stores of two concatenated tables are those of the first table, then those of the second |
| `Api.StoreLookup` | finnbar/api.py:95 | the lookup's keys are exactly the stores' bu_codes, and each key maps to one of the stores that carries it |
| `Api.StoreLookupLastWins` | finnbar/api.py:95 | with duplicate codes, a code maps to the last store in the list that carries it |
| `Api.Project` | finnbar/api.py:97-142 | never more records than entries |
| `Api.ProjectMember` | finnbar/api.py:99-142 | a record is produced if and only if some store-type entry resolves in the lookup and yields it |
| `Api.KeepStore` | finnbar/api.py:145-146 | keeps exactly the records with the given bu_code, as a sub-multiset of its input |
| `Api.KeepStoreCount` | finnbar/api.py:146 | every record with the given bu_code is kept as often as it occurs, and no other record is kept |
| `Api.KeepStoreAppend` | finnbar/api.py:146 | input order is kept: the records kept from two concatenated lists are those kept from the first, then those kept from the second |
| `Api.FormatUpdated` | finnbar/api.py:124-129 | a missing time stays missing; a present time changes only when it is non-empty and parses, and then becomes the reformatted time |
| `Api.ToStockInfo` | finnbar/api.py:107-141 | the product id, bu_code and store fields are copied; a non-zero stock, a non-empty probability or an update time other than `""` can only come from a cash-and-carry availability block that carries them |
| `Api.BlockFieldsRead` | finnbar/api.py:113-129 | a cash-and-carry entry with a non-empty block takes the block's quantity (0 when null or missing), its message type and its reformatted update time |
| `Api.Filtered` | finnbar/api.py:97-146 | before sorting there are never more records than entries, and with a truthy `bu_code` every record has that bu_code |
| `Api.Availability` | finnbar/api.py:91-92 | the call fails exactly when the body has no `availabilities` list |
| `Api.BuildRecord` | finnbar/api.py:107-141 | the loop body's step-by-step assignments of stock, probability and `updated_at` produce the record `ToStockInfo` |
| `Api.ProjectEntries` | finnbar/api.py:97-142 | the loop that skips non-store and unknown entries and appends the rest yields `Project` of the entries |
| `Api.CheckAvailability` | finnbar/api.py:91-151 | the whole projection (reject, lookup, loop, filter, sort) returns `Availability` of its inputs |
| `Api.AvailabilityBounded` | finnbar/api.py:95-106 | there are never more result records than availability entries |
| `Api.AvailabilitySorted` | finnbar/api.py:149 | the result is non-decreasing by `(store_name, product_id)`. It is a permutation of the filtered records and a stable sort of them. |
| `Api.AvailabilityFiltered` | finnbar/api.py:145-146 | with a truthy `bu_code`, every result record has that bu_code |
| `Api.AvailabilityProvenance` | finnbar/api.py:99-141 | every record comes from a `"STO"` entry whose code is the bu_code of a store of the country. Its store fields are that store's, and its product id is the entry's item number (`""` when missing). |
| `Api.AvailabilityComplete` | finnbar/api.py:99-146 | every store-type entry that resolves and passes the filter has its record in the result |
| `Api.AvailabilityRejectsMalformed` | finnbar/api.py:91-92 | a body without an `availabilities` list gives the unexpected-structure error |
| `Api.DefaultsWithoutAvailability` | finnbar/api.py:109-119 | no cash-and-carry availability, or a missing or empty block, gives stock 0, probability `""` and `updated_at` `""` |
| `Api.MissingQuantityIsZero` | finnbar/api.py:120 | a missing or null quantity reads as stock 0 |
| `Api.MissingUpdateTimeIsNone` | finnbar/api.py:124 | a present block without an update time leaves `updated_at` as `None` |
| `Api.UnparsedTimeKept` | finnbar/api.py:125-129 | a non-empty update time that does not parse is kept verbatim, and the call does not fail |
| `Api.OutOfStockKeepsQuantity` | finnbar/api.py:120-123 | every cash-and-carry entry whose block says `OUT_OF_STOCK` keeps its reported quantity, whatever it is, in the record |
| `Api.ScenarioOneStore` | finnbar/api.py:91-151 | one store-type entry for a German store, with quantity 5, `HIGH_IN_STOCK` and no update time, gives exactly one record: the store's name, code and country (`"Germany"`), stock 5, probability `HIGH_IN_STOCK` and `updated_at` `None` |
| `Api.ScenarioNotAStore` | finnbar/api.py:101-102 | an entry whose class unit type is not `"STO"` gives no record |
| `Sorting.SortBy` | finnbar/api.py:149 | the sort returns a permutation of its input, of the same length |
| `Sorting.SortBySorted` | finnbar/api.py:149 | the sort's output is non-decreasing by its key |
| `Sorting.SortByStable` | finnbar/api.py:149 | for every key, the elements that have it keep their input order |
| `Sorting.SortByUnique` | finnbar/api.py:149 | any sorted arrangement that keeps each key's elements in input order is the sort's result, so every stable sort gives the same output |
| `Text.Strip` | finnbar/app.py:140 | `strip()` returns the infix left after the leading white space, with only white space after it. It neither starts nor ends with white space, and it is empty exactly when the input is all white space. |
| `Text.JoinSplit` | finnbar/app.py:145 | joining the pieces of `split(sep)` with `sep` gives back the input |
| `Text.ParseIntToString` | finnbar/app.py:280 | `str(n)` reads back as `n` |
| `App.NormalizeToken` | finnbar/app.py:146 | a normalised token contains no dot and exactly the non-dot characters of the stripped token |
| `App.Tokens` | finnbar/app.py:140-145 | the input has no tokens exactly when it is empty or all white space |
| `App.KeptIds` | finnbar/app.py:144-148 | never more ids than tokens, and no id is empty or contains a dot |
| `App.ProductIds` | finnbar/app.py:139-149 | `_product_ids` returns `KeptIds` of the tokens, nothing for blank input, and ids that are non-empty and dot-free |
| `App.KeepNormalized` | finnbar/app.py:144-148 | the appending loop over the tokens yields `KeptIds` of the tokens |
| `App.KeptIdsAppend` | finnbar/app.py:145-148 | ids are kept token by token: the ids of two runs of tokens are those of the first run, then those of the second |
| `App.KeptIndices` | finnbar/app.py:145-148 | there is one kept position per id, each a valid token position, in strictly ascending order |
| `App.KeptIdsAtIndices` | finnbar/app.py:145-148 | the k-th id is the normalised token at the k-th kept position |
| `App.SkippedTokenEmpty` | finnbar/app.py:146-148 | every token at a position that is not kept normalises to the empty string |
| `App.TokensJoin` | finnbar/app.py:140-145 | for non-blank input, the tokens rejoined with commas give the stripped input |
| `App.DotsDoNotMatter` | finnbar/app.py:143-146 | a token without white space gives the same id whether or not it is written with dots |
| `App.DottedFormSameId` | finnbar/app.py:143-146 | `a.b.c` and `abc` give the same id `abc` (for example `"306.043.67"` and `"30604367"`) |
| `App.OptionPairs` | finnbar/app.py:154-157 | one `(name, bu_code)` pair per store, in the stores' order |
| `App.StoreOptions` | finnbar/app.py:151-157 | there is one option per store of the country |
| `App.StoreOptionsSorted` | finnbar/app.py:154-157 | the options are in non-decreasing order of store name |
| `App.StoreOptionsPermutation` | finnbar/app.py:153-157 | the options are exactly the `(name, bu_code)` pairs of the country's stores, each as often as it occurs |
| `App.StoreOptionsStable` | finnbar/app.py:156 | stores that share a name keep their table order |
| `App.CountryLabel` | finnbar/app.py:26 | the caption is the upper-cased code, the three characters `" – "`, then `get_country_name` of the code, whether or not the code is in the table |
| `App.CountryOptions` | finnbar/app.py:25-28 | there is one option per country of the table |
| `App.CountryOptionsOrdered` | finnbar/app.py:25-28 | every country has exactly one option, in ascending order of code, captioned `CODE – name` |
| `App.CountryOptionsComplete` | finnbar/app.py:25-28 | every code of the country table appears among the options |
| `App.AvailabilityCell` | finnbar/app.py:274 | a known probability gets its own table entry; any other gets `("Unknown", "dim")`, and the label is `"Unknown"`, and the colour `"dim"`, exactly for a probability outside the table |
| `App.AvailabilityUnknownIff` | finnbar/app.py:29-34 | the label and colour fall back to `("Unknown", "dim")` exactly for a probability other than the three known ones, `""` included |
| `App.AvailabilityLabelsDistinct` | finnbar/app.py:29-33 | distinct known probabilities get distinct labels and distinct colours |
| `App.StockCell` | finnbar/app.py:280 | the stock cell is `"0"` for an out-of-stock record and `str(stock)` (the canonical decimal of `Text.IntToString`) otherwise |
| `App.StockCellValue` | finnbar/app.py:280 | the stock column reads back as 0 for `"OUT_OF_STOCK"` and as the record's stock otherwise |
| `App.OutOfStockShowsZero` | finnbar/app.py:280 | the record of any cash-and-carry `OUT_OF_STOCK` entry keeps its quantity, and its stock cell shows `"0"` |
| `App.RenderRow` | finnbar/app.py:273-283 | a row shows its record's product id, `CODE – country` with the code upper-cased, the store name and update time, the display of its probability, and the stock cell `StockCell` of the record, which reads back as 0 when out of stock and as the stock otherwise |
| `App.RenderRows` | finnbar/app.py:273-283 | one row per result record: row k is the row of record k |
| `App.RenderedRowsSorted` | finnbar/app.py:273-282 | the rows appear in `(store, product id)` order, and each row shows its record's product id, store and displayed stock |

## Left out

- The HTTP request (finnbar/api.py:77-90) is left out because it is network I/O through a foreign library. This covers building the URL, headers and parameters, `requests.get` with its timeout, `raise_for_status` and `response.json()`. The parsed body is an input, and `product_ids` only feeds the request, so `CheckAvailability` does not take it.
- Loading `stores.json` (finnbar/api.py:19-28) is file I/O. Both tables are parameters instead.
- The internals of `datetime.fromisoformat` and `strftime` are library date parsing. They are the uninterpreted parameter `parseIso`.
- All Textual user-interface code in finnbar/app.py is presentation and threading. This covers `compose`, the event handlers, `_show_*` widget swapping, notifications, the reactive state, the worker thread, the empty-result message (lines 253-261) and `DataTable.add_row`. `RenderRows` is the list of rows that would be added.
- finnbar/__main__.py is left out: it only starts the application.
- Rich `Text` style objects: a style is modelled as its string.
- Text.Lower: only ASCII letters are mapped. Python's `lower` also maps non-ASCII letters, but country codes are ASCII.
- Text.Upper: only ASCII letters are mapped, for the same reason.
- Api.ToStockInfo: a JSON `null` or non-object at an intermediate key makes the source raise `AttributeError`; the model treats it like a missing key. The same goes for `classUnitKey`, `itemKey`, `buyingOption`, `cashCarry`, `probability` and `thisDay`.
- Api.ToStockInfo: a JSON `null` in `itemNo`, `messageType` or `classUnitCode` is read as the `.get` default (`""`), although Python keeps `None` there. The source then differs: a `None` store code is never in the lookup, a `None` probability is stored as is, and a `None` product id can make the sort at finnbar/api.py:149 raise `TypeError` when it ties on store name with a string id. The model gives a record, or a `Success`, in those cases.
- Api.ToStockInfo: quantities are integers. `int()` truncation of a float quantity, and the `ValueError` for a non-numeric one, are not modelled.
- Api.Body: the body and every element of `availabilities` are taken to be JSON objects. In the source, a body that is not an object fails at `data.get` (finnbar/api.py:91), and a `null` or non-object entry fails at `item.get` (finnbar/api.py:101). Both raise `AttributeError`, which `Body` and `Entry` cannot represent. `UnexpectedStructure` stands only for the `ValueError` of a missing or non-list `availabilities`.
- Api.StoreRec: the rows of the store table are assumed to have `buCode`, `name` and `countryCode`. A missing one would raise `KeyError` at lookup time. Coordinates, a `list[float]` in the source, are `seq<real>` and are only passed through. A `null` `country` in the table would stay Python `None` at finnbar/api.py:48, while the model's `None` means only "missing" and gives `""`.
- Sorting.SortBy: Python's sort is Timsort. The model uses insertion sort, which gives the identical result (`Sorting.SortByUnique`).
- Api.CountryCodes and App.CountryOptions are ghost functions. Turning a set into a sequence needs a choice that only ghost code may make. The result is still unique, because it is strictly ascending.
