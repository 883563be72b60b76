# Fuel-price pipeline: a verified model of its two cores

The repository streams live fuel prices from a public API to a map dashboard. This project
models its two sequential cores in Dafny:

- **The producer-side normalizer** (`data_stream.py`). It builds the station-code lookup from
  the API's `stations[]` and joins every `prices[]` entry to its station, dropping entries
  whose code is unknown. It splits suburb and postcode off the address with
  `split(", ")[-1].rsplit(" ", 2)`. It then cleans the rows in order: `dropna` on the six
  required columns, `fillna("Unknown")`, `to_numeric(errors="coerce")`, the range filter,
  `drop_duplicates(keep="first")`, and re-casing.
- **The consumer-side station index** (`dashboard.py`). The MQTT callback puts decoded
  payloads on a FIFO queue. The bounded drain loop (at most `MAX_MESSAGES_PER_RUN` = 200
  payloads per run) skips payloads without a name, address or coordinates. It files a new
  `Station` under `name + address` and upserts the payload's `Fuelprice`, last write wins. The
  marker loop selects the stations that have the chosen fuel with a price and both coordinates.

Modules:

- `Wrappers`: `Option` and `Result`.
- `Seqs`: order-preserving `Filter`, `Map` and `DropDuplicates`, with lemmas giving, for each,
  exactly which input positions survive.
- `Text`: ASCII `str.upper` and `str.title`, `split(", ")[-1]` and `rsplit(" ", 2)`.
- `DataStream`: the normalizer as functions, with the join loop as a method proved against
  them.
- `StationIndex`: the station dictionary as a value (`Index`), the update one payload makes
  (`Apply`), and the marker selection (`Snapshot`).
- `Dashboard`: the mutable side as classes. `Station` owns its `fuelprice` dictionary.
  `MessageQueue` is the queue. `Session` holds `st.session_state["stations"]`, its drain loop
  and its marker loop. Every `Session` method is proved to follow `StationIndex`; the queue's
  methods and `OnMessage` are stated over the queue's item sequence.

Python dictionaries iterate in insertion order, and the marker loop depends on it, so the
index records its keys in insertion order.

## Model

| member | source | states |
|---|---|---|
| Dashboard.Station.constructor | dashboard.py:19-25 | A new station holds the given name, address, brand and coordinates and no fuel entries. |
| Dashboard.Station.PutFuelPrice | dashboard.py:173-179 | An absent fuel code gets a new entry; an existing one has price and date overwritten. Every other fuel entry and all constructor fields are unchanged. |
| Dashboard.MessageQueue.constructor | dashboard.py:102 | A new queue is empty. |
| Dashboard.MessageQueue.Put | dashboard.py:64 | `put` appends at the back. |
| Dashboard.MessageQueue.Get | dashboard.py:145 | `get` on a non-empty queue returns the front item and leaves the rest in order. |
| Dashboard.OnMessage | dashboard.py:53-74 | Without a queue nothing changes. A payload that fails to decode leaves the queue unchanged. Otherwise exactly that payload is appended. |
| Dashboard.Session.constructor | dashboard.py:100-113 | A session starts with an empty queue and an empty station dictionary. |
| Dashboard.Session.Receive | dashboard.py:147-179 | One loop iteration changes the dictionary exactly as `StationIndex.Apply` says, and the session stays valid. |
| Dashboard.Session.CreateStation | dashboard.py:161-168 | A new key gets a freshly allocated station, filed under that key and appended to the insertion order. |
| Dashboard.Session.UpsertFuelPrice | dashboard.py:171-179 | The index changes as `StationIndex.WithPrice` says: only the keyed station's entry for that fuel changes, to the new price and date. No station object is added or dropped. |
| Dashboard.Session.DrainQueue | dashboard.py:137-179 | Takes min(queue length, 200) payloads from the front and applies them in arrival order. The rest stay queued, in order. |
| Dashboard.Session.SnapshotFor | dashboard.py:194-202 | The markers are exactly `StationIndex.Snapshot` of the current dictionary for the selected fuel. |
| StationIndex.Apply | dashboard.py:147-179 | One payload only appends to the insertion order, by at most one key. The keys afterwards are the old ones plus, for a valid payload, its `name + address`. |
| StationIndex.ApplyAll | dashboard.py:141-179 | A run of payloads only appends to the insertion order, by at most one key per payload, and keeps every key. |
| StationIndex.ApplyInvalid | dashboard.py:157-159 | A payload lacking a truthy name or address, or either coordinate, leaves the index unchanged. |
| StationIndex.ApplyStation | dashboard.py:161-168 | A valid payload makes `name + address` a key. An existing station keeps its name, address, brand and coordinates, and the order is unchanged. A new one takes them from the payload and goes last in the order. |
| StationIndex.ApplyPrices | dashboard.py:164-179 | With a truthy fuel code and a price, that fuel's entry becomes the payload's price and date, whatever it held. Without them, no entry is added, even for a newly created station. |
| StationIndex.ApplyFrame | dashboard.py:164-179 | No station and no fuel entry is ever removed. Every station under another key is unchanged. |
| StationIndex.ApplyIdempotent | dashboard.py:164-179 | Applying the same payload twice equals applying it once. |
| StationIndex.WithStationWellFormed | dashboard.py:164-168 | Filing a new key keeps the order duplicate-free and in step with the keys. |
| StationIndex.WithPriceWellFormed | dashboard.py:171-179 | Storing a present price keeps every stored price present. |
| StationIndex.ApplyWellFormed | dashboard.py:157-179 | One payload keeps the index well formed. |
| StationIndex.ApplyAllWellFormed | dashboard.py:141-179 | Any run of payloads keeps the index well formed. |
| StationIndex.ApplyKeyedByName | dashboard.py:161-168 | One payload keeps every key equal to its station's name followed by its address. |
| StationIndex.ApplyAllKeyedByName | dashboard.py:141-168 | So does any run of payloads. |
| StationIndex.ApplyAllMonotone | dashboard.py:141-179 | A run never removes a station or a fuel entry. |
| StationIndex.ApplyKeepsEntry | dashboard.py:171-179 | A payload that does not update station k, fuel c leaves that entry as it was. |
| StationIndex.ApplyAllLastWrite | dashboard.py:141-179 | After a run, an entry holds the price and date of the last payload in arrival order that updated it. No dates are compared. |
| StationIndex.ApplyAllUntouched | dashboard.py:141-179 | An entry no payload of the run updates keeps its price and date. |
| StationIndex.Snapshot | dashboard.py:194-202 | There are at most as many markers as stations. Each marker belongs to a station that has the selected fuel with a price and both coordinates, and shows that station's data and price. |
| StationIndex.SnapshotOfShows | dashboard.py:194-202 | For any key list, each marker passes both `continue` filters and shows its station's data. |
| StationIndex.SnapshotOfStep | dashboard.py:194-202 | One iteration of the marker loop adds the station's marker exactly when it passes both filters. |
| StationIndex.SnapshotOfSelects | dashboard.py:194-202 | The markers for a key list are, in order, those of exactly the listed stations that pass both `continue` filters. |
| StationIndex.SnapshotExact | dashboard.py:194-202 | A station has a marker iff it has the fuel with a price and both coordinates. Each marker shows its station's data, and no station has two markers. |
| StationIndex.ReachedPricesPresent | dashboard.py:171-202 | In any reachable index every stored price is present, so the `price is None` test never skips an existing entry. |
| StationIndex.AcmeApplied | dashboard.py:147-179 | A payload for station "Acme" at "1 Rd, Town 2000" with E10 at 1.55, applied to an empty index, files station "Acme1 Rd, Town 2000" with the single entry E10 = (1.55, "2024-01-01"). |
| DataStream.StationMap | data_stream.py:140-149 | When the map is built, every station has a code and that code is a key of the map. |
| DataStream.StationMapDefined | data_stream.py:140-149 | The map is built iff every station has a code. |
| DataStream.StationMapAt | data_stream.py:140-149 | The keys are exactly the stations' codes. Each code maps to the name, address, brand and coordinates of the last station carrying it. |
| DataStream.SuburbPostcode | data_stream.py:159-165 | Both values are present exactly when the address is. The suburb then begins and the postcode ends the part after the last ", ", and the postcode has no space. |
| DataStream.SuburbPostcodeWithState | data_stream.py:159-165 | "STREET, SUBURB STATE POSTCODE" yields SUBURB, even when it contains spaces, and POSTCODE. |
| DataStream.SuburbPostcodeOfTwo | data_stream.py:159-165 | "STREET, SUBURB POSTCODE" with a one-word suburb yields both. |
| DataStream.SuburbPostcodeExample | data_stream.py:159-165 | "1 Rd, Town 2000" gives ("Town", "2000"). |
| DataStream.RowOf | data_stream.py:167-178 | The row carries the station's name, address, brand and coordinates and the entry's fuel, price and date. Suburb and postcode are present exactly when the address is, and the postcode has no space. |
| DataStream.Joined | data_stream.py:152-178 | The join emits at most one row per price entry. |
| DataStream.JoinPrices | data_stream.py:152-178 | The loop's `combined_data` equals `Joined`. |
| DataStream.JoinedSelects | data_stream.py:152-178 | Rows exist for exactly the entries whose station code is in the map, in the order of `prices[]`. Each row carries that station's name, address, brand and coordinates and the entry's fuel, price and date. |
| DataStream.ToNumber | data_stream.py:113-115 | Coercion yields a number or a missing value. A missing value stays missing and a number stays as it is. Text becomes a number exactly when `ParseDecimal` accepts it, and then the number it parses to; the lemmas below state which text that is and its value. |
| DataStream.ShiftedQuotient | data_stream.py:113-115 | Shifting n by k decimal places gives n / 10^k. |
| DataStream.DecimalValueQuotient | data_stream.py:113-115 | The value of digits W "." digits F is W + F / 10^len(F). |
| DataStream.UnsignedDecimalDefined | data_stream.py:113-115 | Unsigned text parses exactly when it consists of digits and at most one '.', with at least one digit. |
| DataStream.DottedDecimalText | data_stream.py:113-115 | With the first '.' at d, such text is exactly digits before d and digits after it, with at least one digit. |
| DataStream.ParseDecimalDefined | data_stream.py:113-115 | Text parses exactly when, after one optional leading '-' or '+', it is digits with at most one '.' and at least one digit. Any other character gives a missing value. |
| DataStream.UnsignedDecimalValue | data_stream.py:113-115 | Unsigned W "." F, both digit strings, parses to W + F / 10^len(F). |
| DataStream.UnsignedWholeValue | data_stream.py:113-115 | An unsigned digit string parses to its value. |
| DataStream.ParseDecimalValue | data_stream.py:113-115 | W "." F parses to W + F / 10^len(F). |
| DataStream.ParseNegativeDecimalValue | data_stream.py:113-115 | "-" W "." F parses to the negation of that value. |
| DataStream.ParsePositiveDecimalValue | data_stream.py:113-115 | "+" W "." F parses to that value. |
| DataStream.ParseWholeValue | data_stream.py:113-115 | A digit string, with or without a leading "-", parses to its value or its negation. |
| DataStream.DecimalValueWhole | data_stream.py:113-115 | Digits without a fraction have their integer value. |
| DataStream.MinusStripped | data_stream.py:113-115 | A leading "-" negates what the rest parses to. |
| DataStream.PlusStripped | data_stream.py:113-115 | A leading "+" leaves what the rest parses to. |
| DataStream.Clean | data_stream.py:100-132 | The cleaning as written outputs no more rows than it gets, each of them cleaned. |
| DataStream.CleanCorrected | data_stream.py:100-132 | The corrected cleaning outputs no more rows than it gets, each cleaned, and no two share station name, upper-cased fuel code and coordinates. |
| DataStream.CleanWithSelects | data_stream.py:100-132 | Cleaning keeps exactly the rows that have the six required values, are in range after coercion, and are the first with their de-duplication key. They stay in input order, each filled, coerced and re-cased. |
| DataStream.StandardizedCleaned | data_stream.py:101-130 | A row passing both filters comes out cleaned. |
| DataStream.CleanWithCleaned | data_stream.py:100-132 | Every output row has the six required values, Suburb and Postcode present, price >= 0, latitude in [-90, 90] and longitude in [-180, 180] as numbers, and re-cased text. |
| DataStream.CleanWithFillsUnknown | data_stream.py:100-132 | A surviving row with no suburb comes out with suburb "Unknown", and one with no postcode with postcode "Unknown". A postcode that was present is kept. |
| DataStream.StandardizedFills | data_stream.py:105-129 | For one row: a missing suburb becomes "Unknown" after filling and title-casing; the postcode becomes the given one or "Unknown". |
| DataStream.CorrectedKeyStandardize | data_stream.py:124-130 | Re-casing leaves the corrected de-duplication key unchanged. |
| DataStream.CleanCorrectedDistinct | data_stream.py:124-125 | With the corrected cleaning, no two output rows share station name, fuel code and coordinates. |
| DataStream.CleanCorrectedCovers | data_stream.py:124-125 | With the corrected cleaning, every station-fuel-location combination of a row passing both filters appears in the output. |
| DataStream.CleanCorrectedIdempotent | data_stream.py:100-132 | Applying the corrected cleaning to its own output changes nothing. |
| DataStream.TwinsKept | data_stream.py:124-125 | Of two rows that both have their required values and are in range, the second survives de-duplication iff the subset tells them apart. |
| DataStream.CleanKeepsTwins | data_stream.py:124-130 | As written, two rows whose fuel codes differ only in case both survive and share the subset values afterwards. |
| DataStream.CleanCorrectedMergesTwins | data_stream.py:124-130 | Comparing the subset after upper-casing keeps only the first of them. |
| DataStream.CaseVariantTwins | data_stream.py:124-130 | "u91" and "U91" rows for one station and location are such a pair. |
| DataStream.CleanKeepsCaseVariants | data_stream.py:124-130 | The as-written cleaning outputs both of those rows, with equal subset values. |
| DataStream.CleanCorrectedMergesCaseVariants | data_stream.py:124-130 | The corrected cleaning outputs one of them. |
| DataStream.Normalize | data_stream.py:134-182 | A successful fetch, with the cleaning as written, has no more rows than there are price entries, each of them cleaned. |
| DataStream.NormalizeCorrected | data_stream.py:134-182 | The same fetch with the corrected cleaning: also no two rows share station name, upper-cased fuel code and coordinates. |
| DataStream.FetchAndClean | data_stream.py:134-182 | The fetch computes `Normalize`: the map by comprehension, the join by the loop, then the cleaning as written. |
| DataStream.NormalizeMissingCode | data_stream.py:140-149 | The fetch fails for a missing code iff some station lacks `code`. |
| DataStream.NormalizeNoColumns | data_stream.py:152-182 | The fetch fails for an empty frame iff every station has a code and no price entry names a known one. |
| DataStream.NormalizedValue | data_stream.py:139-182 | A successful fetch is the cleaning as written of the join against a built station map. |
| DataStream.NormalizeSuccess | data_stream.py:139-182 | A successful fetch keeps, in order, exactly the joined rows that have the six required values, are in range, and are the first with their station name and fuel code before re-casing and their converted coordinates. Each is that row filled, coerced and re-cased. |
| DataStream.NormalizeProvenance | data_stream.py:139-182 | Every row of a successful fetch is the cleaned join of one price entry whose station is known. |
| DataStream.CleanedJoinSelects | data_stream.py:152-182 | The cleaning as written of a join keeps, in order, exactly the joined rows that survive it. |
| DataStream.CleanedJoinProvenance | data_stream.py:152-182 | Each of those rows is the cleaned join of one price entry whose station is known. |
| DataStream.NormalizeCorrectedCovers | data_stream.py:134-182 | The fetch with the corrected cleaning fails exactly when the fetch as written does, with the same error. On success it has a row for the station, fuel and location of every price entry for a known station whose values are present and in range. |
| DataStream.AcmeJoined | data_stream.py:140-178 | A response with one station, "S1", and one E10 price for it joins to one row with suburb "Town" and postcode "2000". |
| DataStream.AcmeRowClean | data_stream.py:100-130 | That row passes cleaning unchanged. |
| DataStream.AcmeNormalized | data_stream.py:134-182 | The fetch of that response yields exactly that row. |
| Text.Upper | data_stream.py:130 | The length is kept, no lower-case letter is left, and each character equals the input's up to case. |
| Text.UpperIdempotent | data_stream.py:130 | Upper-casing twice equals once. |
| Text.Title | data_stream.py:128-129 | The length is kept and each character equals the input's up to case. A character at the start or after a non-letter is not lower case; a character after a letter is not upper case. |
| Text.TitleFrom | data_stream.py:128-129 | The same, for title-casing that continues after a letter or a non-letter. |
| Text.TitleUnknown | data_stream.py:129 | Title-casing leaves the filler "Unknown" unchanged. |
| Text.TitleIdempotent | data_stream.py:128-129 | Title-casing twice equals once. |
| Text.LastComponent | data_stream.py:160 | `split(", ")[-1]` is a suffix without ", ". It is the whole string or follows a ", ". |
| Text.LastComponentAfterSeparator | data_stream.py:160 | A ", "-free tail after a ", " is what `split(", ")[-1]` returns. |
| Text.LastComponentAt | data_stream.py:160 | When a ", " ends at position n and no ", " follows, `split(", ")[-1]` is the text from n on. |
| Text.RSplit2 | data_stream.py:161 | `rsplit(" ", 2)` gives one to three parts. |
| Text.RSplit2Parts | data_stream.py:161 | Joining the parts with single spaces gives back the input. Only the first part may contain a space, and only when there are three parts. |
| Text.RSplit2Ends | data_stream.py:161-163 | The first part begins the input. The last part ends it and has no space. |
| Text.RSplit2OfThree | data_stream.py:161-163 | "A B C", with B and C space-free, splits to [A, B, C]. |
| Text.RSplit2OfTwo | data_stream.py:161-163 | "A B", both space-free, splits to [A, B]. |
| Seqs.FilterSelects | data_stream.py:118-122 | Filtering keeps, in order, exactly the elements satisfying the predicate. |
| Seqs.FilterMembers | data_stream.py:102 | An element survives filtering iff it is in the input and satisfies the predicate. |
| Seqs.DropDuplicatesDistinct | data_stream.py:125 | De-duplication keeps only input elements. No two share a key, and no key of the input is lost. |
| Seqs.KeptKey | data_stream.py:125 | A key reaches de-duplication iff some position passing both filters has it. |
| Seqs.KeptUniqueSelects | data_stream.py:100-130 | Filter, map, filter, de-duplicate and map outputs g(f(s[j])), in order, for exactly the positions j that pass both filters and are first with their key. |
| Seqs.FilterAllPass | data_stream.py:102 | Filtering a sequence whose elements all pass changes nothing. |
| Seqs.DropDuplicatesOfDistinct | data_stream.py:125 | De-duplicating a sequence without repeated keys changes nothing. |

## Left out

- MQTT transport, the connect/subscribe callbacks, `loop_forever` and the thread that runs them. Queue operations are modelled as sequential steps, without locking.
- Streamlit page setup, the selectbox, map centre and zoom, `st.rerun` and sleeping.
- Folium markers, popups, HTML and icon URLs, and the `float()` conversion for markers. A marker is modelled as the station's key, name, address, coordinates and price.
- The `FuelPriceCheckAPI` HTTP calls, OAuth tokens, UUIDs and timestamps. The decoded response is an input (`Feed`).
- CSV writes, `publish_data`'s network loop and the polling loop in `main`. The mapping from a cleaned row to a published payload happens inside `publish_data` and is not part of this model.
- `update_fuel_data`: its reduced rows lack the Suburb and Brand columns the cleaner refers to, so only the full-fetch join is modelled.
- The `category` dtype conversions (data_stream.py:109-110): they do not change any value.
- Dashboard.OnMessage: the `isinstance(userdata, queue.Queue)` check is carried by the type, and logging is left out. UTF-8 and JSON decoding become the `decoded` parameter (`None` for a failure).
- Dashboard.Session.DrainQueue: a payload that is valid JSON but not an object, or whose fields have unexpected types, would make `data.get` or `+` raise and end the script run. `Payload` models JSON objects whose fields are strings and numbers, or missing.
- Dashboard.Station.PutFuelPrice: a `Fuelprice` is a value held in the station's map. The source assigns its `price` and `price_updated_date` in place; the model replaces the map entry with a copy holding the new values. No other reference to a `Fuelprice` exists, so this changes nothing observable.
- DataStream.StationMap: a station whose `code` is JSON null gets the key `None` in the source. The model treats it like a station without `code`, so the fetch fails.
- DataStream.ToNumber: text is parsed as an optionally signed decimal. pandas also accepts exponents, surrounding whitespace, "inf" and "nan"; those are left out. Text is parsed exactly, as a `real`, so float64 rounding is not modelled. For example, "-90.00000000000000001" rounds to -90.0 in the source and passes `between(-90, 90)`, but is out of range in the model. Likewise, two decimals that differ only beyond double precision are duplicates for `drop_duplicates` in the source but not in the model.
- Text.Upper: only ASCII letters change case; Unicode case mapping is left out. Text.TitleFrom is ASCII in the same way.
- DataStream.CleanWith: `fillna(..., inplace=True)` on a column is assumed to update the frame, which is the behaviour of pandas before copy-on-write.
- DataStream.SuburbPostcode: a parse failure gives `None` for both values, which cleaning later fills with "Unknown". The only failure in the model is a missing address.
- DataStream.InfoOf: a station whose `location` is JSON null makes `.get("latitude")` raise AttributeError and aborts the fetch (data_stream.py:145-146). The model treats a null `location` like a missing one, which gives no coordinates.
- DataStream.Normalize: a JSON null `stations` or `prices` makes the loop raise TypeError and aborts the fetch (data_stream.py:148, 153). `Feed` holds lists, so a missing or null list is modelled as empty.

## Findings

`clean_and_display_fuel_data` drops duplicate station-fuel-location rows (line 125) before it
upper-cases `FuelCode` (line 130). Two rows for one station and location whose fuel codes
differ only in case therefore both survive, and leave the cleaner with identical
station-fuel-location values. The as-written cleaning is `DataStream.Clean`. The corrected
`DataStream.CleanCorrected` compares the fuel code upper-cased. `DataStream.Normalize` and
`DataStream.FetchAndClean` model the fetch as written, with `DataStream.Clean`.
`DataStream.NormalizeCorrected` is the same fetch with the corrected cleaning, and
`DataStream.NormalizeCorrectedCovers` relates the two.

| source | as written | input that shows it | evidently intended | confidence | as-written member | corrected member |
|---|---|---|---|---|---|---|
| data_stream.py:124-130 | de-duplication compares FuelCode before it is upper-cased | two otherwise equal rows with FuelCode "u91" and "U91" | one row per station, fuel and location after standardisation | low: the upstream codes are normally upper case; not executed | DataStream.CleanKeepsCaseVariants | DataStream.CleanCorrectedMergesCaseVariants |
