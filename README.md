# Expiry tracker: a verified model of the date engine and the record stores

This project models the core of the expiry-tracker app in Dafny and proves properties of it. The app scans a product's barcode, reads the production date or the shelf life off the packaging by OCR, and keeps the scanned items in a store. The model covers:

- **The date engine** (`date_recognizer.py`, `ocr_processor.py`; both copies of each file are identical):
  - reading dates and shelf lives out of recognised text fragments;
  - picking the most confident one;
  - the expiry arithmetic;
  - `_extract_date`, which picks a date text out of OCR text;
  - `parse_date`, which turns a typed date text into a date.
- **The mobile store** (`android_package/database.py`): a class over the three SQLite tables `products`, `product_records` and `settings`.
- **The product manager** (`product_manager.py`), over the mobile store.
- **The desktop store** (`server.py`, `DesktopDataManager`): the class behind the sync endpoint and the CSV export.

Modules, one per file:

- `Text`: the digit strings, `str()`/`int()`, join and split.
- `Calendar`: Python's proleptic Gregorian `date`, with ordinals, `timedelta` and `strftime('%Y-%m-%d')`.
- `Regex`: the fragment of `re` the patterns use. Patterns are data run by a backtracking matcher that tries alternatives in Python's order.
- `Strptime`: `datetime.strptime` for the ten date formats.
- `DateRecognizer` and `OcrProcessor`: the date engine.
- `Records`: the status bands, search, orderings and counts that both stores share.
- `Database`, `ProductManagement` and `Server`: the stores.

The stores are classes whose fields are the tables. Every method states the new tables in terms of the old ones, and keeps an invariant:

- product rows are keyed by their barcode;
- record ids are distinct and below the AUTOINCREMENT counter;
- setting keys are unique.

The current date, the time of day and the CURRENT_TIMESTAMP text are parameters.

How the engine's code behaves, as the model states it:

- Confidences are constants per match shape: 0.8 for a full date, 0.6 for a year and month, 0.7 for a shelf life.
- `recognize_date` takes one `max` over all candidates by confidence, so the earliest of the most confident candidates wins.
- `calculate_expiry_date` takes a month count before a day count, and 180 days when neither is given.
- The loop of `parse_date_patterns` dispatches on `len(match)`. A one-group pattern makes `findall` yield a bare string, so a two-digit shelf life such as `12` is read as a date (year 1, month 2). `ParseDatePatterns`, `ScanFragment`, `ScanMatches` and `RecognizeDate` model this loop as written (the `AsWritten` reading). The group-count reading the code evidently intends is kept beside it as the `ByGroups` reading of the same functions (see Findings).

SQLite and Python behaviour the model spells out:

- `INSERT OR REPLACE` with a NOT NULL column that has a DEFAULT stores the default for NULL.
- A NOT NULL failure aborts the statement.
- In an UPDATE that assigns a column twice, the rightmost assignment wins.
- `sqlite3` binds a Python int as a 64-bit integer; one outside that range raises OverflowError, which the store methods catch and answer with False.
- In the mobile store's TEXT columns, TEXT affinity stores numbers as their text.
- `timedelta.days` floors.
- `Logger` is never imported in `database.py`. So `save_setting` and `clear_all_data` commit, then raise NameError from inside their handler.

## Model

| member | source | states |
|---|---|---|
| Text.NatToString | github_upload/server.py:214 | `str(n)` of a natural number is a non-empty run of ASCII digits |
| Text.NatToStringRoundTrip | github_upload/android_package/database.py:413-415 | `int()` of `str(n)` is n again, which makes a saved count read back as the same int |
| Text.IntToString | github_upload/server.py:214 | `str(i)`: digits for i ≥ 0, a leading '-' below 0 |
| Text.PaddedRoundTrip | github_upload/android_package/database.py:134 | a zero-padded field reads back as its value |
| Text.Join | github_upload/server.py:206 | `sep.join(parts)`: the empty list gives "" and one part gives itself |
| Text.Split | github_upload/server.py:220 | splitting on a character always gives at least one piece |
| Text.SplitJoin | github_upload/server.py:206 | splitting a join on a separator character no part contains gives the parts back |
| Text.LexLeTotal | github_upload/android_package/database.py:230-231 | text comparison by code point is total |
| Text.LexLeTransitive | github_upload/android_package/database.py:230-231 | text comparison by code point is transitive |
| Calendar.DaysInMonth | github_upload/date_recognizer.py:137 | month lengths are 28 to 31 days; February has 29 exactly in leap years |
| Calendar.FromOrdinal | github_upload/date_recognizer.py:222 | `date.fromordinal(n)` is a valid date whose ordinal is n |
| Calendar.OrdinalInjective | github_upload/date_recognizer.py:243 | two valid dates with the same ordinal are the same date |
| Calendar.FromToOrdinal | github_upload/date_recognizer.py:222 | a valid date's ordinal lies in range and maps back to the date |
| Calendar.AddDays | github_upload/date_recognizer.py:222-228 | `d + timedelta(days=n)` succeeds exactly when the ordinal stays within 1..date.max; the result lies n days on |
| Calendar.AddDaysThenBetween | github_upload/date_recognizer.py:243 | adding n days and measuring back gives n |
| Calendar.BetweenZeroIffSame | github_upload/date_recognizer.py:243 | two dates are 0 days apart exactly when they are equal |
| Calendar.AddBetween | github_upload/date_recognizer.py:243 | adding the distance between two dates to the second gives the first |
| Calendar.FormatIso | github_upload/android_package/database.py:134 | `strftime('%Y-%m-%d')` is ten characters: four digits, '-', two digits, '-', two digits |
| Calendar.FormatIsoFields | github_upload/android_package/database.py:134 | the three fields of the formatted text read back as year, month and day |
| Regex.MatchAt | github_upload/date_recognizer.py:132 | a match at a position ends within the text, and every captured group fits its alternatives |
| Regex.SearchFrom | github_upload/ocr_processor.py:253 | `re.search` finds the leftmost position where the pattern matches; no earlier position matches |
| Regex.FindAll | github_upload/date_recognizer.py:132 | every `re.findall` result has one capture per group of the pattern, each fitting that group |
| Regex.FindAllHead | github_upload/ocr_processor.py:253-256 | `findall` is empty exactly when `search` fails; otherwise its first element is the groups of the leftmost match |
| Strptime.Parse | github_upload/ocr_processor.py:314 | strptime succeeds exactly when the format's expression matches the whole text with groups forming a valid date; the result is that date |
| Strptime.IsoDashParse | github_upload/ocr_processor.py:314 | `YYYY-M-D` with one- or two-digit fields parses with `%Y-%m-%d` exactly when the fields form a real date |
| Strptime.IsoRoundTrip | github_upload/android_package/database.py:134-147 | a date written by `strftime('%Y-%m-%d')` parses back by `strptime('%Y-%m-%d')` to the same date |
| DateRecognizer.PatternShape | github_upload/date_recognizer.py:114-128 | each of the nine patterns consumes at least one character, and its groups are the digit groups written in it |
| DateRecognizer.MatchCandidate | github_upload/date_recognizer.py:135-160 | three items give the date (y, m, d) they spell at 0.8 exactly when it is real; two give (y, m, 1) at 0.6 exactly when it is real; one gives a shelf life of that many months at 0.7; any other count gives nothing |
| DateRecognizer.MatchGroupsFit | github_upload/date_recognizer.py:132-136 | every match of pattern k has the group count and digit shapes of that pattern |
| DateRecognizer.ParseDatePatterns | github_upload/date_recognizer.py:109-165 | the outer loop over the fragments returns exactly the as-written candidates of every fragment, in order (each match read by `len(match)`) |
| DateRecognizer.ScanFragment | github_upload/date_recognizer.py:131-163 | the loop over the patterns returns exactly the fragment's as-written candidates, pattern by pattern |
| DateRecognizer.ScanMatches | github_upload/date_recognizer.py:133-163 | the loop over one pattern's matches reads each by `len(match)` and keeps exactly those that yield a candidate, in match order |
| DateRecognizer.CandidatesAppend | github_upload/date_recognizer.py:130 | the candidates of two fragment lists concatenated are the two candidate lists concatenated |
| DateRecognizer.CandidatesWellFormed | github_upload/date_recognizer.py:135-160 | under either reading, every candidate is a valid date or a shelf life of at most 99 months, from one of the fragments, with the confidence of its shape |
| DateRecognizer.Best | github_upload/date_recognizer.py:208 | `max(dates, key=confidence)` returns an index no other candidate beats, and every candidate before it scores strictly less |
| DateRecognizer.RecognizeDate | github_upload/date_recognizer.py:196-211 | no text or no as-written candidate gives None; otherwise the result is the earliest of the candidates with the highest confidence |
| DateRecognizer.CalculateExpiryDate | github_upload/date_recognizer.py:217-234 | the expiry lies 30 days per month, or the given days, or 180 days after production; it is None for a missing production date and exactly when the result is outside the calendar |
| DateRecognizer.GetDaysRemaining | github_upload/date_recognizer.py:236-248 | days remaining is the ordinal difference from today; a missing date gives 0 |
| DateRecognizer.RemainingOnProductionDay | github_upload/date_recognizer.py:217-244 | on the production day, the days remaining equal the shelf life in days |
| DateRecognizer.RemainingCountsDown | github_upload/date_recognizer.py:236-244 | each day that passes takes one day off the days remaining |
| DateRecognizer.ShelfLifeRules | github_upload/date_recognizer.py:220-228 | 180 is the default, a month is 30 days, months beat days, and 0 counts as absent |
| DateRecognizer.AsWrittenCandidate | github_upload/date_recognizer.py:135-160 | the loop as written, which dispatches on `len(match)`, reads a two-digit shelf life as a date or as nothing |
| DateRecognizer.AsWrittenDiffers | github_upload/date_recognizer.py:126-160 | the loop as written and the group-count reading differ exactly on two-digit shelf lives |
| DateRecognizer.TwelveMonthsMisread | github_upload/date_recognizer.py:126-160 | `保质期：12个月` is matched with capture "12", read as date 0001-02-01 at 0.6, where a 12-month shelf life at 0.7 is intended |
| DateRecognizer.TwelveMonthsParsed | github_upload/date_recognizer.py:109-165 | `parse_date_patterns(['保质期：12个月'])` as written gives the single candidate 0001-02-01 at 0.6; read by groups, a 12-month shelf life at 0.7 |
| OcrProcessor.PatternFacts | github_upload/ocr_processor.py:235-250 | each of the seven patterns consumes at least one character and has the year, month and day groups its field order expects |
| OcrProcessor.ExtractFrom | github_upload/ocr_processor.py:252-284 | the first pattern from k on that matches anywhere decides: the fields are the groups of its leftmost match, rearranged into year, month and day by its field order; they are a 20xx year, a month and a day text; None exactly when every remaining pattern matches nowhere |
| OcrProcessor.HeadDecides | github_upload/ocr_processor.py:252-264 | when pattern k's `findall` is non-empty, its first element is the leftmost match's three groups, and their rearrangement is a well-shaped date text that pattern k decides |
| OcrProcessor.NothingHere | github_upload/ocr_processor.py:252-256 | an empty `findall` means the pattern matches nowhere, so a later pattern's decision stands from this one on |
| OcrProcessor.ExtractDate | github_upload/ocr_processor.py:225-284 | the result is `year-month-day` of the deciding pattern's rearranged captures, as written; None exactly when no pattern matches anywhere |
| OcrProcessor.DayFirstExtracted | github_upload/ocr_processor.py:237-264 | `_extract_date('05/06/2024')` is `2024-06-05`: the year-first pattern finds nothing, and the day-first pattern's captures are reordered |
| OcrProcessor.ImpossibleDayExtracted | github_upload/ocr_processor.py:237-331 | `_extract_date('2024-02-30')` is `2024-02-30`, which `parse_date` then rejects with the ValueError naming the text |
| OcrProcessor.TryFormats | github_upload/ocr_processor.py:299-317 | the first format from k on that parses gives the date, every earlier one failing; None exactly when all of them fail; a result is a valid date |
| OcrProcessor.LaterFormat | github_upload/ocr_processor.py:312-317 | after a failing format, the first later format that parses is the first one overall |
| OcrProcessor.SlashedDayFirst | github_upload/ocr_processor.py:299-317 | `parse_date('05/06/2024')` is 5 June 2024 because `%d/%m/%Y` is tried before `%m/%d/%Y`, which alone would give 6 May |
| OcrProcessor.NoSeparatorNoFormat | github_upload/ocr_processor.py:299-317 | a text with none of `-`, `/`, `.`, `年` among its second to fifth characters fails all ten formats |
| OcrProcessor.LeadingGroupBlocked | github_upload/ocr_processor.py:299-317 | a format opening with a one-to-four-digit field and a separator fails when that separator is not among the text's second to fifth characters |
| OcrProcessor.DigitRunsFrom | github_upload/ocr_processor.py:320 | `re.findall(r'\d+')` yields non-empty runs of digits |
| OcrProcessor.FromDigitRuns | github_upload/ocr_processor.py:320-331 | fewer than three digit runs is the ValueError naming the text; otherwise a four-digit first run gives (run 0, run 1, run 2) as year, month, day, and any other gives (run 2, run 1, run 0); a value above the C int limit is the OverflowError; an invalid date is the ValueError; later runs are ignored |
| OcrProcessor.ParseDate | github_upload/ocr_processor.py:286-331 | the first strict format that parses gives the date; when all ten fail, the outcome is the digit-run fallback's |
| OcrProcessor.SpacedDayFirst | github_upload/ocr_processor.py:320-331 | `parse_date('15 1 2024')` fails every format and reads its digit runs day first: 15 January 2024 |
| OcrProcessor.ParseIsoRoundTrip | github_upload/ocr_processor.py:299-315 | every real date in `YYYY-MM-DD` form parses back to itself |
| OcrProcessor.DigitRunsOfDashed | github_upload/ocr_processor.py:320 | the digit runs of `Y-M-D` are the three fields |
| OcrProcessor.OtherFormatsFail | github_upload/ocr_processor.py:299-317 | a text starting with a 20xx year and '-' fails every format but the first |
| OcrProcessor.ExtractThenParse | github_upload/ocr_processor.py:261-331 | parsing what `_extract_date` returns gives the captured date when it is real, and otherwise the ValueError naming the text (a February 30 is extracted but not parsed) |
| OcrProcessor.ParseDashed | github_upload/ocr_processor.py:286-331 | `parse_date` of a `YYYY-M-D` text with a 20xx year is that date, or the ValueError when it is not real |
| Records.BandsPartition | github_upload/android_package/database.py:301-306 | every day count falls in exactly one of 正常 (> 7), 即将过期 (1..7) and 已过期 (≤ 0) |
| Records.Keep | github_upload/android_package/database.py:308-317 | a WHERE clause keeps exactly the rows meeting it, each as often as stored, in table order |
| Records.KeepDistinct | github_upload/android_package/database.py:330 | deleting rows keeps ids distinct |
| Records.BeforeTotal | github_upload/android_package/database.py:228-233 | each of the four orderings relates any two rows one way or the other |
| Records.BeforeTransitive | github_upload/android_package/database.py:228-233 | each of the four orderings is transitive |
| Records.OrderOf | github_upload/android_package/database.py:228-233 | `dict.get` on a table of distinct keys: a key the table holds picks its ordering; any other key orders by days remaining |
| Records.MobileKeysOrder | github_upload/android_package/database.py:228-233 | the mobile keys name, expiry_date and scan_date pick name, expiry and newest-scan-first; any other key orders by days remaining |
| Records.DesktopLabelsOrder | github_upload/server.py:114-121 | the desktop labels 产品名称, 过期日期 and 添加时间 pick name, expiry and newest-scan-first; any other label orders by days remaining |
| Records.Sort | github_upload/android_package/database.py:235 | `ORDER BY` returns the same rows, each as often, in the chosen order |
| Records.KeepSorted | github_upload/product_manager.py:73 | filtering a sorted list keeps it sorted |
| Records.QueryExact | github_upload/android_package/database.py:279-317 | a query returns exactly the rows meeting the search and the band, each as often as stored, sorted |
| Records.QueryAll | github_upload/server.py:198 | with no search text and the 全部 filter, a query returns the whole table in order |
| Records.StatisticsPartition | github_upload/android_package/database.py:251-277 | the counts satisfy total = normal + soon + expired, so the two counted bands never exceed the total |
| Database.DateColumn | github_upload/android_package/database.py:133-141 | a date object is written `%Y-%m-%d`; a non-empty blank string becomes NULL; None stays NULL; other text is kept |
| Database.DaysColumn | github_upload/android_package/database.py:143-154 | a given count is kept; with none, a non-empty expiry text gives (expiry parsed as `%Y-%m-%d` − today).days, or 0 when it does not parse, and an empty one gives NULL |
| Database.DaysColumnCounts | github_upload/android_package/database.py:143-154 | with no count given, the count of a parsing expiry text is the number of days that takes today to the expiry; a text that does not parse counts 0 |
| Database.DateObjectStored | github_upload/android_package/database.py:138-152 | a date object's stored text parses back to the date, and its computed count is the days from today |
| Database.Recorded | github_upload/android_package/database.py:156-175 | an add updates the rows of the same barcode and name when there are any, and otherwise appends one row |
| Database.RecordedFacts | github_upload/android_package/database.py:156-175 | after an add, the item's rows hold the new values, every other row is untouched, and the item is present |
| Database.RecordedIds | github_upload/android_package/database.py:156-175 | an add keeps ids distinct and below the AUTOINCREMENT counter, which moves on exactly when a row is appended |
| Database.Editable | github_upload/android_package/database.py:354-357 | the collected keyword arguments are exactly those naming an editable column, each as often as given, in order (a subsequence) |
| Database.CollectEditable | github_upload/android_package/database.py:354-357 | the loop over the keyword arguments collects exactly Editable of them |
| Database.Assigned | github_upload/android_package/database.py:361-362 | a column has an assignment exactly when some collected argument names it |
| Database.ApplyAllColumns | github_upload/android_package/database.py:359-362 | each editable column takes its rightmost assignment, and id, barcode, scan date and synced flag stay |
| Database.UpdateWhere | github_upload/android_package/database.py:361-362 | `UPDATE ... WHERE id = ?` changes the row with the id and no other |
| Database.ReadSetting | github_upload/android_package/database.py:413-419 | a non-empty all-digit value reads as an int, anything else as its text |
| Database.SettingRoundTrip | github_upload/android_package/database.py:397-484 | saving then reading: a non-negative int comes back as the int, a negative int or a bool as text, and non-digit text as itself |
| Database.Lookup | github_upload/android_package/database.py:435-438 | a key reads back as some value exactly when it is stored |
| Database.RemoveKeyKeys | github_upload/android_package/database.py:449 | removing a key's row removes exactly that key |
| Database.RemoveKeyUnique | github_upload/android_package/database.py:449 | removing a key's row keeps the primary key unique |
| Database.RemoveKeyLookup | github_upload/android_package/database.py:449 | removing a key's row leaves every other key's value |
| Database.ReplaceFacts | github_upload/android_package/database.py:448-451 | `INSERT OR REPLACE` keeps keys unique; the key reads back as the new value; other keys are unchanged; the key set gains the key |
| Database.LastValue | github_upload/android_package/database.py:471-478 | a key of the saved dict has a last value exactly when the dict holds it |
| Database.SaveAllFacts | github_upload/android_package/database.py:471-478 | after saving a dict, each of its keys reads back as `str` of its value, and every other key as before; keys stay unique |
| Database.DatabaseManager.constructor | github_upload/android_package/database.py:11-70 | opening a database keeps the stored tables and adds `default_return_days` = '7' only when absent |
| Database.DatabaseManager.AddProduct | github_upload/android_package/database.py:72-94 | succeeds exactly when a shelf life is given and the given ints bind as 64-bit integers, and stores the product under its barcode; a missing return period becomes 7; on failure nothing changes |
| Database.DatabaseManager.GetProduct | github_upload/android_package/database.py:96-111 | returns the product exactly when its barcode is stored |
| Database.DatabaseManager.AddProductRecord | github_upload/android_package/database.py:113-211 | a NULL production date, expiry or days value, or a days value outside 64 bits, returns False with the records unchanged; otherwise the item is recorded (its rows updated, or one row appended) and it returns True exactly when no shelf life and no return period are given; products and settings never change |
| Database.DatabaseManager.GetAllProducts | github_upload/android_package/database.py:213-238 | all records, each as often as stored, in the ordering the key names |
| Database.DatabaseManager.FilterProducts | github_upload/android_package/database.py:279-317 | exactly the records meeting the search and band, by days remaining |
| Database.DatabaseManager.GetStatistics | github_upload/android_package/database.py:251-277 | the total and the 即将过期 and 已过期 counts, which never exceed the total |
| Database.DatabaseManager.DeleteRecord | github_upload/android_package/database.py:319-335 | an id outside 64 bits returns False and changes nothing; otherwise it removes exactly the rows with the id, keeps the rest in order, and returns True |
| Database.DatabaseManager.UpdateRecord | github_upload/android_package/database.py:337-368 | nothing editable changes nothing and returns True; an id or assigned int outside 64 bits, or a NULL into a NOT NULL column of the row, returns False and changes nothing; otherwise the row with the id takes the rightmost assignments |
| Database.DatabaseManager.ClearAllData | github_upload/android_package/database.py:533-549 | both product tables are emptied, settings stay, and the call ends in NameError |
| Database.DatabaseManager.GetSettings | github_upload/android_package/database.py:397-421 | the dict has exactly the stored keys, with all-digit values as ints |
| Database.DatabaseManager.GetSetting | github_upload/android_package/database.py:423-442 | the stored text of the key, or the default when it is absent |
| Database.DatabaseManager.SaveSetting | github_upload/android_package/database.py:444-457 | stores `str(value)` under the key and leaves other keys; the call ends in NameError |
| Database.DatabaseManager.SaveSettings | github_upload/android_package/database.py:459-484 | every key of the dict reads back as its last value's text, every other key as before |
| ProductManagement.Merge | github_upload/product_manager.py:55-57 | an update keeps the barcode, replaces each given field and keeps the others |
| ProductManagement.MergeFacts | github_upload/product_manager.py:49-61 | an update that gives nothing changes nothing; repeating an update changes nothing more |
| ProductManagement.ReturnableSorted | github_upload/product_manager.py:75-96 | the returnable list holds exactly the records within their product's return period, by days remaining |
| ProductManagement.DueWithinSorted | github_upload/product_manager.py:63-73 | the due list holds exactly the records with at most the threshold days left, by days remaining |
| ProductManagement.DefaultThresholdBands | github_upload/product_manager.py:63 | the default threshold of 7 selects exactly the 即将过期 and 已过期 bands |
| ProductManagement.ProductManager.AddProduct | github_upload/product_manager.py:12-24 | succeeds exactly when a shelf life is given and the given ints bind as 64-bit integers, and stores the product under its barcode, with 7 for a missing return period |
| ProductManagement.ProductManager.GetProductInfo | github_upload/product_manager.py:26-35 | the stored product of the barcode, or None |
| ProductManagement.ProductManager.UpdateProduct | github_upload/product_manager.py:37-61 | fails with nothing changed when the barcode is unknown or a merged value is outside 64 bits; otherwise the stored product becomes its merge with the given fields |
| ProductManagement.ProductManager.GetProductsByExpiry | github_upload/product_manager.py:63-73 | exactly the records with at most the threshold days left, sorted by days remaining |
| ProductManagement.ProductManager.GetProductsByReturnDays | github_upload/product_manager.py:75-96 | exactly the records of known products within the return period, sorted by days remaining |
| Server.DaysUntilIsFloor | github_upload/server.py:59-60 | `(expiry - now).days` is the floor of the exact distance, in days, from now to the expiry's midnight |
| Server.ExpiryOf | github_upload/server.py:59 | a parsed expiry is a valid date |
| Server.DaysLeft | github_upload/server.py:59-60 | a record has a days count exactly when its expiry key is present and parses |
| Server.DaysLeftAll | github_upload/server.py:57-60 | the batch's days counts, one per record |
| Server.Convert | github_upload/server.py:62-73 | a record becomes a row exactly when it has the five keys and a parsed expiry; the row holds those fields, the computed days, the sync time and device 'mobile' |
| Server.ConvertAllSome | github_upload/server.py:56-79 | a batch converts exactly when every record has the five keys and a day count |
| Server.ConvertAllEach | github_upload/server.py:56-79 | in a batch that converts, row i is record i's row with id firstId + i |
| Server.BatchAccepted | github_upload/server.py:51-81 | a sync is accepted exactly when every record has the five keys and an expiry that parses as `%Y-%m-%d`; each row's days are the days from now to that expiry |
| Server.CsvLines | github_upload/server.py:208-218 | one line per row, each line the quoted fields joined by commas |
| Server.CsvReadsBack | github_upload/server.py:196-223 | when no field holds a newline or a comma, the export after the BOM splits on newlines into the header and one line per row |
| Server.CsvLineReadsBack | github_upload/server.py:209-218 | such a row's line splits on commas into its seven quoted fields |
| Server.FieldsHaveNoComma | github_upload/server.py:209-218 | the quoted fields of such a row, including `str(days_remaining)`, contain no comma and no newline |
| Server.JoinAvoids | github_upload/server.py:218 | joining parts and a separator that avoid a character gives text that avoids it |
| Server.LineHasNoNewline | github_upload/server.py:218 | such a row's line holds no newline |
| Server.ConvertBatch | github_upload/server.py:57-73 | the insert loop builds exactly the batch's rows, or stops at the first record that raises |
| Server.ExpiryDays | github_upload/server.py:59-60 | parses the expiry and counts the days from now |
| Server.CsvContent | github_upload/server.py:205-218 | the header, then each row's line in order |
| Server.ExportOrder | github_upload/server.py:83-121 | the export calls `get_all_records()` with its default `days_remaining`, which is no desktop label, so the rows come by days remaining |
| Server.ConvertNext | github_upload/server.py:57-73 | one more record either fails the batch or adds its row |
| Server.PrefixFails | github_upload/server.py:56-79 | a failing record fails the whole batch |
| Server.FreshIds | github_upload/server.py:62-75 | the appended rows take ids from the counter on, so ids stay distinct and below the moved counter |
| Server.DesktopDataManager.constructor | github_upload/server.py:24-49 | opening the database keeps the stored records and counter |
| Server.DesktopDataManager.AddRecords | github_upload/server.py:51-81 | all-or-nothing: on success the batch's rows are appended with consecutive ids; on the first failure nothing changes and it returns False |
| Server.DesktopDataManager.GetAllRecords | github_upload/server.py:83-146 | exactly the rows meeting the search and band, in the ordering the label names |
| Server.DesktopDataManager.GetStatistics | github_upload/server.py:148-179 | the total and the 即将过期 and 已过期 counts, which never exceed the total |
| Server.DesktopDataManager.DeleteRecord | github_upload/server.py:181-194 | an id outside 64 bits returns False and changes nothing; otherwise it removes exactly the rows with the id and returns True |
| Server.DesktopDataManager.ExportToCsv | github_upload/server.py:196-223 | a BOM, then the header and one line per row, for all rows by days remaining |

## Left out

- Images, the camera, the OCR engines (EasyOCR, Tesseract), preprocessing and the UI callbacks. The engine starts from the recognised text fragments.
- `\d` covers ASCII digits only. `\w` (for `\b`) covers ASCII letters, digits and `_`, the CJK unified ideographs with extension A, and the full-width digits and letters. Python's Unicode classes are wider.
- Python's `int()` limit on digit-string length, and `int()` of non-ASCII digits.
- `_update_days_remaining`, the `julianday('now')` refresh that runs before every read. Reads use the stored counts.
- `LIKE` case folding for ASCII letters and `%`/`_` wildcards inside the search text. The search is plain containment.
- `strftime('%Y')` for years below 1000: the model pads to four digits, as glibc does not.
- JSON values that are not strings (numbers, null) in the sync payload. Every field is modelled as text.
- Database.DatabaseManager.UpdateRecord: requires that `days_remaining` is not given a text value. SQLite would store that text in an INTEGER column.
- Uncommitted writes (add_product_record when it fails) are modelled as applied. This is the view of later reads on the same connection; a crash before the next commit would lose them.
- CURRENT_TIMESTAMP is one parameter per call, not one per statement.
- `sync_data` (an HTTP POST), `export_to_json` (a file write), `get_database_stats` and `close` are not part of this model.
- The CSV text is modelled as characters, not as its UTF-8 bytes.
- Server.Convert: the desktop table declares `production_date` DATE and `scan_date` TIMESTAMP, which SQLite gives NUMERIC affinity, so numeric-looking text such as "007" or "2024.10" would be stored as the number 7 or 2024.1. The model stores and exports the text unchanged, and its orderings compare these fields as text; SQLite would sort such numbers before all text. (`expiry_date` is also DATE, but it must parse as `%Y-%m-%d`, which is never numeric-looking.)
- `str.isdigit` in `get_settings` is modelled on ASCII digits; Python also accepts other Unicode digits.
- Sort ties: SQL leaves the order of equal keys unspecified. The model uses a stable insertion sort, and its contracts fix only sortedness and the multiset.

## Findings

| source | as written | input that shows it | evidently intended | confidence | as-written member | corrected member |
|---|---|---|---|---|---|---|
| github_upload/date_recognizer.py:126,144-160 | the loop dispatches on `len(match)`. A pattern with a single group makes `findall` yield the bare string, so `len` counts its characters | `保质期：12个月`: the capture "12" has length 2 and is read as year 1, month 2 (0001-02-01) at confidence 0.6 | a shelf life of 12 months at 0.7 | not executed | DateRecognizer.AsWrittenCandidate, used by DateRecognizer.ParseDatePatterns and DateRecognizer.RecognizeDate (shown by DateRecognizer.TwelveMonthsMisread and DateRecognizer.TwelveMonthsParsed) | DateRecognizer.MatchCandidate, the `ByGroups` reading of `Candidates` (12 months at 0.7 in DateRecognizer.TwelveMonthsParsed; well-formed by DateRecognizer.CandidatesWellFormed) |
