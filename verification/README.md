# Email-Blast outreach core in Dafny

This project models the core of `outreach.py`, a script that sends a personalised e-mail to every hospital listed in a spreadsheet. The model covers four parts:

- **Reading the workbook.** Column labels (`AA`) become zero-based indices. Cells resolve to text through the shared-string table and the cell types `s`, `inlineStr`, `b` and "other". Each `<row>` becomes a sparse map from column to stripped text. The first row with any matched cell fixes the header map. Every later row is projected onto the non-empty header names, as an insertion-ordered dict.
- **Building recipients.** `build_context` produces the eight fixed keys with their fallback chains. It then adds the slug of every header, never overwriting an existing key. `load_recipients` keeps rows whose stripped company address is non-empty and contains `@`, taking the first row per lower-cased address.
- **Sending.** `format_sender_address` builds the sender header. `send_one` builds the message and then runs its retry loop over an abstract outcome per attempt. The loop of `send_messages` counts successes, records failures and pauses between messages.
- **Selection.** `--skip` and `--limit` select recipients with Python's slice rules.

Modules:

- `Wrappers` — `Option` and `Result`.
- `Text` — ASCII `strip` and `lower`.
- `Numerals` — Python's `int()` on text.
- `Columns` — column labels and cell references.
- `Slugs` — `slugify`.
- `Cells` — `read_cell_value`.
- `Dicts` — insertion-ordered dicts as association lists.
- `Sheet` — row assembly in `iter_sheet_rows`.
- `Dedup` — the generic "first per key" filter behind the `seen` set.
- `Recipients` — `build_context` and `load_recipients`.
- `Address` — `format_sender_address`.
- `Sender` — `send_one` and `send_messages`.
- `Selection` — skip and limit.

Four loops of the script are each modelled twice: the row scan of `iter_sheet_rows`, the `seen`-set filter of `load_recipients`, the retry loop of `send_one` and the loop over recipients in `send_messages`. One version is a pure reference definition. The other is written as the code walks it: a recursive scan, or a `method` with a loop. Lemmas prove the two agree and state the properties the code promises. The other loops (the column-letter loop, the cell loop of a row, the dict comprehension and the slug loop of `build_context`) are modelled once, as recursive functions, with lemmas stating what they compute.

Some behaviours of the code that are easy to misread, all of which the model follows:

- **Which row is the header.** The header is the first row with any cell whose reference matches, even if every text in it is empty (lines 113-117).
- **How many rows are yielded.** When the header has no non-empty name, the reader yields no rows at all (lines 118-124). Otherwise each projected row keeps every named column, with a default of `""`, so the count is one fewer than the rows with a matched cell (`Sheet.SheetRowsCount`).
- **Slugs of fixed-key headers.** `build_context` adds the slug of every header, including the headers already read into a fixed key, so `Rumah Sakit` also appears as `rumah_sakit` (lines 150-153).
- **Reading a shared-string index.** Among ASCII characters, `int()` skips only space, tab, line feed, vertical tab, form feed and carriage return around the digits. The separators 0x1C to 0x1F, which `str.strip()` removes, make it fail. It also refuses more than 4300 digits, leading zeros included: this is the default of `sys.set_int_max_str_digits` in CPython 3.11 and later and in the 2022 security releases of earlier versions (line 71).
- **Building the message.** The message is built before the retry loop starts. An error raised while building it fails the recipient after no attempt at all (lines 233-241).
- **Counting a recipient twice.** `successes += 1` and the `Sent` line are inside the `try`. If that print raises, the recipient is counted as a success and is also recorded as a failure (lines 265-272, `Sender.NoticeFailureCountsTwice`).

## Model

| member | source | states |
|---|---|---|
| Text.Strip | outreach.py:112 | the stripped text neither starts nor ends with whitespace |
| Text.Lower | outreach.py:52 | `str.lower` on ASCII: same length, each character lowered on its own, no capital letter left, and only capital letters change; `Slugs.SlugifyJoin` relies on it distributing over concatenation |
| Text.TrimTrims | outreach.py:112 | stripping only removes characters of the stripped set, and only from the two ends |
| Text.StripKeepsStripped | outreach.py:119 | stripping text that is already stripped changes nothing, so the second `.strip()` of a stored cell is a no-op |
| Numerals.ParseInt | outreach.py:71 | `int()` succeeds only on text with something left once its own whitespace is trimmed; a negative result comes from a leading minus; every result has at most 4300 digits |
| Numerals.ParseIntRoundTrip | outreach.py:71 | `int()` reads back every integer below `10^4300` in magnitude from its decimal spelling, and refuses the spelling of every larger one |
| Numerals.ParseIntIgnoresPadding | outreach.py:71 | whitespace `int()` skips, around the index text, does not change what it reads |
| Numerals.ParseIntRejectsSeparator | outreach.py:71 | a separator character that `str.strip()` removes makes `int()` fail: `"\x1c5"` strips to `"5"` but is no integer |
| Text.TrimOfTrimmed | outreach.py:112 | any infix that only cuts characters of the set and ends on characters outside it is what stripping gives |
| Text.TrimIgnoresPadding | outreach.py:112 | the same stripped characters added on both sides do not change the stripped text |
| Text.TrimUnique | outreach.py:112 | there is only one way to strip a text: two trimmings that both end on characters outside the set coincide |
| Columns.LabelValue | outreach.py:45-47 | the loop's accumulator is non-negative on upper-case letters and at least 1 on a label |
| Columns.ColumnIndex | outreach.py:43-48 | a column label maps to a non-negative index |
| Columns.ColumnIndexAppend | outreach.py:46-47 | each further letter shifts the index one bijective base-26 place |
| Columns.ColumnIndexExamples | outreach.py:43-48 | `A` is 0, `Z` is 25, `AA` is 26, `AZ` is 51, `BA` is 52 |
| Columns.ColumnLabel | outreach.py:43-48 | every index has a column label (the inverse spelling) |
| Columns.ColumnLabelRoundTrip | outreach.py:43-48 | converting the label of any index gives the index back |
| Columns.ColumnIndexRoundTrip | outreach.py:43-48 | every label is the label of its own index, so the conversion is one-to-one |
| Columns.UpperPrefix | outreach.py:20 | the length of the run of capital letters a reference starts with |
| Columns.RefColumn | outreach.py:105-111 | a cell gets a column exactly when its reference is present and starts with capital letters followed by a digit; the column is the index of those leading letters |
| Columns.RefColumnOfLabel | outreach.py:105-111 | the reference written for column `i`, any row, leads back to column `i` |
| Slugs.CollapseRuns | outreach.py:52 | after the substitution only letters, digits and single underscores remain; a leading underscore appears exactly when the text starts outside `[a-z0-9]` |
| Slugs.DropRunSpec | outreach.py:52 | a run swallowed by the substitution is a prefix of characters outside `[a-z0-9]` and loses no letter or digit |
| Slugs.CollapseKeepsSlugChars | outreach.py:52 | the substitution keeps every lower-case letter and digit, in order |
| Slugs.TrimUnderscores | outreach.py:52 | after `strip("_")` the result neither starts nor ends with an underscore |
| Slugs.TrimKeepsChars | outreach.py:52 | `strip("_")` loses no letter or digit |
| Slugs.CollapseAppend | outreach.py:52 | the substitution works piece by piece: text cut where a letter or digit stands on one side collapses to the two collapsed pieces |
| Slugs.CollapseRunOnly | outreach.py:52 | a non-empty run of characters outside `[a-z0-9]` becomes exactly one underscore |
| Slugs.Slugify | outreach.py:51-53 | a slug is letters, digits and single inner underscores, and keeps exactly the letters and digits of the lower-cased text |
| Slugs.SlugifyFixesSlugs | outreach.py:51-53 | a slug is its own slug |
| Slugs.SlugifyIdempotent | outreach.py:51-53 | slugifying twice is slugifying once |
| Slugs.SlugifyJoin | outreach.py:51-53 | two words joined by a run of other characters slugify to the lower-cased words joined by one underscore in place of the run (`Kab/Kota` gives `kab_kota`) |
| Cells.SharedAt | outreach.py:72 | an index inside the table gives that entry; any other index gives `""` |
| Cells.ReadCellValue | outreach.py:65-84 | only a shared-string cell whose index text is not an integer fails; a shared-string cell reads the table entry at the index `int()` reads, `""` outside the table; the other types read `TRUE`/`FALSE`, the joined inline runs, or the value / plain text / `""` |
| Cells.SharedStringLookup | outreach.py:67-72 | a shared-string cell whose value text `int()` reads as `i` reads entry `i` when in range and `""` otherwise |
| Sheet.AddCell | outreach.py:105-112 | one step of the cell loop: an unmatched cell is skipped, a matched one stores its stripped value; its effect is stated by `Sheet.AddCellSelf`, `Sheet.AddCellOther` and `Sheet.AddCellFailure` |
| Sheet.AddCellSelf | outreach.py:111-112 | a matched, readable cell sets its column to its stripped text |
| Sheet.AddCellOther | outreach.py:105-112 | a cell leaves every column other than its own untouched |
| Sheet.AddCellFailure | outreach.py:111 | a cell step fails exactly when the cell is matched and cannot be read |
| Sheet.RowCells | outreach.py:103-112 | the cell loop of one `<row>`; `Sheet.RowCellsKeys`, `Sheet.RowCellsLastWins` and `Sheet.RowCellsFailure` state what map it builds |
| Sheet.RowCellsKeys | outreach.py:103-112 | a row's map has a column exactly when some cell of the row references it |
| Sheet.RowCellsFailure | outreach.py:104-112 | reading a row fails exactly when one of its matched cells cannot be read |
| Sheet.RowCellsLastWins | outreach.py:111-112 | a column holds the stripped text of the last cell naming it |
| Sheet.RowCellsSkipsUnmatched | outreach.py:105-110 | a cell with a missing or unmatched reference changes nothing |
| Sheet.RowCellsUnmatched | outreach.py:103-113 | a row with no matched cell reads as the empty map and is skipped |
| Sheet.Ascending | outreach.py:116 | `sorted(cells)`: exactly the set's elements, strictly ascending |
| Sheet.NamedColumns | outreach.py:118-122 | exactly the header columns with a non-empty name, left to right |
| Sheet.Project | outreach.py:118-122 | a projected row has distinct keys |
| Sheet.ProjectKeys | outreach.py:118-122 | a row's keys are exactly the non-empty header names |
| Sheet.ProjectValue | outreach.py:118-122 | under a repeated header name sits the text of its rightmost column; a missing cell gives `""` |
| Sheet.ProjectIgnoresOtherColumns | outreach.py:118-122 | cells in columns outside the header map play no part |
| Sheet.ProjectKeyOrder | outreach.py:118-122 | the key order of a row depends on the header alone |
| Sheet.ProjectEmpty | outreach.py:118-123 | a row projects to nothing exactly when the header has no non-empty name |
| Sheet.Scan | outreach.py:102-124 | the row loop as the code walks it, carrying the header once found; `Sheet.ScanWithHeader` and `Sheet.ScanWithoutHeader` relate it to the reference definition |
| Sheet.ScanWithHeader | outreach.py:102-124 | once the header is fixed, the loop yields the projection of every later non-blank row, or nothing when the header names no column |
| Sheet.ScanWithoutHeader | outreach.py:101-124 | the row loop equals the reference definition: decode all rows, drop blank ones, take the first as header, project the rest |
| Sheet.SheetRows | outreach.py:98-124 | `iter_sheet_rows` over the rows of `sheetData`, none when it is missing; its properties are the `Sheet.SheetRows…` lemmas |
| Sheet.SheetRowsReference | outreach.py:98-124 | the rows of a sheet are those of the reference definition |
| Sheet.SheetRowsFailure | outreach.py:102-112 | reading the sheet fails exactly when some matched cell anywhere cannot be read |
| Sheet.SheetRowsShape | outreach.py:115-124 | every yielded row is non-empty, has distinct keys, and has the same keys in the same order as the first |
| Sheet.SheetRowsCount | outreach.py:113-124 | the reader yields one row per non-blank row after the header, or none when the header names no column |
| Sheet.SheetRowsSkipsBlankRow | outreach.py:113-114 | inserting a row with no matched cell anywhere changes nothing |
| Dicts.Get | outreach.py:129 | `get` finds a value exactly when the key is present, and the value is that key's entry |
| Dicts.Put | outreach.py:153 | assigning keeps the key order and appends a new key at the end |
| Dicts.PutSelf | outreach.py:153 | after assigning a key, reading it gives the new value |
| Dicts.PutOthers | outreach.py:153 | assigning one key leaves every other key's value alone |
| Dicts.FromPairs | outreach.py:118-122 | a dict comprehension has distinct keys, in the order each key first appears |
| Dicts.FromPairsLastWins | outreach.py:118-122 | in a dict comprehension the last pair of a key gives its value |
| Dicts.FromPairsKeys | outreach.py:118-122 | a key is present exactly when some pair carries it |
| Recipients.FirstFilled | outreach.py:129-148 | an `or` chain of `row.get` calls: `""` exactly when every header is missing or empty, otherwise the value of the first header with a non-empty value |
| Recipients.FixedFields | outreach.py:128-149 | the dict literal of the eight fixed keys; `Recipients.FixedFieldsShape` states its keys and values |
| Recipients.FixedFieldsShape | outreach.py:128-149 | the context starts with the eight fixed keys, distinct, each holding the stripped first non-empty value of its header chain |
| Recipients.AddNew | outreach.py:150-153 | the slug loop: add each entry whose key is non-empty and not yet present; its properties are the `Recipients.AddNew…` lemmas |
| Recipients.AddNewPrefix | outreach.py:150-153 | the slug loop keeps keys distinct and only appends after the existing entries |
| Recipients.AddNewKeys | outreach.py:150-153 | a key is in the result exactly when it was there or is some entry's non-empty key |
| Recipients.AddNewKeepsOld | outreach.py:150-153 | an existing key is never overwritten |
| Recipients.AddNewFirstWins | outreach.py:150-153 | a new key takes the value of the first entry carrying it |
| Recipients.BuildContext | outreach.py:127-154 | `build_context`: the fixed part followed by the new slug keys; its properties are the `Recipients.BuildContext…` lemmas |
| Recipients.BuildContextFixed | outreach.py:127-154 | a context has distinct keys and starts with the fixed part |
| Recipients.BuildContextKeys | outreach.py:127-154 | a context's keys are exactly the eight fixed keys plus the non-empty slugs of the row's headers |
| Recipients.BuildContextEmail | outreach.py:148-153 | `email` holds the stripped company address, whatever the slugs of other headers |
| Recipients.BuildContextSlugValue | outreach.py:150-153 | a slug that is not a fixed key holds the stripped value of the first header with that slug |
| Dedup.Kept | outreach.py:159-168 | the reference filter: positions of the first passing row per key, each below the number of rows scanned; `Dedup.KeptSpec` states which positions they are |
| Dedup.KeptSpec | outreach.py:159-168 | the kept rows are ascending and are exactly the passing rows whose key no earlier passing row had |
| Dedup.SeenStep | outreach.py:161-167 | the `seen` test recognises exactly the first passing row of each key, and adding the key keeps `seen` equal to the keys passed so far |
| Dedup.KeptDistinct | outreach.py:164-167 | no two kept rows share a key |
| Dedup.KeptCovers | outreach.py:160-168 | every passing row's key is the key of some kept row |
| Dedup.KeepFirst | outreach.py:159-168 | the loop with a `seen` set keeps, in order, the item of each kept row, so it computes the reference filter |
| Recipients.Email | outreach.py:161 | the company address after `strip()`, with no whitespace at either end; `Recipients.RecipientEmail` states it is what each recipient's `email` holds |
| Recipients.HasUsableEmail | outreach.py:162-163 | a row passes the filter exactly when its stripped address contains `@`, so the emptiness test never decides anything on its own; `Recipients.RecipientsUsable` states it of every recipient |
| Recipients.EmailKey | outreach.py:164 | the seen-set key has the address's length and each of its characters is that address character lowered: no upper-case letter is left, and only the address's upper-case letters change; `Recipients.RecipientsDistinct` states no two recipients share it |
| Recipients.Recipients | outreach.py:157-169 | there are never more recipients than rows |
| Recipients.LoadRecipients | outreach.py:157-169 | the loop with the `seen` set returns the reference list: the contexts of the first usable row per lower-cased address, in row order |
| Recipients.LoadFromSheet | outreach.py:157-160 | a sheet without `sheetData` loads as the empty list; otherwise loading fails exactly when some matched cell of the sheet cannot be read; a successful load gives the recipients of the sheet's rows |
| Recipients.RecipientEmail | outreach.py:161-168 | a recipient's `email` is the stripped address of the row it came from |
| Recipients.RecipientsUsable | outreach.py:161-163 | every recipient has a non-empty `email` containing `@` |
| Recipients.RecipientsDistinct | outreach.py:164-167 | no two recipients have the same address ignoring case |
| Recipients.RecipientsCover | outreach.py:160-168 | every usable row is represented by a recipient with the same lower-cased address |
| Address.FormatSenderAddress | outreach.py:192-195 | `format_sender_address`; `Address.ParseFormatRoundTrip` and `Address.FormatSenderShape` state what the header holds |
| Address.ParseFormatRoundTrip | outreach.py:192-195 | reading back the sender header gives the address and the non-empty display name it was built from |
| Address.FormatSenderShape | outreach.py:192-195 | the header is the bare address exactly when there is no non-empty display name; otherwise it is three characters longer than name and address together |
| Sender.MaxAttempts | outreach.py:243-257 | the loop allows at least one attempt and `retries + 1` when `retries` is positive |
| Sender.Attempts | outreach.py:243-262 | the retry loop from a given attempt on, as a recursive function; `Sender.AttemptsShape` states what it does |
| Sender.AttemptsShape | outreach.py:243-262 | from any attempt on: the earlier attempts were refused; success means the last attempt delivered; backoff `j` is `retry_delay * (attempt + j)`; a failure comes only after the last allowed attempt, with its error; a negative delay fails on the first sleep |
| Sender.Deliver | outreach.py:243-262 | the retry loop from the first attempt; `Sender.DeliverFailsOnlyIfAllFail`, `Sender.DeliverBounded`, `Sender.DeliverBackoffs` and `Sender.DeliverNegativeDelay` state what it does |
| Sender.SendRecipient | outreach.py:232-262 | `send_one`: the message is built, then the retry loop runs |
| Sender.SendRecipientFails | outreach.py:232-262 | with a non-negative delay, `send_one` fails exactly when the message cannot be built or every allowed attempt is refused; a message that cannot be built fails after no attempt |
| Sender.DeliverFailsOnlyIfAllFail | outreach.py:243-257 | with a non-negative `retry_delay`, the retry loop fails exactly when all `MaxAttempts(retries)` attempts are refused (`retries + 1`, or one when `retries` is negative), and otherwise stops at the first delivering attempt |
| Sender.DeliverBounded | outreach.py:243-262 | for any `retry_delay`, at least one and at most `MaxAttempts(retries)` attempts, and fewer backoffs than attempts |
| Sender.DeliverBackoffs | outreach.py:257-262 | for any `retry_delay`, the `k`-th backoff is `retry_delay * k`, strictly increasing for a positive delay (a negative delay leaves none) |
| Sender.DeliverNegativeDelay | outreach.py:257-262 | a negative delay makes the sleep raise, so there is one attempt, and a refusal that could be retried fails with the sleep's error |
| Sender.SendOne | outreach.py:232-262 | `send_one` as written, with its `while True` loop, computes the reference function |
| Sender.Tally | outreach.py:265-272 | one recipient's `try`/`except`: no pause and no abort, one success exactly when delivered, no failure exactly when delivered and the `Sent` line printed, at most one failure and it names the recipient; `Sender.NoticeFailureCountsTwice` and `Sender.DeliveredOrFailed` state the counts |
| Sender.NoticeFailureCountsTwice | outreach.py:265-272 | a delivered recipient whose `Sent` line raises counts once as a success and once as a failure with the print's error |
| Sender.DeliveredCount | outreach.py:264-272 | how many recipients in a stretch were delivered; never more than the stretch holds |
| Sender.NoticeFailures | outreach.py:264-272 | how many delivered recipients in a stretch then failed to print their `Sent` line; never more than were delivered |
| Sender.DeliveredOrFailed | outreach.py:264-272 | the successes are the delivered recipients; the failures are the undelivered ones plus the delivered ones whose `Sent` line raised; each failure names its recipient and the error raised for it |
| Sender.CountedOnce | outreach.py:264-272 | when every `Sent` line prints, each recipient is counted exactly once, as a success or as a failure |
| Sender.BatchFrom | outreach.py:264-274 | the loop over recipients from a given position on, as a recursive function; `Sender.BatchFromRuns` and `Sender.BatchFromStops` state what it does |
| Sender.Batch | outreach.py:264-274 | `send_messages` over all recipients; `Sender.BatchCounts` states its tallies |
| Sender.BatchFromRuns | outreach.py:264-274 | with a non-negative pause, the batch from any recipient on tallies every remaining recipient, never aborts, and pauses once between neighbours when the pause is positive |
| Sender.BatchFromStops | outreach.py:264-274 | with a negative pause, the batch tallies one recipient and then aborts exactly when another recipient was waiting |
| Sender.BatchCounts | outreach.py:264-274 | successes and failures are the tallies of the recipients processed; the successes are the delivered ones; the two add up to the number processed plus one per delivered recipient whose `Sent` line raised; the batch aborts exactly when the pause is negative and there are two or more recipients; there are `|recipients| - 1` pauses when the pause is positive |
| Sender.SendMessages | outreach.py:264-274 | the loop with running tallies computes the batch function |
| Selection.SliceBound | outreach.py:362 | a slice bound is clamped to the sequence, and a negative bound counts from the end |
| Selection.Drop | outreach.py:362 | `recipients[skip:]`; `Selection.SelectNonNegative` and `Selection.SelectNegativeSkip` state what it keeps |
| Selection.Take | outreach.py:364 | `recipients[:limit]`; `Selection.SelectNonNegative` and `Selection.SelectNegativeLimit` state what it keeps |
| Selection.Select | outreach.py:361-364 | the skip, then the limit; `Selection.SelectIsSlice` and its companions state the result |
| Selection.SkipZero | outreach.py:361-362 | skipping zero keeps everything, so the `if args.skip` guard changes nothing |
| Selection.SelectIsSlice | outreach.py:361-364 | the selection is always one contiguous run of the recipients |
| Selection.SelectNonNegative | outreach.py:361-364 | a non-negative skip and limit select from recipient `skip` at most `limit` recipients |
| Selection.SelectNegativeSkip | outreach.py:361-362 | a negative skip keeps the last `-skip` recipients |
| Selection.SelectNegativeLimit | outreach.py:363-364 | a negative limit drops the last `-limit` recipients |
| Selection.SelectTiles | outreach.py:361-364 | the first `n` after `k`, followed by everything after `k + n`, is everything after `k` |

## Left out

- Opening the workbook is left out because it is file and library I/O. This covers `zipfile` and XML parsing (`load_shared_strings`, the `sheet1.xml` lookup and `ElementTree`). Cells come in as `Cell` records and the shared strings as a list.
- The `FileNotFoundError` for a missing workbook and the `RuntimeError` for a missing first worksheet are left out because they belong to that I/O.
- SMTP, TLS, login and the inside of `EmailMessage` construction, including the `Reply-To` header and attachments on the message, are left out because they are network I/O or library code. Each attempt is an abstract `Outcome`, with the exception's text as the failure reason. Building the message is reduced to the error it raises, if any, and so is printing the `Sent` line.
- `time.sleep` and float seconds are left out because they are timing. `retry_delay` and `pause` are integers in a fixed unit, and the model records the backoffs instead of sleeping. NaN and fractional durations are not modelled, and neither is the `OverflowError` that `time.sleep` raises for a duration too large for its clock (an absurd `--pause`, or `retry_delay * attempt`); the model treats every non-negative sleep as returning.
- Sender.SendMessages: the abort caused by a negative pause is a flag. The exception that ends the script is not modelled.
- `string.Template.safe_substitute` is left out because its implementation is not part of this model.
- `load_attachments` is left out because it is filesystem access plus `mimetypes`.
- `load_env_file`, `parse_args`, `preview_messages`, the console output and `main`'s exit paths are left out because they are environment, CLI and console glue. This includes the exit on an empty recipient list.
- Unicode is left out: `str.lower`, `str.isspace` and `\d` are modelled on ASCII only. Non-ASCII whitespace, letters and digits are treated as ordinary characters.
- Numerals.ParseInt: accepts ASCII digits only, while Python's `int()` also reads other Unicode decimal digits. The digit limit is fixed at its default of 4300; a script that changes it with `sys.set_int_max_str_digits` is not modelled, and neither are Python releases before the 2022 security fix that introduced it (before 3.11, 3.10.7, 3.9.14, 3.8.14 and 3.7.14), which have no limit. Non-ASCII whitespace, which `int()` also skips (`int("\xa05")` is 5), is treated as an ordinary character and makes the parse fail.
- Address.ParseFormatRoundTrip: holds for addresses without `<`. The formatting function itself makes no such assumption.
- Sender.DeliverFailsOnlyIfAllFail: assumes the `Retrying …` line printed to standard error between attempts does not raise. If it does, its exception escapes `send_one` and the recipient fails early.
- Sender.BatchCounts: assumes the `Failed …` line printed in the `except` branch does not raise. If it does, the exception escapes the loop and ends the script.

