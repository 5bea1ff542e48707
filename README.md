# JournalApp core, modelled in Dafny

JournalApp is a .NET MAUI journal. It keeps its entries in a SQLite table,
one per day by convention: the table does not enforce that, and the model
allows several rows for one date, of which `GetEntryByDate` returns any. It
can lock itself behind a PIN, and exports entries to PDF. This project
models the four pieces of it that hold logic, and proves what each promises.

- **The journal table** (`Database`, in `database_service.dfy`). The class
  `DatabaseService` holds the table's rows in rowid order and the
  AUTOINCREMENT counter. Each SQL statement of the service is a method on that
  state.
  - INSERT appends one row under the id counter + 1.
  - `SELECT ... ORDER BY EntryDate DESC` sorts by the stored text in SQLite's
    BINARY collation. The reader loop then maps every row.
  - The lookups by id and by date, UPDATE, DELETE and DELETE-all work on the
    same rows.
  - `MapToJournalItem` turns a row back into a record. NULL columns read as
    the record's defaults, and a date that does not parse throws.
- **Dates** (`DateTimes`). `EntryDate` is stored as `yyyy-MM-dd` and
  `CreatedAt` as `yyyy-MM-dd HH:mm:ss`. Both are parsed back. The proofs show
  that reading a value back gives the day, or the instant cut to whole
  seconds, and that text order of stored dates is calendar order.
- **The journal item** (`JournalItems`) is the record with its defaults. Its
  `TagList` and `SecondaryMoodList` views read and write JSON array text
  through `JsonList`. That module is an RFC 8259 codec for lists of strings:
  section 5 for arrays, section 7 for string escapes, `\uXXXX` and surrogate
  pairs included. Its round trip is proved for every list.
- **PDF export** (`PdfExport`) covers two things:
  - `StripHtml`: four fixed replacements, then deleting the regex `<.*?>`,
    then HtmlDecode and Trim;
  - the document body: a placeholder when there are no entries, otherwise one
    block per entry in a stable newest-first order, with a tags line only when
    there are tags.
- **The PIN lock** (`Security`). The class `SecurityService` holds the
  secure-storage slot and the authenticated flag. Its methods are proved
  equal to pure step functions, and the lemmas about sequences of calls are
  stated over those functions.
- Shared pieces:
  - `Text`: .NET string operations;
  - `Sorting`: a stable descending sort with its sortedness, permutation and
    stability lemmas;
  - `Wrappers`: Option and Result, the exceptions that escape, and `MapAll`.

Exceptions the code lets escape are `Failure` values that name the .NET
exception. A C# string that may be null is a `NullableString`.

Where the code leaves behaviour to a library, the model makes the library's
documented behaviour explicit:
- Microsoft.Data.Sqlite refuses a null parameter value with
  InvalidOperationException. `Content` is bound without `??`, so saving or
  updating an entry whose Content is null fails and changes nothing.
- SQLite AUTOINCREMENT never reuses an id, not even one freed by DELETE, and
  DELETE without WHERE keeps the counter.

## Model

| member | source | states |
|---|---|---|
| Database.CreateTableIfNotExists | Services/DatabaseService.cs:27-35 | an existing table is kept unchanged; a missing one starts empty with counter 0 |
| Database.CreateTableIdempotent | Services/DatabaseService.cs:27 | running the initialisation twice is running it once |
| Database.DatabaseService.constructor | Services/DatabaseService.cs:11-17 | the service starts on the initialised table, and the table invariant holds |
| Database.ToRow | Services/DatabaseService.cs:48-57 | the inserted row carries the chosen id, a 10-character date and a 19-character timestamp, and no NULL in the three nullable columns |
| Database.SetColumns | Services/DatabaseService.cs:117-128 | UPDATE keeps the row's id, EntryDate and CreatedAt; the four written columns are the ones INSERT would write |
| Database.MapToJournalItem | Services/DatabaseService.cs:160-172 | a mapping failure is always a FormatException |
| Database.MapFailsOnlyOnDates | Services/DatabaseService.cs:165-170 | mapping fails exactly when one of the two date columns does not parse |
| Database.MapReadsDefaults | Services/DatabaseService.cs:164-169 | a mapped row keeps its id and content; a NULL mood reads as ""; a NULL list column reads as the text `[]` and any other list text is kept, so a NULL list's view is empty |
| Database.SavedRowReadsBack | Services/DatabaseService.cs:52-57 | a saved entry reads back with its id, its day at midnight, CreatedAt cut to whole seconds, and its null moods and tags coalesced |
| Database.SavedListsReadBack | Services/DatabaseService.cs:54-56 | after a save and a read, TagList and SecondaryMoodList are unchanged, null lists included |
| Database.AsFound | Services/DatabaseService.cs:93 | a found row becomes Some(record), and a mapping failure passes through |
| Database.RemoveId | Services/DatabaseService.cs:141 | the kept rows are exactly the rows whose id differs |
| Database.RemoveIdWellFormed | Services/DatabaseService.cs:141 | deleting keeps ids strictly increasing and within the counter |
| Database.RemoveAbsentId | Services/DatabaseService.cs:141 | deleting an id that no row has leaves the rows as they were |
| Database.RemoveIdIdempotent | Services/DatabaseService.cs:135-145 | deleting the same id twice equals deleting it once |
| Database.LexLessIsStrictTotalOrder | Services/DatabaseService.cs:71 | BINARY collation on text is a strict total order |
| Database.RowsSorted | Services/DatabaseService.cs:71 | the query returns every row exactly as often as it is stored, in descending EntryDate text order |
| Database.TextOrderIsDateOrder | Services/DatabaseService.cs:71 | when every date is in the stored 10-character form, descending text order is descending calendar order |
| Database.StoredDateIsCalendarDate | Services/DatabaseService.cs:165 | a 10-character EntryDate reads back as a midnight value that formats back to the same text |
| Database.ReadOrderIsDateOrder | Services/DatabaseService.cs:62-79 | the records of the sorted rows are in descending calendar order when all dates are stored in date form |
| Database.ReadRows | Services/DatabaseService.cs:74-77 | the reader loop's result is MapAll of its rows: every record in order, or the first failure |
| Database.DatabaseService.SaveEntry | Services/DatabaseService.cs:41-60 | null Content fails and changes nothing; otherwise exactly one row is appended and every old row is kept; the new row's id is above every id ever issued; the invariant is kept |
| Database.DatabaseService.GetAllEntries | Services/DatabaseService.cs:63-80 | the result order is a permutation of the rows, sorted by EntryDate text descending; the result is MapAll over that order; with stored-form dates it is newest first |
| Database.DatabaseService.GetEntryById | Services/DatabaseService.cs:83-94 | with no row of that id the result is null; otherwise it is the mapped row with that id |
| Database.DatabaseService.GetEntryByDate | Services/DatabaseService.cs:97-108 | null exactly when no row has the formatted date; otherwise the mapping of some row with that date; a found record's EntryDate is that day |
| Database.DatabaseService.UpdateEntry | Services/DatabaseService.cs:111-132 | null Content fails and changes nothing; otherwise only the row with the entry's id is rewritten, by SetColumns; an unknown id leaves the rows unchanged; the counter stays |
| Database.DatabaseService.DeleteEntry | Services/DatabaseService.cs:135-145 | the rows become RemoveId of the old rows; the counter and issued ids stay |
| Database.DatabaseService.DeleteAllEntries | Services/DatabaseService.cs:148-157 | the rows are emptied; the counter and issued ids stay, so later ids are still fresh |
| Wrappers.MapAll | Services/DatabaseService.cs:74-77 | succeeds exactly when every element maps; the values then match element by element; a failure is that of the first element that fails |
| DateTimes.FormatDate | Services/DatabaseService.cs:52 | `yyyy-MM-dd` is always 10 characters |
| DateTimes.FormatTimestamp | Services/DatabaseService.cs:57 | `yyyy-MM-dd HH:mm:ss` is 19 characters and starts with the value's date text |
| DateTimes.ParseDate | Services/DatabaseService.cs:165 | a text in date form parses to a value at midnight |
| DateTimes.ParseTimestamp | Services/DatabaseService.cs:170 | a parsed timestamp has no fraction of a second, and its first 10 characters parse as its day |
| DateTimes.ParseDateTime | Services/DatabaseService.cs:165 | a parsed value formats back to the text: date form with midnight, or timestamp form with no fraction of a second |
| DateTimes.DateRoundTrip | Services/DatabaseService.cs:165 | parsing a formatted date gives the day at midnight |
| DateTimes.TimestampRoundTrip | Services/DatabaseService.cs:170 | parsing a formatted timestamp gives the instant cut to whole seconds |
| DateTimes.StoredDateReadsBack | Services/DatabaseService.cs:165 | DateTime.Parse of a stored EntryDate is the day |
| DateTimes.StoredTimestampReadsBack | Services/DatabaseService.cs:170 | DateTime.Parse of a stored CreatedAt is the instant cut to whole seconds |
| DateTimes.ParsedDateIsFormatted | Services/DatabaseService.cs:165 | any text that parses as a date is exactly that date's formatting |
| DateTimes.ParsedTimestampIsFormatted | Services/DatabaseService.cs:170 | any text that parses as a timestamp is exactly that instant's formatting |
| DateTimes.FormatDateInjective | Services/DatabaseService.cs:103-104 | two values give the same date text exactly when they fall on the same day |
| DateTimes.FormatDateOrder | Services/DatabaseService.cs:52 | text order of two formatted dates is calendar order of their days |
| DateTimes.PadRoundTrip | Services/DatabaseService.cs:52 | a zero-padded field reads back as its number |
| DateTimes.PadOrder | Services/DatabaseService.cs:71 | padded fields of one width compare as text the way their numbers compare |
| DateTimes.BeforeIsStrictTotalOrder | Services/PdfExportService.cs:40 | DateTime comparison is irreflexive, transitive and total |
| JournalItems.NewJournalItem | Models/JournalItem.cs:9-27 | Content and PrimaryMood default to "", both list fields to the serialised empty list, and the dates to DateTime.MinValue |
| JournalItems.TagList | Models/JournalItem.cs:31-35 | null, empty or white-space Tags read as the empty list |
| JournalItems.SecondaryMoodList | Models/JournalItem.cs:42-46 | null, empty or white-space SecondaryMoods read as the empty list |
| JournalItems.WithTagList | Models/JournalItem.cs:37 | reading TagList after the setter gives exactly the list assigned (a null list reads as empty); no other field changes |
| JournalItems.WithSecondaryMoodList | Models/JournalItem.cs:48 | reading SecondaryMoodList after the setter gives exactly the list assigned; no other field changes |
| JournalItems.NewItemListsEmpty | Models/JournalItem.cs:21-24 | both list views of a fresh item are empty |
| JournalItems.NullLiteralIsEmptyList | Models/JournalItem.cs:35 | Tags holding the JSON literal null read as the empty list |
| JournalItems.MalformedTagsFail | Models/JournalItem.cs:33-35 | non-blank Tags that start neither an array nor null make the getter throw, not return an empty list |
| JournalItems.ReassignTagList | Models/JournalItem.cs:31-38 | assigning the list just read keeps the list |
| JsonList.DecodeList | Models/JournalItem.cs:33-35 | blank text gives []; otherwise it fails exactly when deserialising fails; JSON null gives []; a deserialised array is the result, and a non-empty result is always one |
| JsonList.EncodeList | Models/JournalItem.cs:37 | the stored text is never blank, and DecodeList of it gives back the list |
| JsonList.Serialize | Models/JournalItem.cs:37 | the empty list serialises as `[]` |
| JsonList.SerializeRoundTrip | Models/JournalItem.cs:35-37 | Deserialize(Serialize(xs)) == xs for every list, and for the null list |
| JsonList.StringRoundTrip | Models/JournalItem.cs:35-37 | an escaped string followed by its closing quote parses back to the string, for any characters |
| JsonList.EscapeCharRoundTrip | Models/JournalItem.cs:35-37 | each character's escape, including quotes, backslashes and control characters, parses back to that character |
| JsonList.ValueRoundTrip | Models/JournalItem.cs:35-37 | an encoded string or null element parses back, with the rest of the text untouched |
| JsonList.ArrayRoundTrip | Models/JournalItem.cs:35-37 | a joined list of encoded elements parses back to the list |
| JsonList.DecodeRejectsOtherValues | Models/JournalItem.cs:33-35 | text opening neither an array nor null is a decode failure |
| JsonList.DeserializeRejects | Models/JournalItem.cs:35 | such text is a JsonException |
| Text.TrimStart | Services/PdfExportService.cs:94 | the result is never longer than the input and does not start with white space |
| Text.TrimEnd | Services/PdfExportService.cs:94 | the result is never longer than the input and does not end with white space |
| Text.Trim | Services/PdfExportService.cs:94 | the result is never longer than the input; what it keeps is stated by the next three rows |
| Text.TrimEnds | Services/PdfExportService.cs:94 | Trim's result is empty or neither of its ends is white space |
| Text.TrimIsSlice | Services/PdfExportService.cs:94 | Trim returns a contiguous slice of its input |
| Text.TrimCutsWhiteSpace | Services/PdfExportService.cs:94 | only white space lies after the slice Trim keeps |
| Text.TrimStartSpec | Services/PdfExportService.cs:94 | TrimStart leaves a suffix of its input and drops only white space |
| Text.TrimEndSpec | Services/PdfExportService.cs:94 | TrimEnd leaves a prefix of its input and drops only white space |
| Text.TrimKeepsTrimmed | Services/PdfExportService.cs:94 | text without white space at either end is left unchanged |
| Text.Replace | Services/PdfExportService.cs:89 | text without the pattern's first character is left unchanged |
| Text.ReplaceMatch | Services/PdfExportService.cs:89 | an occurrence at the front becomes the replacement, and the scan goes on after it |
| Text.ReplaceKeep | Services/PdfExportService.cs:89 | a character where no occurrence starts is copied, and the scan goes on after it |
| Text.ReplaceKeepAll | Services/PdfExportService.cs:89 | text none of whose characters opens the pattern is copied as it is |
| Text.ReplaceLeavesNone | Services/PdfExportService.cs:89 | with a non-empty replacement that shares no character with the pattern, no occurrence of the pattern is left |
| Text.EmptyReplacementCanJoin | Services/PdfExportService.cs:89 | with an empty replacement an occurrence can remain: deleting `<p>` from `<<p>p>` leaves `<p>` |
| Text.Join | Services/PdfExportService.cs:57 | no parts give "", and one part gives that part |
| Text.Coalesce | Services/DatabaseService.cs:54-56 | a non-null text is kept as it is; null gives the fallback |
| Text.LexLessTransitive | Services/DatabaseService.cs:71 | text order is transitive |
| Text.LexLessTotal | Services/DatabaseService.cs:71 | any two texts are equal or ordered |
| Text.LexLessConcat | Services/DatabaseService.cs:71 | fixed-width prefixes compare first, then the rest |
| Sorting.SortDesc | Services/PdfExportService.cs:40 | the result has the input's length; the next three rows state that it is the stable descending order |
| Sorting.SortDescSorted | Services/PdfExportService.cs:40 | the sorted sequence has no element followed by one with a larger key |
| Sorting.SortDescPermutes | Services/PdfExportService.cs:40 | the sorted sequence has the same elements with the same multiplicities |
| Sorting.SortDescStable | Services/PdfExportService.cs:40 | elements with equal keys keep their input order |
| PdfExport.StripHtml | Services/PdfExportService.cs:84-95 | null or "" gives "" |
| PdfExport.ReplaceBreaks | Services/PdfExportService.cs:89 | text without '<' is left unchanged |
| PdfExport.ReplaceBreaksLineBreak | Services/PdfExportService.cs:89 | a leading `<br>` becomes "\n" |
| PdfExport.ReplaceBreaksSelfClosing | Services/PdfExportService.cs:89 | a leading `<br/>` becomes "\n" |
| PdfExport.ReplaceBreaksOpenParagraph | Services/PdfExportService.cs:89 | a leading `<p>` is deleted |
| PdfExport.ReplaceBreaksCloseParagraph | Services/PdfExportService.cs:89 | a leading `</p>` becomes "\n\n" |
| PdfExport.ReplaceBreaksKeep | Services/PdfExportService.cs:89 | a leading character other than '<' is copied |
| PdfExport.ReplaceBreaksLeavesNoClosingParagraph | Services/PdfExportService.cs:89 | no `</p>` is left in the result |
| PdfExport.RemoveTags | Services/PdfExportService.cs:92 | the tag pass never lengthens the text; RemoveTagsMatch, RemoveTagsKeep and RemoveTagsUnclosed state what it removes and keeps |
| PdfExport.RemoveTagsMatch | Services/PdfExportService.cs:92 | a leading `<`, text without '>' or a line break, and `>` are removed, and the scan goes on after them |
| PdfExport.RemoveTagsKeep | Services/PdfExportService.cs:92 | a leading character other than '<' is kept |
| PdfExport.RemoveTagsUnclosed | Services/PdfExportService.cs:92 | a leading '<' with no '>' before the next line break is kept |
| PdfExport.FindClose | Services/PdfExportService.cs:92 | the index found is a '>' with no '>' and no line break before it |
| PdfExport.FindCloseNone | Services/PdfExportService.cs:92 | no match is found exactly when no '>' comes before the first line break |
| PdfExport.RemoveTagsLeavesNoTag | Services/PdfExportService.cs:92 | after the tag pass, no '<' is followed by a '>' on its line |
| PdfExport.NoTagLeftMeans | Services/PdfExportService.cs:92 | position by position: between any remaining '<' and a later '>' there is a line break |
| PdfExport.RemoveTagsKeepsNoClose | Services/PdfExportService.cs:92 | match removal never brings a '>' onto a line that had none |
| PdfExport.RemoveTagsNoAngle | Services/PdfExportService.cs:92 | text without '<' passes the tag pass unchanged |
| PdfExport.PlainTextOnlyTrimmed | Services/PdfExportService.cs:89-94 | input without '<' and '&' comes out as its Trim, for any HtmlDecode that keeps '&'-free text |
| PdfExport.StripHtmlTrimmed | Services/PdfExportService.cs:94 | the result never starts or ends with white space |
| PdfExport.TagTexts | Services/PdfExportService.cs:57 | the joined tags are the stored tags in order, a null tag as "" |
| PdfExport.RenderEntries | Services/PdfExportService.cs:40-63 | one block per entry in the given order, each that entry's RenderEntry; fails exactly when some entry's TagList fails |
| PdfExport.RenderEntry | Services/PdfExportService.cs:45-62 | the block has the entry's date and mood and its stripped content; it has a tags line exactly when TagList is non-empty, and that line is the tags joined by ", "; a TagList failure fails the block |
| PdfExport.DocumentBody | Services/PdfExportService.cs:34-40 | no entries give the placeholder only; otherwise the blocks of the entries newest first |
| PdfExport.DocumentShowsEachEntry | Services/PdfExportService.cs:34-64 | one block per entry, in newest-first order; the document fails exactly when some entry's TagList fails |
| PdfExport.BeforeOrder | Services/PdfExportService.cs:40 | DateTime order is a strict total order |
| PdfExport.NewestFirst | Services/PdfExportService.cs:40 | the ordered entries are a permutation of the entries |
| PdfExport.NewestFirstSpec | Services/PdfExportService.cs:40 | OrderByDescending keeps every entry, is sorted newest first, and keeps the input order among equal dates |
| PdfExport.NewestFirstDescending | Services/PdfExportService.cs:40 | no shown entry is older than one shown after it |
| Security.Utf8Char | Services/SecurityService.cs:57 | one code point is 1 to 4 UTF-8 bytes |
| Security.Utf8Encode | Services/SecurityService.cs:57 | the UTF-8 form is between 1 and 4 bytes per character |
| Security.Base64Group | Services/SecurityService.cs:58 | three bytes become four Base64 characters |
| Security.Base64Encode | Services/SecurityService.cs:58 | the text has four characters per started group of three bytes |
| Security.Base64LengthFormula | Services/SecurityService.cs:58 | that length is 4 * ((n + 2) / 3) |
| Security.ComputeHash | Services/SecurityService.cs:54-59 | a null PIN throws ArgumentNullException; otherwise the hash is 44 characters, never empty |
| Security.SetPinStep | Services/SecurityService.cs:20-32 | a null or empty PIN removes the hash and locks; any other PIN stores its hash and unlocks |
| Security.VerifyPinStep | Services/SecurityService.cs:34-47 | with no hash stored the answer is true and nothing changes |
| Security.LockStep | Services/SecurityService.cs:49-52 | locks and keeps the stored hash |
| Security.SetPinSetsPin | Services/SecurityService.cs:14-32 | after SetPin, IsPinSet and the flag are both true exactly when the PIN was non-empty |
| Security.VerifyWithPinSet | Services/SecurityService.cs:36-46 | with a hash stored: true and unlocked exactly when the PIN's hash equals it; otherwise false with nothing changed; a null PIN throws with nothing changed |
| Security.SetThenVerify | Services/SecurityService.cs:29-43 | after SetPin(p) with p non-empty, VerifyPin(p) is true |
| Security.LockThenVerify | Services/SecurityService.cs:39-52 | after Lock, the PIN whose hash is stored still verifies and unlocks |
| Security.FlagRisesOnlyByUnlock | Services/SecurityService.cs:31-42 | one call takes the flag from false to true only if it is a non-empty SetPin or a matching VerifyPin |
| Security.RunUnlockedOnlyByUnlock | Services/SecurityService.cs:10-52 | over any sequence of calls from a locked state that ends unlocked, some call was an unlocking one |
| Security.SecurityService.constructor | Services/SecurityService.cs:10 | a new service starts unauthenticated over the stored slot |
| Security.SecurityService.IsAuthenticated | Services/SecurityService.cs:12 | the property is the flag |
| Security.SecurityService.IsPinSet | Services/SecurityService.cs:14-18 | true exactly when the slot holds a non-empty text |
| Security.SecurityService.SetPin | Services/SecurityService.cs:20-32 | the new state is SetPinStep of the old |
| Security.SecurityService.VerifyPin | Services/SecurityService.cs:34-47 | the answer and the new state are VerifyPinStep of the old state |
| Security.SecurityService.Lock | Services/SecurityService.cs:49-52 | the new state is LockStep of the old |

## Left out

- Async and I/O: connections, `await`, the database file path and `SecureStorage`'s platform back ends. Each operation is a synchronous update of in-memory state. The constructors take what is already stored as a parameter.
- Database.DatabaseService.GetAllEntries: the order among rows with equal EntryDate is left open in its contract. The model's sort happens to keep rowid order, but the contract does not promise it, because SQLite does not.
- Database.DatabaseService.GetEntryByDate: which row LIMIT 1 picks is left open. The contract promises only some row with that date.
- DateTimes.FormatDate: `ToString("yyyy-MM-dd")` runs without a format provider, so .NET uses the current culture's calendar. The model assumes the Gregorian calendar; under a culture such as th-TH the stored year would differ.
- DateTimes.FormatTimestamp: the same holds for `yyyy-MM-dd HH:mm:ss`, and `:` is the culture's time separator in .NET. The model assumes the Gregorian calendar and ':' as the separator.
- Database.MapToJournalItem: `DateTime.Parse` accepts only the two stored forms. Culture-dependent formats that .NET would also accept are not modelled. `GetInt32` on an id above 2^31 - 1 is not modelled, and neither is AUTOINCREMENT running out of 64-bit ids.
- Database.DatabaseService.constructor: a table on disk is assumed to satisfy SQLite's own AUTOINCREMENT invariant. An already-open table with a foreign schema is not modelled.
- JsonList.Serialize: System.Text.Json's exact output is not claimed. The library also escapes HTML-sensitive and non-ASCII characters as `\uXXXX`. The model's encoder escapes only what section 7 of RFC 8259 requires, and the decoder accepts both forms.
- JsonList: Deserialize rejects a `\uXXXX` lone surrogate, because Dafny characters are Unicode scalar values. .NET strings can hold one, so that input is outside the model.
- Security.Utf8Encode: C# strings can hold lone UTF-16 surrogates, which GetBytes replaces with U+FFFD. Dafny characters cannot be surrogates, so this case does not arise in the model.
- Security.ComputeHash: SHA-256 is a parameter returning 32 bytes. Only its length and determinism are used.
- PdfExport.StripHtml: `WebUtility.HtmlDecode` is a parameter. The only property used is that it leaves '&'-free text unchanged.
- PdfExport.ReplaceBreaks: nothing states that no `<br>` or `<br/>` is left. Deleting `<p>` can join the text around it into a new one: `<<p>br>` becomes `<br>`, which Text.EmptyReplacementCanJoin shows in the same form for `<p>` itself. The tag pass then removes such a `<br>` as a tag, with no line break.
- PdfExport: QuestPDF layout is not modelled: page size, margins, fonts, colours, line height, page numbers, the header's `DateTime.Now` and the long date format of each entry heading. Each block keeps the entry's DateTime instead of rendering it.
- MauiProgram.cs (service registration) and Services/ThemeService.cs (a single JavaScript call) hold no logic and are not part of this model.
