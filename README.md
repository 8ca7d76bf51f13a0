# Assignment notifier: a Dafny model of the notification pipeline

The system reads this month's assignment sheet and sends every handler a Telegram message listing their outstanding assignments. The pipeline has five stages:

1. **Ingestion** (`fetch_data`) reads six single-column ranges.
   - The first cell of each range is its header. `camel_case` turns it into a field name.
   - Every later row becomes a record: one field per range. A missing cell reads as `''`.
   - The number of records comes from the first range alone.
   - In `google_sheets_handler.py` each record is then coerced. `checked` and `handOver` become `False` exactly when their text is "not yet", ignoring case and surrounding whitespace. `dueDate` becomes a date, or `None` when it is blank or does not parse.
2. **Filtering** (`filter_not_yet`) keeps a record when it is not checked or not handed over, and it is due today or later.
3. **Grouping** (`group_by_handle_by`) groups records under their handler's trimmed, lower-cased name, in order of first appearance. Each record loses its `handleBy` field.
4. **Rendering** (`generate_messages`) builds one MarkdownV2 message per handler:
   - a heading dated today;
   - one block per assignment, holding the escaped name, the customer, a status phrase and a days-remaining phrase.
5. **Delivery** (`send_messages`) looks up each handler's chat id and sends each non-blank message.
   - A message is attempted up to `MAX_RETRIES` times.
   - A rate limit sleeps for the time the server asks for.
   - A network error sleeps `RETRY_DELAY_SECONDS`.
   - Any other error abandons the message.

`google_sheet.py` is an older standalone variant of the first three stages. Its records stay raw strings, its filter parses the due date itself, and it trims the handler name before testing whether it is empty. The model covers it too and relates it to the handler module.

Modules:

- `StrOps` (strops.dfy): the Python string built-ins the pipeline uses — `strip`, `lower`, `title`, `split`, `join` and decimal formatting.
- `Collections` (collections.dfy): an insertion-ordered dict, written as a sequence of (key, value) pairs with distinct keys. It provides `d[k] = v`, `setdefault(k, []).append(x)`, value mapping and order-preserving filtering.
- `Ingest` (ingest.dfy): `camel_case` and the assembly of records from the fetched ranges. Both sheet modules compute the same headers and records (the handler module picks the cell with a conditional expression, `google_sheet.py` with an if/else statement), so it is defined once.
- `SheetsHandler` (sheetshandler.dfy): `google_sheets_handler.py`.
- `OldSheet` (oldsheet.dfy): `google_sheet.py`.
- `TelegramBot` (telegrambot.dfy): `telegram_bot.py`.

Loops in the source are Dafny methods. Each method is proved equal to a specification function, and the properties are proved about those functions.

Three behaviours of the code are worth stating outright:

- The handler module tests `handleBy` for emptiness *before* trimming it. A handler name made only of whitespace is therefore grouped under the empty key `""`. Only the older `google_sheet.py` drops it (`SheetsHandler.WhitespaceHandlerGroupedUnderEmptyKey`, `OldSheet.GroupKeysAgree`).
- The defaults "No Assignment" and "Unknown Customer" are used only when the field is missing. A present but empty field renders as an empty text (`TelegramBot.FieldTextDefault`).
- The code tests the chat id for truthiness, so a handler whose chat id is `0` is skipped like one that has no id.

## Model

| member | source | states |
|---|---|---|
| StrOps.TrimLeftSpec | google_sheet.py:87 | lstrip removes exactly the leading whitespace: the result is a suffix that does not start with whitespace, and everything cut off is whitespace |
| StrOps.TrimRightSpec | google_sheet.py:87 | rstrip removes exactly the trailing whitespace: the result is a prefix that does not end with whitespace, and everything cut off is whitespace |
| StrOps.Strip | google_sheet.py:87 | str.strip: TrimLeft then TrimRight; what it returns is characterised by `StrOps.StripSpec` and `StrOps.StripUnique` |
| StrOps.StripSpec | google_sheets_handler.py:77 | strip returns the slice between the leading and trailing whitespace; the result is empty exactly when the text is all whitespace |
| StrOps.StripUnique | google_sheets_handler.py:77 | any slice with only whitespace outside it and non-whitespace at both ends is what strip returns |
| StrOps.StripPadded | google_sheets_handler.py:74-75 | whitespace, then a word with non-whitespace ends, then whitespace, strips to that word |
| StrOps.StripConcat | google_sheets_handler.py:121 | strip removes exactly the whitespace padding around a text that has no whitespace at its ends |
| StrOps.StripIdempotent | google_sheet.py:112 | stripping a second time changes nothing |
| StrOps.StripAllSpace | google_sheet.py:112-114 | a whitespace-only text strips to '' |
| StrOps.Lower | google_sheets_handler.py:31 | lower keeps the length and lower-cases every ASCII letter in place, leaving every other character |
| StrOps.Title | google_sheets_handler.py:33 | str.title on one word keeps its length; the letter rule (a letter starting a run of letters upper-cased, the other letters lower-cased) is its definition, used on "date" in `Ingest.DueDateWordFacts` |
| StrOps.LowerAppend | google_sheets_handler.py:31 | lower-casing distributes over concatenation |
| StrOps.Split | google_sheets_handler.py:32 | split with an explicit separator always returns at least one piece, so `words[0]` exists |
| StrOps.SplitSpec | google_sheets_handler.py:32 | no piece of a split holds the separator, and joining the pieces with the separator gives the text back |
| StrOps.SplitPiecesClean | google_sheets_handler.py:32 | no piece of a split holds the separator |
| StrOps.SplitJoinsBack | google_sheets_handler.py:32 | joining the pieces of a split with the separator gives the text back |
| StrOps.SplitJoin | google_sheets_handler.py:32 | splitting a join of separator-free pieces gives the pieces back (the other round trip) |
| StrOps.Join | telegram_bot.py:98 | `sep.join(words)` for a non-empty list; `StrOps.SplitJoinsBack` and `StrOps.SplitJoin` relate it to split |
| StrOps.SplitNoSeparator | google_sheets_handler.py:32 | a text without the separator splits into itself alone |
| StrOps.SplitAfterWord | google_sheets_handler.py:32 | a separator-free word followed by the separator splits off as the first piece |
| StrOps.Decimal | telegram_bot.py:77 | str(n) is a non-empty string of decimal digits with no leading zero |
| StrOps.DecimalRoundTrip | telegram_bot.py:77 | reading back the digits str(n) writes gives n |
| Collections.Find | google_sheets_handler.py:123 | the position found holds the key and no earlier entry does; the entry count means the key is absent |
| Collections.FindAbsent | google_sheets_handler.py:123 | a key is found exactly when it is one of the dict's keys |
| Collections.Put | telegram_bot.py:99 | `d[k] = v` keeps the keys distinct, replaces the value of an existing key in place, appends a new key at the end and changes nothing else |
| Collections.SetDefaultAppendKeys | google_sheets_handler.py:123 | `setdefault(k, []).append(x)` keeps the keys distinct, appends x to k's existing list, or adds `[x]` under a new key at the end; other entries are unchanged |
| Collections.SetDefaultAppend | google_sheets_handler.py:123 | `grouped.setdefault(k, []).append(x)` on the insertion-ordered dict; its effect is stated by `Collections.SetDefaultAppendKeys` |
| Collections.ValuesFor | google_sheets_handler.py:123 | the values paired with one key, in pair order: the reference that each group is compared with in `Collections.GroupPairsValues` |
| Collections.GroupPairs | google_sheets_handler.py:115-125 | the setdefault-append loop over (key, value) pairs; its keys, groups and total are stated by `Collections.GroupPairsFacts` |
| Collections.GroupPairsSnoc | google_sheets_handler.py:116-123 | grouping one more pair is one more setdefault-append |
| Collections.GroupPairsKeys | google_sheets_handler.py:115-125 | the grouping's keys are distinct and are the keys of the pairs in order of first occurrence |
| Collections.GroupPairsValues | google_sheets_handler.py:115-125 | each group holds exactly the values paired with its key, in their original order |
| Collections.GroupPairsTotal | google_sheets_handler.py:115-125 | the group sizes add up to the number of pairs: nothing is lost or duplicated |
| Collections.GroupPairsFacts | google_sheets_handler.py:115-125 | all of the above at once: distinct keys, exactly the keys that occur, each group in order, and the total size |
| Collections.GroupsNonEmpty | google_sheets_handler.py:123 | no group is empty |
| Collections.ValuesForMembers | google_sheets_handler.py:123 | a value is in k's group exactly when it was paired with k |
| Collections.ValuesForAbsent | google_sheets_handler.py:123 | a key that never occurs has no values |
| Collections.FirstOccurrencesMembers | google_sheets_handler.py:123 | a key heads a group exactly when some pair carries it |
| Collections.KeyedBy | google_sheets_handler.py:116-122 | the (key, copy) pairs handed to setdefault are never more than the rows |
| Collections.KeyedBySnoc | google_sheets_handler.py:117-123 | one more row adds one pair when it has a key, and nothing otherwise |
| Collections.KeyedByMembers | google_sheets_handler.py:117-123 | a pair is produced exactly when some row has its key and projects to its value |
| Collections.KeyedByKeys | google_sheets_handler.py:117-123 | a key is produced exactly when some row has it |
| Collections.KeyedByLength | google_sheets_handler.py:117-119 | one pair per row that has a key |
| Collections.MapWhere | telegram_bot.py:63-96 | mapping a list keeps its length |
| Collections.MapWhereAt | telegram_bot.py:63-96 | element i of the mapped list is the image of element i |
| Collections.MapEach | telegram_bot.py:63-96 | the loop that appends f of each element, in order, builds the mapped list |
| Collections.MapValues | telegram_bot.py:59-99 | mapping the values of a dict keeps its size |
| Collections.MapValuesAt | telegram_bot.py:59-99 | each entry keeps its key and carries the image of its value; keys stay distinct |
| Collections.MapValuesStep | telegram_bot.py:59-99 | one more entry appends its image under a key that is not yet present |
| Collections.MapValuesEach | telegram_bot.py:59-99 | the loop that sets `d[k] = f(v)` for every entry builds the dict with the same keys in the same order and each value mapped |
| Collections.Filter | google_sheets_handler.py:94-107 | filtering never lengthens a list |
| Collections.FilterMembers | google_sheets_handler.py:104-105 | an element is kept exactly when it occurs in the input and satisfies the test |
| Collections.FilterAppend | google_sheets_handler.py:97-105 | filtering splits over concatenation |
| Collections.FilterAllKept | google_sheets_handler.py:97-105 | a list all of whose elements pass is kept whole |
| Collections.FilterIdempotent | google_sheets_handler.py:97-105 | filtering an already filtered list changes nothing |
| Ingest.SkipSeparators | google_sheets_handler.py:31 | skipping a run of '_'/'-' leaves a suffix that does not start with a separator |
| Ingest.CollapseSeparators | google_sheets_handler.py:31 | after the substitution no '_' or '-' is left; that each maximal run becomes exactly one space is `Ingest.CollapseRun` |
| Ingest.SkipRun | google_sheets_handler.py:31 | skipping separators passes over a whole run and stops at the next word |
| Ingest.CollapseLeadingRun | google_sheets_handler.py:31 | a text that opens with a run of separators collapses to one space followed by the collapsed rest |
| Ingest.CollapseRun | google_sheets_handler.py:31 | a maximal run of '_' and '-', of any length, between a separator-free text and a word becomes exactly one space |
| Ingest.Words | google_sheets_handler.py:31-32 | the normalised header splits into at least one word |
| Ingest.CollapsePlain | google_sheets_handler.py:31 | a separator-free prefix passes through the substitution unchanged |
| Ingest.CollapseBreakWord | google_sheets_handler.py:31 | one break character before a word becomes a single space |
| Ingest.CollapseTwoWords | google_sheets_handler.py:31 | two letter words joined by one space, '_' or '-' become the words joined by a space |
| Ingest.StripTwoWords | google_sheets_handler.py:31 | two letter words joined by a space are left alone by strip |
| Ingest.SplitTwoWords | google_sheets_handler.py:31-32 | two letter words joined by a space split into the two lower-cased words |
| Ingest.WordsTwo | google_sheets_handler.py:31-32 | a two-word header with any one separator yields its two words lower-cased |
| Ingest.CamelCaseTwoWords | google_sheets_handler.py:30-33 | a two-word header becomes the first word lower-cased followed by the second title-cased |
| Ingest.CamelCase | google_sheets_handler.py:30-33 | camel_case: separator runs become one space, the text is stripped, lower-cased and split on single spaces, and the first word is followed by the others title-cased; its properties are the `Ingest.CamelCase…` and `Ingest.DueDate…` lemmas |
| Ingest.TitledConcat | google_sheets_handler.py:33 | `''.join(word.title() for word in words[1:])`, word by word in order |
| Ingest.CamelCaseRunBlind | google_sheets_handler.py:30-33 | a run of separators between two words names the same field as a single '_' |
| Ingest.DoubledSeparatorDueDate | google_sheets_handler.py:30-33 | "due__date" names the field dueDate |
| Ingest.DueDateWordFacts | google_sheets_handler.py:31-33 | both spellings of the due-date words lower-case and title-case to "due" and "Date" |
| Ingest.CamelCaseDueDate | google_sheets_handler.py:30-33 | two letter words that lower-case to "due" and title-case to "Date" give "dueDate" |
| Ingest.DueDateParts | google_sheets_handler.py:30-33 | "Due"/"Date" or "due"/"date" around any separator give "dueDate" |
| Ingest.DueDateHeaders | google_sheets_handler.py:30-33 | "Due Date", "due_date" and "due-date" all name the field dueDate |
| Ingest.CamelCaseEmpty | google_sheets_handler.py:60-61 | an empty header cell yields the empty field name |
| Ingest.SkipSeparatorsSame | google_sheets_handler.py:31 | headers differing only in '_' versus '-' skip to headers that still differ only that way |
| Ingest.CollapseSame | google_sheets_handler.py:31 | headers differing only in '_' versus '-' collapse to the same text |
| Ingest.CamelCaseSeparatorBlind | google_sheets_handler.py:30-33 | headers differing only in '_' versus '-' name the same field |
| Ingest.NormalisedHasNoSeparators | google_sheets_handler.py:31 | the substituted, stripped, lower-cased header holds no '_' or '-' |
| Ingest.WordsHaveNoBreaks | google_sheets_handler.py:31-32 | no word of a header holds a space, '_' or '-' |
| Ingest.TitledConcatNoBreaks | google_sheets_handler.py:33 | title-casing and concatenating words free of breaks introduces none |
| Ingest.CamelCaseHasNoBreaks | google_sheets_handler.py:30-33 | a field name never contains a space, '_' or '-' |
| Ingest.JoinPieces | google_sheets_handler.py:31-33 | every character of a piece appears in the joined text |
| Ingest.Headers | google_sheets_handler.py:58-61 | there is one field name per range |
| Ingest.HeadersAt | google_sheets_handler.py:58-61 | field name k is camel_case of range k's first cell, or of '' when the range or its first row is empty |
| Ingest.HeaderCell | google_sheets_handler.py:60 | a range's header text: its first cell, or '' when the range or its first row is empty |
| Ingest.RowCount | google_sheets_handler.py:64 | the number of data rows: the first range's length less one, or 0 when it is empty |
| Ingest.CellAt | google_sheets_handler.py:69 | the cell of row i of a range, or '' past the range's end or for a row with no cells |
| Ingest.HeaderNames | google_sheets_handler.py:58-61 | the header loop computes the field name of each range, in range order |
| Ingest.BuildRow | google_sheets_handler.py:66-70 | the inner loop assigns each range's cell of row i under that range's field name, later ranges overwriting earlier ones |
| Ingest.RowsUpTo | google_sheets_handler.py:65-71 | rows 1 to n give n records |
| Ingest.RowsUpToAt | google_sheets_handler.py:65-71 | record i of the list is sheet row i + 1 |
| Ingest.AssembledRowAt | google_sheets_handler.py:63-71 | record i of the assembly is sheet row i + 1 |
| Ingest.AssembleRows | google_sheets_handler.py:58-71 | the assembly returns one record per data row of the first range, each the assembled sheet row |
| Ingest.RowWithKeys | google_sheets_handler.py:66-70 | a record's fields are exactly the ranges' field names |
| Ingest.RowWithField | google_sheets_handler.py:69-70 | a range's field holds that range's cell of the row, unless a later range has the same name |
| Ingest.AssembledRowFields | google_sheet.py:66-72 | an assembled record has one field per range name, each holding the range's cell; a cell beyond the range's end, or in a row without cells, reads as '' |
| SheetsHandler.AsText | google_sheets_handler.py:66-73 | a raw record lifted to values keeps its fields |
| SheetsHandler.Truthy | google_sheets_handler.py:104 | Python truthiness of a field value: '', False and None are false, a date is true |
| SheetsHandler.Show | google_sheets_handler.py:121 | `str()` of a field value: the text itself, "True"/"False", "None", or the date's ISO rendering |
| SheetsHandler.IsNotYet | google_sheets_handler.py:74-75 | the cell, stripped and lower-cased, equals "not yet"; `SheetsHandler.NotYetPadded` characterises the cells that pass |
| SheetsHandler.CoerceDueDate | google_sheets_handler.py:77-84 | a due-date cell becomes None when blank after strip or rejected by the parser, and the parsed day otherwise; `SheetsHandler.CoerceDueDateCases` states the cases |
| SheetsHandler.Coerce | google_sheets_handler.py:73-84 | coercion adds or overwrites exactly checked, handOver and dueDate: the flags become booleans, dueDate becomes None or a date, and every other field keeps its text |
| SheetsHandler.NotYetPadded | google_sheets_handler.py:74-75 | a cell reads "not yet" exactly when it is "not yet" in some letter case, padded with whitespace |
| SheetsHandler.StrippedLowerIs | google_sheets_handler.py:74-75 | when the stripped, lower-cased cell is t, some whitespace-padded slice of it lower-cases to t |
| SheetsHandler.NotYetEnds | google_sheets_handler.py:74-75 | a word lower-casing to "not yet" has seven characters and letters at both ends |
| SheetsHandler.CoerceFlags | google_sheets_handler.py:74-75 | checked/handOver become False exactly when the field is present and reads "not yet"; a missing field becomes True |
| SheetsHandler.CoerceDueDateCases | google_sheets_handler.py:77-84 | dueDate becomes None exactly when the cell is missing, blank, or rejected by the parser, and otherwise the parsed day of the trimmed text |
| SheetsHandler.FetchData | google_sheets_handler.py:36-86 | fetch_data returns one coerced record per data row: the assembled records, each coerced |
| SheetsHandler.FetchedRow | google_sheets_handler.py:63-84 | fetched record i is sheet row i + 1, coerced |
| SheetsHandler.CoerceAllAt | google_sheets_handler.py:73-84 | record i of the coerced list is the coercion of raw record i |
| SheetsHandler.CoerceAllTyped | google_sheets_handler.py:77-84 | every coerced record's dueDate is None or a date, so the filter's comparison is defined |
| SheetsHandler.Actionable | google_sheets_handler.py:97-105 | a coerced record is kept when checked or handOver is falsy (a missing one counts as False) and dueDate is a date no earlier than today; `SheetsHandler.FilterNotYet` keeps exactly these |
| SheetsHandler.FilterNotYet | google_sheets_handler.py:89-107 | filter_not_yet returns exactly the actionable records (not checked or not handed over, due today or later), in their original order |
| SheetsHandler.WithoutHandleBy | google_sheets_handler.py:122 | the copy has every field but handleBy, with the same values; the raw grouping of google_sheet.py:116 uses the same copy |
| SheetsHandler.GroupKey | google_sheets_handler.py:117-121 | the group key: none for a missing or falsy handleBy, otherwise str(handleBy) stripped and lower-cased; `SheetsHandler.GroupKeyNormal`, `SheetsHandler.TextGroupKey` and `SheetsHandler.WhitespaceHandlerGroupedUnderEmptyKey` state its cases |
| SheetsHandler.GroupByHandleBy | google_sheets_handler.py:110-125 | group_by_handle_by has distinct keys; a key occurs exactly when some row's group key is it; each group holds exactly that key's copies in row order; the group sizes add up to the keyed rows |
| SheetsHandler.WhitespaceHandlerGroupedUnderEmptyKey | google_sheets_handler.py:117-121 | a whitespace-only handleBy passes the emptiness test and is grouped under "" |
| SheetsHandler.EmptyHandlerSkipped | google_sheets_handler.py:117-119 | a row with an empty, None or False handleBy contributes no pair of its own: any group entry equal to its copy comes from another row with that key |
| SheetsHandler.LowerStrip | google_sheets_handler.py:121 | trimming commutes with lower-casing |
| SheetsHandler.GroupKeyNormal | google_sheets_handler.py:121 | group keys are already trimmed and lower-cased |
| SheetsHandler.SameHandler | google_sheets_handler.py:121 | names differing only in surrounding whitespace normalise to the same key |
| SheetsHandler.TextGroupKey | google_sheets_handler.py:117-121 | a non-empty text handler is grouped under its trimmed, lower-cased form |
| SheetsHandler.AliceExample | google_sheets_handler.py:117-123 | "Alice" and " alice " land in the same group "alice" |
| SheetsHandler.CapitalisedKey | google_sheets_handler.py:121 | "Alice" is grouped under "alice" |
| SheetsHandler.PaddedKey | google_sheets_handler.py:121 | " alice " is grouped under "alice" |
| SheetsHandler.GroupedRowsCameFrom | google_sheets_handler.py:116-123 | every grouped record is the handleBy-less copy of an input row with that group key |
| SheetsHandler.GetGroupedData | google_sheets_handler.py:144-148 | get_grouped_data is the grouping of the actionable records among the fetched, coerced records |
| SheetsHandler.GroupedRowsActionable | google_sheets_handler.py:144-148 | every record in the grouped data is actionable and has no handleBy field |
| SheetsHandler.ActionableWithoutHandleBy | google_sheets_handler.py:122 | dropping handleBy does not change whether a record is actionable |
| OldSheet.FilterNotYet | google_sheet.py:78-102 | the raw filter returns exactly the raw records whose checked or handOver reads "not yet" and whose due date parses to today or later, in their original order |
| OldSheet.RawActionable | google_sheet.py:86-99 | a raw record is kept when checked or handOver reads "not yet" after strip and lower, and its stripped dueDate is non-blank and parses to today or later; `OldSheet.FiltersAgree` ties it to the handler module's test |
| OldSheet.CheckDueDate | google_sheet.py:89-97 | a blank cell or one the parser rejects is not valid; a parsed day is valid when it is today or later |
| OldSheet.DueDateValid | google_sheet.py:89-97 | the raw filter's due-date test: the stripped cell is non-blank, parses, and falls today or later; `OldSheet.CheckDueDate` states its cases |
| OldSheet.RawFilterMembers | google_sheet.py:99-100 | a raw record is kept exactly when it occurs and is actionable |
| OldSheet.BadDueDateExcluded | google_sheet.py:91-97 | a blank or unparseable due date keeps a record out, whatever its flags say |
| OldSheet.RawKey | google_sheet.py:112-114 | the raw group key: handleBy stripped and lower-cased, none when that is empty; `OldSheet.GroupKeysAgree` compares it with the handler module's key |
| OldSheet.GroupByHandleBy | google_sheet.py:105-119 | the raw grouping has distinct keys, never the empty key; a key occurs exactly when some row's trimmed, lower-cased handler is it; each group holds that key's copies in row order; the group sizes add up to the rows with a non-blank handler |
| OldSheet.FiltersAgree | google_sheet.py:86-100 | the raw filter keeps a record exactly when the handler module's filter keeps the coerced record |
| OldSheet.FilterThenCoerce | google_sheet.py:78-102 | filtering raw records and then coercing equals coercing and then filtering |
| OldSheet.GroupKeysAgree | google_sheet.py:112-114 | both groupings use the same key for a non-blank handler, both skip an empty one, and only the handler module groups a whitespace-only one (under "") |
| TelegramBot.EscapeLength | telegram_bot.py:46-47 | escaping adds exactly one backslash per special character |
| TelegramBot.Escape | telegram_bot.py:40-47 | escape_markdown: a backslash before each character of escape_chars, '' for ''; its properties are `TelegramBot.EscapeLength`, `TelegramBot.UnescapeEscape`, `TelegramBot.EscapeGuardsSpecials` and `TelegramBot.EscapePlain` |
| TelegramBot.BackslashNotEscaped | telegram_bot.py:46-47 | a backslash of the input is not in escape_chars and passes through unescaped |
| TelegramBot.EscapeHead | telegram_bot.py:46-47 | an escaped text never starts with a bare special character |
| TelegramBot.UnescapeEscape | telegram_bot.py:40-47 | dropping each backslash that precedes a special character gives the original text back |
| TelegramBot.EscapeGuardsSpecials | telegram_bot.py:46-47 | every special character of an escaped text is preceded by a backslash |
| TelegramBot.EscapeAppend | telegram_bot.py:46-47 | escaping distributes over concatenation |
| TelegramBot.EscapePlain | telegram_bot.py:44-47 | a text with no special character, '' included, is left as it is |
| TelegramBot.DuePhrase | telegram_bot.py:66-79 | the due phrase by days remaining: "Past due!", "Due today", "Due in 1 day", "Due in N days", or "No due date" for a falsy dueDate; `TelegramBot.DuePhraseEscaped` states each case after escaping |
| TelegramBot.DuePhraseEscaped | telegram_bot.py:66-81 | the escaped phrase is "No due date", "Past due\!", "Due today", "Due in 1 day", or "Due in N days" with N the day count in decimal, according to the days remaining |
| TelegramBot.DueInDaysEscaped | telegram_bot.py:77-81 | "Due in N days" is escaped to itself, and its digits read back as the day count |
| TelegramBot.PlainPhrase | telegram_bot.py:73-81 | "No due date", "Due today", "Due in 1 day" and the fixed parts of "Due in N days" are left alone by escaping |
| TelegramBot.PlainConcat | telegram_bot.py:77-81 | a concatenation of texts without special characters needs no escaping |
| TelegramBot.PlainDueInDays | telegram_bot.py:77-81 | "Due in " followed by digits and " days" needs no escaping |
| TelegramBot.PastDueEscaped | telegram_bot.py:71-81 | "Past due!" is escaped to "Past due\!" |
| TelegramBot.FieldTextDefault | telegram_bot.py:64-65 | the default name is used only for a missing field; a present empty field escapes to '' |
| TelegramBot.FieldText | telegram_bot.py:64-65 | str(assignment.get(k, default)): the default only for a missing field; `TelegramBot.FieldTextDefault` states both cases |
| TelegramBot.StatusPhrase | telegram_bot.py:83-87 | "checked"/"not checked" and "handed over"/"not handed over" by truthiness, a missing flag counting as False, joined by " and " |
| TelegramBot.Heading | telegram_bot.py:60 | the bold heading with today's escaped date |
| TelegramBot.Block | telegram_bot.py:63-96 | one assignment's four lines: escaped name and customer, status phrase, escaped due phrase; `TelegramBot.ActionableRendering` states what an actionable record shows |
| TelegramBot.MessageBody | telegram_bot.py:59-98 | the heading and the blocks in assignment order, joined by blank lines; `TelegramBot.HandlerMessage` computes it and `TelegramBot.MessageNotBlank` shows it is never blank |
| TelegramBot.HandlerMessage | telegram_bot.py:59-98 | one handler's message is the heading followed by one block per assignment, joined by blank lines |
| TelegramBot.GenerateMessages | telegram_bot.py:50-101 | there is one entry per handler, in the grouping's order, holding a one-element list with that handler's message |
| TelegramBot.MessageNotBlank | telegram_bot.py:60-98 | a rendered message is never blank, so delivery never skips it as empty |
| TelegramBot.ActionableRendering | telegram_bot.py:66-92 | when the filter and the renderer read the same date, an actionable record renders as due today or later (never "Past due!" or "No due date") and never as "checked and handed over" |
| TelegramBot.ContinueStep | telegram_bot.py:121-135 | one attempt: a success or a permanent failure ends the delivery after that send; a transient failure records the send and its sleep and continues with the next attempt |
| TelegramBot.Pause | telegram_bot.py:125-131 | the sleep after a transient failure: the retry_after the server asks for, or RETRY_DELAY_SECONDS after a network error |
| TelegramBot.Deliver | telegram_bot.py:119-135 | the retry state machine as a function of the attempt count and the transport's replies; `TelegramBot.DeliverBounds`, `TelegramBot.DeliveredIff` and `TelegramBot.SendWithRetry` state its behaviour |
| TelegramBot.SendWithRetry | telegram_bot.py:119-135 | the retry loop produces the sends, sleeps, reply count and outcome of the delivery function |
| TelegramBot.CountSendsAppend | telegram_bot.py:123 | sends add up over concatenated event lists |
| TelegramBot.DeliverBounds | telegram_bot.py:119-135 | a message is sent at most MAX_RETRIES times, and one transport reply is consumed per send |
| TelegramBot.DeliverSendsOnly | telegram_bot.py:123 | every send of a delivery is this message to this chat |
| TelegramBot.DeliveredIff | telegram_bot.py:119-135 | a message goes through exactly when, within the attempts left, some reply is a success and every earlier reply was a rate limit or a network error |
| TelegramBot.TransientStep | telegram_bot.py:126-131 | after a transient failure, succeeding from the current reply on is succeeding from the next reply on |
| TelegramBot.RateLimitedTwiceThenSent | telegram_bot.py:121-135 | rate-limited twice and then accepted gives three sends, with the two requested sleeps in between |
| TelegramBot.PermanentFailureStops | telegram_bot.py:132-134 | a permanent failure abandons the message after its single send |
| TelegramBot.AlwaysTransientGivesUp | telegram_bot.py:121-135 | a transport that keeps failing transiently sees exactly MAX_RETRIES sends, and then the message is abandoned |
| TelegramBot.DeliverAllStep | telegram_bot.py:114-117 | a blank message is skipped; a non-blank one is delivered and the rest follow |
| TelegramBot.DeliverAll | telegram_bot.py:113-135 | the messages of one handler in order, blank ones skipped, each delivered from the next unused reply; `TelegramBot.DeliverAllSends` bounds what it sends |
| TelegramBot.ChatId | telegram_bot.py:108-111 | the handler's chat id when it is listed and non-zero, none otherwise |
| TelegramBot.SendAll | telegram_bot.py:107-135 | every handler in the messages' order, skipped without a chat id; `TelegramBot.SendAllSends` bounds what it sends |
| TelegramBot.SendAllStep | telegram_bot.py:108-112 | a handler without a truthy id is skipped; otherwise its messages are delivered and the rest follow |
| TelegramBot.SendToHandler | telegram_bot.py:114-135 | the message loop for one handler produces the events of delivering each non-blank message in turn |
| TelegramBot.SendMessages | telegram_bot.py:104-135 | send_messages produces the events of the whole run, handler by handler in the messages' order |
| TelegramBot.DeliverAllSends | telegram_bot.py:114-123 | every send for a handler goes to its chat with one of its non-blank messages |
| TelegramBot.SendAllSends | telegram_bot.py:104-123 | every send goes to the truthy id of a listed handler and carries one of that handler's non-blank messages: unlisted handlers and blank messages are never sent |
| TelegramBot.DeliverFirstSend | telegram_bot.py:118-123 | the retry loop always makes its first send, since attempts starts at 0 < MAX_RETRIES |
| TelegramBot.DeliverAllAttempts | telegram_bot.py:113-123 | every non-blank message of a handler is sent to its chat at least once |
| TelegramBot.SendAllAttempts | telegram_bot.py:107-123 | the converse of `TelegramBot.SendAllSends`: every non-blank message of every handler with a truthy id is sent to that id at least once |

## Left out

- Google Sheets access is left out: credentials, building the service, the per-range request, and the try/except that turns a failed range into an empty one. The fetched ranges are the parameter `columns`. A failed range is simply an empty column.
- The sheet name, the range list and the environment variables are left out, together with `load_dotenv`. Only the range count, 6, is kept.
- `datetime.now()` is a parameter `today`, a day number. Its `strftime('%Y-%m-%d')` rendering is the parameter `todayStr`.
- TelegramBot.ActionableRendering: the source reads the clock twice, once in `filter_not_yet` (google_sheets_handler.py:95) and once in `generate_messages` (telegram_bot.py:56). The lemma takes one `today` for both, so it assumes both reads fall on the same day. In a run that crosses midnight, a record due on the day it was filtered renders as "Past due!".
- `str()` of a date is the function parameter `isoDate`.
- `dateutil`'s `parse` is a parameter `parse: string -> Option<int>`. `None` stands for the exception it raises. The date grammar it accepts is not modelled.
- StrOps.Title: its contract states only that the length is kept; the per-character rule is stated by its definition alone.
- `lower` and `title` are modelled for ASCII letters only. The model uses Python's full whitespace set for `strip`. Unicode case mapping is left out.
- `re.sub` is modelled by the character-level functions it computes: `Ingest.CollapseSeparators` and `TelegramBot.Escape`. Regular expressions in general are not modelled.
- SheetsHandler.Coerce: the source overwrites `checked`, `handOver` and `dueDate` in place in the record dict. The model builds the coerced record from the raw one instead, because the overwrite changes the field types. Aliasing between the list and the records is therefore not captured.
- Records are unordered maps. Field order is only visible in `print_grouped_data`, which is left out along with the rest of the logging.
- SheetsHandler.FilterNotYet: requires every dueDate to be missing, None or a date. The source raises `TypeError` on any other value, and coerced records always meet this (`SheetsHandler.CoerceAllTyped`).
- TelegramBot.HandlerMessage and TelegramBot.Block: require a dueDate that is a date or falsy. The subtraction in the source raises on anything else.
- TelegramBot.GenerateMessages: its loop is the generic `Collections.MapValuesEach` applied to the one-message function of a handler. It does not call `TelegramBot.HandlerMessage`, which is proved to compute that same message.
- The Telegram bot object, `send_message` and `parse_mode` are replaced by a transport parameter. `transport(n)` is the reply to the n-th send of the run. Sleeping is recorded as a `Sleep` event rather than performed.
- The retry delay is taken as a number of seconds. A `retry_after` given as a time span is not modelled.
- MarkdownV2 rendering on the Telegram side is not modelled. `TelegramBot.Unescape` only drops each backslash that precedes a special character.
- TelegramBot.Escape: a backslash in the input is not escaped, because it is not among escape_chars (`TelegramBot.BackslashNotEscaped`). MarkdownV2 reads a backslash before any character as an escape, so such a text may render differently from its input; the model proves the round trip through `TelegramBot.Unescape` only.
- `load_telegram_ids` is left out. The directory is the parameter `ids`. So is `main`, including its early exit on an empty directory.
- Logging and stack traces are left out.
- The standalone `main` and `print_grouped_data` of the two sheet modules are left out.
