# parse_sms.db — a verified model of the message reconciliation

`parse_sms.db.py` reads an iOS `sms.db`. It joins every message with its
handle in ROWID order and writes one CSV line per message that has a
matching handle row. Each line holds
the row-gap marker, ROWID, direction, counterparty, service, sent time,
text, read time, edited time and edited text. This project models the
per-row logic of that loop in Dafny and proves what it computes.

- `TimeCodec` (time_codec.dfy): `macAbsTimeToUnixTime`, which reads a value
  above 0xFFFFFFFF as nanoseconds and anything else as seconds, then adds
  978307200. It also has `unixTimeToString`, whose calendar part is a
  parameter.
- `Display` (display.dfy): quoting and the placeholder texts ("cleared
  upon unsent", "unsent", the four read-status placeholders).
- `Archive` (archive.dfy): the shape of what the typedstream unarchiver
  returns (contents, each with values that may carry `archived_name` and
  `value`). It also holds the nested scan for an `NSString` or
  `NSMutableString` payload, kept as two loops where `break` leaves only
  the inner one.
- `SummaryInfo` (summary_info.dfy): the decoded `message_summary_info`
  property list and the `ec` → `0` → `[0]`/`[1]` → `t` lookup.
- `Reconcile` (reconcile.dfy): the row and record types, the specification
  of each column (`RecordOf`), the imperative loop body (`ReconcileRow`)
  and the row loop with its ROWID gap counter (`ParseRows`). Both methods
  are proved equal to `RecordOf`. The lemmas prove the gap sum, the text
  precedence and that the read-status branches can be told apart.

Where the code and a plain reading of its purpose differ, the model follows
the code:
- The scan does not return the first qualifying value of the whole stream.
  It returns the first one of the **last** content that has one, because a
  later content overwrites the variable (`LastContentMatch`,
  `LaterContentWins`).
- The counter starts at 0, so the first row reports `ROWID - 1` missing
  rows. ROWIDs 10, 11, 13 give gaps 9, 0, 1, not 0, 0, 1 (`GapExamples`).
- The program has no error handling around the property-list and
  typedstream decoders. A malformed blob stops the run; it is not treated
  as "nothing recovered". The model takes the unarchiver as a total
  function. It states as a precondition exactly the lookups that would
  raise (`WellShaped`).

## Model

| member | source | states |
|---|---|---|
| TimeCodec.MacAbsTimeToUnixTime | parse_sms.db.py:29-35 | above 0xFFFFFFFF (strictly) the result minus 978307200, times 1e9, is the input; otherwise the result minus 978307200 is the input |
| TimeCodec.UnixTimeToString | parse_sms.db.py:37-38 | a rendered time is the calendar text followed by the format's literal " UTC", so it is never empty |
| TimeCodec.ConversionAtBoundaries | parse_sms.db.py:29-35 | 0 maps to 978307200; 0xFFFFFFFF is still seconds; 0x100000000 is nanoseconds |
| TimeCodec.SameInstantEitherEncoding | parse_sms.db.py:31-35 | an instant from 5 s to 0xFFFFFFFF s after 2001 converts to the same Unix time whether stored as seconds or nanoseconds |
| TimeCodec.SmallNanosecondCountsReadAsSeconds | parse_sms.db.py:31-32 | a nanosecond count of 1 to 4 s is not above the ceiling and is misread as seconds |
| TimeCodec.MonotoneWithinEncoding | parse_sms.db.py:29-35 | within one encoding a later instant never converts to an earlier Unix time |
| Display.Quote | parse_sms.db.py:83 | the quoted text is the text between two double quotes, two characters longer |
| Display.QuoteInjective | parse_sms.db.py:118 | different texts give different quoted texts |
| Display.UnknownServiceNote | parse_sms.db.py:96 | the unknown-service placeholder embeds the service name at a fixed position |
| Display.UnknownServiceNoteInjective | parse_sms.db.py:96 | the unknown-service placeholder names its service unambiguously |
| Archive.FirstMatchIndex | parse_sms.db.py:113-119 | the position where the inner scan stops: no value before it qualifies (both attributes present, string class name, payload not None) and the value there does, or the end when none does |
| Archive.FirstMatchAt | parse_sms.db.py:113-119 | a qualifying value with no qualifying value before it is the one the inner scan reports |
| Archive.LastMatchIndex | parse_sms.db.py:112-119 | the last content with a qualifying value, or -1: no later content has one |
| Archive.ExtractText | parse_sms.db.py:112-119 | the nested loops with inner-only break leave the quoted first match of the last content that has one, or the variable's prior value when nothing qualifies |
| Archive.LaterContentWins | parse_sms.db.py:112-119 | a match in a later part of the stream overrides every earlier one |
| Archive.NoLaterMatchKeepsEarlier | parse_sms.db.py:112-119 | contents without a match leave the earlier result unchanged |
| Reconcile.FromTo | parse_sms.db.py:79 | "To" exactly when is_from_me is 1; "From" for every other value, NULL included |
| Reconcile.DecideReadStatus | parse_sms.db.py:84-96 | truthy date_read gives its time; else is_read 1 gives read-without-time; else SMS/MMS give no-receipts, iMessage/RCS give unread, any other service (NULL too) gives unknown naming it; exactly one applies |
| Reconcile.EditedTime | parse_sms.db.py:98 | the edited-time column is empty exactly when date_edited is NULL or 0 |
| SummaryInfo.ZeroIn | parse_sms.db.py:109 | Python's `'0' in x`: a key test on a dictionary, an element test on a list, a substring test on a string |
| SummaryInfo.HasEditHistory | parse_sms.db.py:109 | the guard holds exactly when "ec" is present and `'0' in info['ec']` holds; without "ec" it is false |
| SummaryInfo.VersionBlob | parse_sms.db.py:111-121 | `info['ec']['0'][slot]['t']`: "ec" is a dictionary holding "0", and the blob is the data stored under `t` in version `slot` |
| SummaryInfo.ZeroTestOnOtherContainers | parse_sms.db.py:109 | a list or string under "ec" without "0" is accepted and yields no edit history |
| Archive.Qualifies | parse_sms.db.py:115-117 | a value lacking either attribute is skipped; one with both qualifies exactly when its class name is NSMutableString or NSString and its payload is not None |
| Archive.LastContentMatch | parse_sms.db.py:112-119 | nothing when no content matches; otherwise the first match of the last content that has one |
| Reconcile.RowGap | parse_sms.db.py:75-76 | for a larger ROWID, the count of ROWIDs strictly between the counter and it; 0 (no marker) for an equal or smaller ROWID |
| Reconcile.ReadTimeText | parse_sms.db.py:85-96 | a read status renders as its formatted read time, or as a placeholder; the unknown-service placeholder carries the service name |
| Reconcile.SlotArchive | parse_sms.db.py:107-121 | a version slot is unarchived exactly when the summary info is non-null and passes the `ec`/`0` guard, and then it is the decoder's output on that slot's blob |
| Reconcile.Decoded | parse_sms.db.py:107-121 | nothing is recovered from a slot that is not unarchived; otherwise the recovered string is the last-content match of the slot's contents |
| Reconcile.DisplayedText | parse_sms.db.py:83-118 | a recovered original is shown quoted; with nothing recovered, the row's own text is shown quoted; the column is empty exactly when there is no recovered text, no row text and no edited time, and is the cleared placeholder exactly when only the edited time is there |
| Reconcile.DisplayedEditedText | parse_sms.db.py:99-128 | a recovered edited text is shown quoted; else the unsent placeholder exactly when the row text is NULL and date_edited truthy; else empty |
| Reconcile.RecordOf | parse_sms.db.py:74-131 | ROWID, counterparty and service come from the row; the gap marker appears exactly when ROWIDs were skipped since the counter; the sent time is a rendered UTC time |
| Reconcile.ResolveTexts | parse_sms.db.py:83-129 | the step-by-step reassignments of text and edited text (quoted row text, unsend placeholders, the two archive scans) end at the precedence `DisplayedText` / `DisplayedEditedText` states: recovered string, else row text, else placeholder, else empty |
| Reconcile.ReconcileRow | parse_sms.db.py:74-131 | the loop body's step-by-step assignments produce the record `RecordOf` specifies, with text and edited text by precedence |
| Reconcile.ParseRows | parse_sms.db.py:72-77 | one record per row in row order; row i is reconciled with the counter at 0 for the first row and the previous ROWID after |
| Reconcile.ReportedGapsSum | parse_sms.db.py:68-77 | with ROWIDs strictly ascending from at least 1, the reported missing counts sum to the last ROWID minus the number of rows |
| Reconcile.GapExamples | parse_sms.db.py:75-76 | ROWIDs 1,2,5,6 give gaps 0,0,2,0; ROWIDs 10,11,13 give 9,0,1 |
| Reconcile.PlaceholdersAreNotQuoted | parse_sms.db.py:101-104 | the unsend placeholders are non-empty and never equal a quoted text |
| Reconcile.TextEmptyExactly | parse_sms.db.py:83-118 | the text column is empty exactly when the row text is NULL, date_edited is falsy and the original slot yields nothing |
| Reconcile.UnsentExactly | parse_sms.db.py:98-128 | the edited text is the unsent placeholder exactly when the row text is NULL, date_edited is truthy and the edited slot yields nothing |
| Reconcile.RecoveredTextWins | parse_sms.db.py:101-129 | a string recovered from slot 0 replaces the text, placeholder included; one from slot 1 replaces the edited text |
| Reconcile.SlotsIndependent | parse_sms.db.py:109-129 | the text depends only on slot 0's archive and the edited text only on slot 1's |
| Reconcile.PlaceholderEndsInBracket | parse_sms.db.py:88-96 | with any time renderer, every read-status placeholder ends in ']' |
| Reconcile.ReadTimeIsTimeExactly | parse_sms.db.py:84-96 | the read-time column is a rendered time (ends in " UTC") exactly when date_read is truthy |
| Reconcile.PlaceholdersDistinct | parse_sms.db.py:88-96 | different placeholder statuses render differently, so the column tells which branch was taken |

## Left out

- The typedstream decoder (`typedstream.unarchive_from_data`) is third-party code and is not part of this model. The model uses only the shape of its output, and the decoder is a parameter `unarchive`. It is total in the model, so a decode failure (which stops the program) is not modelled.
- The property-list parser (`plistlib.loads`) is not modelled. A row carries the already-decoded top-level dictionary. A summary blob whose top level is not a dictionary is not modelled.
- Reconcile.ParseRows, Reconcile.ReconcileRow and Reconcile.ResolveTexts: require every row's summary info to be `WellShaped`. The requirement has two parts. First, when `ec` is present, `'0' in ec` must be defined, so `ec` is a dictionary, a list or a string. Second, when that test holds, `ec['0']` must be a list of at least two dictionaries that each hold a `t` blob. The program raises in every other case, so no row it completes is excluded. A list or a string under `ec` that lacks "0" is accepted as having no edit history (`SummaryInfo.ZeroTestOnOtherContainers`).
- The calendar part of `unixTimeToString` (`datetime`/`strftime`) is the parameter `clock`. Only the format's literal " UTC" tail is modelled.
- TimeCodec.MacAbsTimeToUnixTime: the conversion is over exact reals. The IEEE rounding of `/ 1e9`, and the int-versus-float type of the result, are not modelled.
- The rows are the output of the inner join of `message` with `handle` (parse_sms.db.py:68). A message whose `handle_id` matches no handle row gets no line, and its ROWID counts as missing in the next line's row-gap marker, so a reported gap covers both deleted rows and rows the join filtered out.
- A NULL `date` column (the program raises a TypeError on it) is not modelled: `date` is an integer.
- The text of the row-gap marker and its colour codes are presentation. A record carries the missing count, and the marker is printed exactly when that count is positive.
- Not modelled because they are I/O: SQLite access, zip extraction to /tmp, argument parsing, the file-existence check and exit, the header line and the printing of each line.
- The colour constants other than the two inside the unsend placeholders are not modelled.
