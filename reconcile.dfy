/**
 * The per-row reconciliation of the message export: for every joined
 * message/handle row, in ROWID order, the row-gap count, the direction,
 * the sent time, the displayed text, the read status, the edited time and
 * the edited text.
 */
module Reconcile {
  import opened Wrappers
  import opened TimeCodec
  import opened Display
  import opened Archive
  import opened SummaryInfo

  /**
   * The columns of one joined row that the program reads; a NULL column is
   * None. `rowId` and `service` are the message table's columns (a lookup
   * by name in a joined row returns the first column of that name).
   */
  datatype Row = Row(
    rowId: int,
    isFromMe: Option<int>,
    handle: string,
    service: Option<string>,
    date: int,
    dateRead: Option<int>,
    isRead: Option<int>,
    dateEdited: Option<int>,
    text: Option<string>,
    summaryInfo: Option<map<string, Plist>>)

  /**
   * One output line's fields. `rowGap` is the number of ROWIDs missing
   * before this row; the line carries a row-gap marker exactly when it is
   * positive.
   */
  datatype Record = Record(
    rowGap: nat,
    rowId: int,
    fromTo: string,
    counterparty: string,
    service: string,
    date: string,
    text: string,
    readTime: string,
    dateEdited: string,
    textEdited: string)

  /** Python truthiness of a nullable integer column: NULL and 0 are false. */
  predicate Truthy(x: Option<int>) {
    x.Some? && x.value != 0
  }

  /** `f'{service}'`: a NULL service renders as "None". */
  function ServiceName(service: Option<string>): string {
    match service
    case Some(s) => s
    case None => "None"
  }

  predicate WellShapedRow(row: Row) {
    row.summaryInfo.Some? ==> WellShaped(row.summaryInfo.value)
  }

  // ---------------------------------------------------------------- row gaps

  /** The missing-ROWID count before a row, given the ROWID of the row before it. */
  function RowGap(lastRowId: int, rowId: int): (g: nat)
    ensures rowId > lastRowId ==> lastRowId + g + 1 == rowId
    ensures rowId <= lastRowId ==> g == 0
  {
    if rowId - lastRowId - 1 > 0 then rowId - lastRowId - 1 else 0
  }

  /** The counter's value when row `i` is reached: 0 at the start, then the previous row's ROWID. */
  function PrevRowId(rows: seq<Row>, i: int): int
    requires 0 <= i <= |rows|
  {
    if i == 0 then 0 else rows[i - 1].rowId
  }

  predicate StrictlyAscending(rows: seq<Row>) {
    forall i, j :: 0 <= i < j < |rows| ==> rows[i].rowId < rows[j].rowId
  }

  function SumRowGaps(records: seq<Record>): int {
    if records == [] then 0 else SumRowGaps(records[..|records| - 1]) + records[|records| - 1].rowGap
  }

  // ---------------------------------------------------------------- direction

  /** "To" for a message sent from this device, "From" for everything else. */
  function FromTo(isFromMe: Option<int>): (d: string)
    ensures d == "To" <==> isFromMe == Some(1)
    ensures d != "To" ==> d == "From"
  {
    if isFromMe == Some(1) then "To" else "From"
  }

  // ---------------------------------------------------------------- read status

  datatype ReadStatus =
    | ReadAt(unixTime: real)
    | ReadTimeUnavailable
    | NoReadReceipts
    | Unread
    | UnknownService(name: string)

  /** Services without read receipts. */
  predicate NoReceiptService(service: Option<string>) {
    service == Some("SMS") || service == Some("MMS")
  }

  /** Services with read receipts. */
  predicate ReceiptService(service: Option<string>) {
    service == Some("iMessage") || service == Some("RCS")
  }

  /** Which of the five read-status outcomes a row gets; exactly one condition below holds. */
  function DecideReadStatus(row: Row): (st: ReadStatus)
    ensures st.ReadAt? <==> Truthy(row.dateRead)
    ensures st.ReadAt? ==> st.unixTime == MacAbsTimeToUnixTime(row.dateRead.value)
    ensures st.ReadTimeUnavailable? <==> !Truthy(row.dateRead) && row.isRead == Some(1)
    ensures st.NoReadReceipts? <==>
      !Truthy(row.dateRead) && row.isRead != Some(1) && NoReceiptService(row.service)
    ensures st.Unread? <==>
      !Truthy(row.dateRead) && row.isRead != Some(1) && ReceiptService(row.service)
    ensures st.UnknownService? <==>
      !Truthy(row.dateRead) && row.isRead != Some(1) && !NoReceiptService(row.service) && !ReceiptService(row.service)
    ensures st.UnknownService? ==> st.name == ServiceName(row.service)
  {
    if Truthy(row.dateRead) then ReadAt(MacAbsTimeToUnixTime(row.dateRead.value))
    else if row.isRead == Some(1) then ReadTimeUnavailable
    else if NoReceiptService(row.service) then NoReadReceipts
    else if ReceiptService(row.service) then Unread
    else UnknownService(ServiceName(row.service))
  }

  /**
   * The read-time column for a read status: the rendered read time, or a
   * placeholder that, for an unknown service, names the service.
   */
  function ReadTimeText(clock: real -> string, st: ReadStatus): (s: string)
    ensures st.ReadAt? ==> s == UnixTimeToString(clock, st.unixTime)
    ensures st.UnknownService? ==>
      |s| >= |UnknownServicePrefix| + |UnknownServiceSuffix|
      && s[|UnknownServicePrefix|..|s| - |UnknownServiceSuffix|] == st.name
  {
    match st
    case ReadAt(t) => UnixTimeToString(clock, t)
    case ReadTimeUnavailable => ReadTimeUnavailableNote
    case NoReadReceipts => NoReadReceiptsNote
    case Unread => UnreadNote
    case UnknownService(name) => UnknownServiceNote(name)
  }

  // ---------------------------------------------------------------- times and texts

  /** The edited-time column: a rendered time when the column is truthy, else empty. */
  function EditedTime(clock: real -> string, dateEdited: Option<int>): (s: string)
    ensures s == "" <==> !Truthy(dateEdited)
  {
    if Truthy(dateEdited) then UnixTimeToString(clock, MacAbsTimeToUnixTime(dateEdited.value)) else ""
  }

  /** The unarchived stream of one version slot, when the row has an edit history. */
  function SlotArchive(row: Row, unarchive: Bytes -> seq<Content>, slot: nat): (r: Option<seq<Content>>)
    requires WellShapedRow(row) && slot < 2
    ensures r.Some? <==> row.summaryInfo.Some? && HasEditHistory(row.summaryInfo.value)
    ensures r.Some? ==> r.value == unarchive(VersionBlob(row.summaryInfo.value, slot))
  {
    if row.summaryInfo.Some? && HasEditHistory(row.summaryInfo.value)
    then Some(unarchive(VersionBlob(row.summaryInfo.value, slot)))
    else None
  }

  /** The string recovered from one version slot, if any. */
  function Decoded(row: Row, unarchive: Bytes -> seq<Content>, slot: nat): (r: Option<string>)
    requires WellShapedRow(row) && slot < 2
    ensures SlotArchive(row, unarchive, slot).None? ==> r.None?
    ensures SlotArchive(row, unarchive, slot).Some? ==> r == LastContentMatch(SlotArchive(row, unarchive, slot).value)
  {
    match SlotArchive(row, unarchive, slot)
    case Some(contents) => LastContentMatch(contents)
    case None => None
  }

  /**
   * The text column by precedence: a string recovered from the original
   * slot, else the row's own text, else the cleared-upon-unsent placeholder
   * when the message has an edited time, else empty.
   */
  function DisplayedText(row: Row, original: Option<string>): (s: string)
    ensures original.Some? ==> s == Quote(original.value)
    ensures original.None? && row.text.Some? ==> s == Quote(row.text.value)
    ensures s == "" <==> original.None? && row.text.None? && !Truthy(row.dateEdited)
    ensures s == ClearedUponUnsent <==> original.None? && row.text.None? && Truthy(row.dateEdited)
  {
    if original.Some? then Quote(original.value)
    else if row.text.Some? then Quote(row.text.value)
    else if Truthy(row.dateEdited) then ClearedUponUnsent
    else ""
  }

  /**
   * The edited-text column by precedence: a string recovered from the
   * edited slot, else the unsent placeholder when the row has no text and
   * an edited time, else empty.
   */
  function DisplayedEditedText(row: Row, edited: Option<string>): (s: string)
    ensures edited.Some? ==> s == Quote(edited.value)
    ensures s == UnsentMarker <==> edited.None? && row.text.None? && Truthy(row.dateEdited)
    ensures s == "" <==> edited.None? && !(row.text.None? && Truthy(row.dateEdited))
  {
    if edited.Some? then Quote(edited.value)
    else if row.text.None? && Truthy(row.dateEdited) then UnsentMarker
    else ""
  }

  /**
   * The record a row yields when the counter holds `lastRowId`: ROWID,
   * counterparty and service copied from the row, a gap marker exactly when
   * ROWIDs were skipped since the counter, and a rendered sent time.
   */
  function RecordOf(row: Row, lastRowId: int, clock: real -> string, unarchive: Bytes -> seq<Content>): (r: Record)
    requires WellShapedRow(row)
    ensures r.rowId == row.rowId && r.counterparty == row.handle && r.service == ServiceName(row.service)
    ensures r.rowGap > 0 <==> row.rowId > lastRowId + 1
    ensures |r.date| >= 4 && r.date[|r.date| - 4..] == " UTC"
  {
    Record(
      RowGap(lastRowId, row.rowId),
      row.rowId,
      FromTo(row.isFromMe),
      row.handle,
      ServiceName(row.service),
      UnixTimeToString(clock, MacAbsTimeToUnixTime(row.date)),
      DisplayedText(row, Decoded(row, unarchive, 0)),
      ReadTimeText(clock, DecideReadStatus(row)),
      EditedTime(clock, row.dateEdited),
      DisplayedEditedText(row, Decoded(row, unarchive, 1)))
  }

  // ---------------------------------------------------------------- properties

  /**
   * With ROWIDs strictly ascending from at least 1, the counts reported in
   * the records add up to the ROWIDs skipped: last ROWID minus row count.
   */
  lemma {:induction false} ReportedGapsSum(rows: seq<Row>, records: seq<Record>)
    requires |rows| > 0 && |records| == |rows|
    requires StrictlyAscending(rows) && rows[0].rowId >= 1
    requires forall i {:trigger records[i]} :: 0 <= i < |rows| ==> records[i].rowGap == RowGap(PrevRowId(rows, i), rows[i].rowId)
    ensures SumRowGaps(records) == rows[|rows| - 1].rowId - |rows|
  {
    var n := |rows| - 1;
    if n > 0 {
      var rows', records' := rows[..n], records[..n];
      forall i | 0 <= i < n
        ensures records'[i].rowGap == RowGap(PrevRowId(rows', i), rows'[i].rowId)
      {
        assert records'[i] == records[i] && PrevRowId(rows', i) == PrevRowId(rows, i);
      }
      ReportedGapsSum(rows', records');
      assert rows[n - 1].rowId < rows[n].rowId;
    }
  }

  /** The gaps of ROWIDs 1, 2, 5, 6 and of 10, 11, 13 as the counter computes them. */
  lemma GapExamples()
    ensures RowGap(0, 1) == 0 && RowGap(1, 2) == 0 && RowGap(2, 5) == 2 && RowGap(5, 6) == 0
    ensures RowGap(0, 10) == 9 && RowGap(10, 11) == 0 && RowGap(11, 13) == 1
  {
  }

  lemma PlaceholdersAreNotQuoted(s: string)
    ensures Quote(s) != ClearedUponUnsent && Quote(s) != UnsentMarker
    ensures ClearedUponUnsent != "" && UnsentMarker != ""
  {
  }

  /**
   * The text column is empty exactly when the row has no text, no edited
   * time and nothing was recovered from the original slot.
   */
  lemma TextEmptyExactly(row: Row, lastRowId: int, clock: real -> string, unarchive: Bytes -> seq<Content>)
    requires WellShapedRow(row)
    ensures RecordOf(row, lastRowId, clock, unarchive).text == "" <==>
      row.text.None? && !Truthy(row.dateEdited) && Decoded(row, unarchive, 0).None?
  {
  }

  /**
   * The edited-text column shows the unsent placeholder exactly when the
   * row has no text, has an edited time, and nothing was recovered from
   * the edited slot.
   */
  lemma UnsentExactly(row: Row, lastRowId: int, clock: real -> string, unarchive: Bytes -> seq<Content>)
    requires WellShapedRow(row)
    ensures RecordOf(row, lastRowId, clock, unarchive).textEdited == UnsentMarker <==>
      row.text.None? && Truthy(row.dateEdited) && Decoded(row, unarchive, 1).None?
  {
  }

  /**
   * A string recovered from the original slot is what the text column
   * shows, whatever the row's own text and whether or not the message was
   * unsent; the edited slot alone decides the edited text in the same way.
   */
  lemma RecoveredTextWins(row: Row, lastRowId: int, clock: real -> string, unarchive: Bytes -> seq<Content>)
    requires WellShapedRow(row)
    ensures Decoded(row, unarchive, 0).Some? ==>
      RecordOf(row, lastRowId, clock, unarchive).text == Quote(Decoded(row, unarchive, 0).value)
    ensures Decoded(row, unarchive, 1).Some? ==>
      RecordOf(row, lastRowId, clock, unarchive).textEdited == Quote(Decoded(row, unarchive, 1).value)
  {
  }

  /**
   * The text column depends on the original slot only and the edited-text
   * column on the edited slot only: two unarchivers that agree on one slot
   * give the same column for it.
   */
  lemma SlotsIndependent(row: Row, lastRowId: int, clock: real -> string, u1: Bytes -> seq<Content>, u2: Bytes -> seq<Content>)
    requires WellShapedRow(row)
    ensures SlotArchive(row, u1, 0) == SlotArchive(row, u2, 0) ==>
      RecordOf(row, lastRowId, clock, u1).text == RecordOf(row, lastRowId, clock, u2).text
    ensures SlotArchive(row, u1, 1) == SlotArchive(row, u2, 1) ==>
      RecordOf(row, lastRowId, clock, u1).textEdited == RecordOf(row, lastRowId, clock, u2).textEdited
  {
  }

  /** A placeholder read status never looks like a rendered time: placeholders end in ']', times in " UTC". */
  lemma PlaceholderEndsInBracket(clock: real -> string, st: ReadStatus)
    requires !st.ReadAt?
    ensures var s := ReadTimeText(clock, st); |s| > 0 && s[|s| - 1] == ']'
  {
  }

  /**
   * The read-time column shows a rendered time exactly when date_read is
   * truthy; otherwise it shows one of the placeholders.
   */
  lemma ReadTimeIsTimeExactly(row: Row, lastRowId: int, clock: real -> string, unarchive: Bytes -> seq<Content>)
    requires WellShapedRow(row)
    ensures var s := RecordOf(row, lastRowId, clock, unarchive).readTime;
      (|s| >= 4 && s[|s| - 4..] == " UTC") <==> Truthy(row.dateRead)
  {
    var st := DecideReadStatus(row);
    var s := ReadTimeText(clock, st);
    if !st.ReadAt? {
      PlaceholderEndsInBracket(clock, st);
      if |s| >= 4 {
        assert s[|s| - 4..][3] == s[|s| - 1];
      }
    }
  }

  /**
   * Distinct placeholder statuses render as distinct texts, so the
   * read-time column tells which branch of the decision was taken (and,
   * for an unknown service, which service).
   */
  lemma PlaceholdersDistinct(clock: real -> string, a: ReadStatus, b: ReadStatus)
    requires !a.ReadAt? && !b.ReadAt? && a != b
    ensures ReadTimeText(clock, a) != ReadTimeText(clock, b)
  {
  }

  // ---------------------------------------------------------------- the row walk

  /**
   * The text and edited text of one row, reassigned step by step: the
   * quoted row text, the unsend placeholders when the message has an
   * edited time but no text, then the scans of the original and edited
   * archives, each of which overwrites its variable when it finds a string.
   */
  method ResolveTexts(row: Row, clock: real -> string, unarchive: Bytes -> seq<Content>)
    returns (text: string, textEdited: string)
    requires WellShapedRow(row)
    ensures text == DisplayedText(row, Decoded(row, unarchive, 0))
    ensures textEdited == DisplayedEditedText(row, Decoded(row, unarchive, 1))
  {
    text := if row.text.Some? then Quote(row.text.value) else "";
    var dateEdited := EditedTime(clock, row.dateEdited);
    textEdited := "";
    assert text == "" <==> row.text.None?;

    if dateEdited != "" && text == "" {
      text := ClearedUponUnsent;
      textEdited := UnsentMarker;
    }
    assert text == DisplayedText(row, None) && textEdited == DisplayedEditedText(row, None);

    if row.summaryInfo.Some? {
      var info := row.summaryInfo.value;
      if HasEditHistory(info) {
        text := ExtractText(unarchive(VersionBlob(info, 0)), text);
        textEdited := ExtractText(unarchive(VersionBlob(info, 1)), textEdited);
      }
    }
  }

  /**
   * The body of the row loop: the gap count against the counter, then each
   * column of the line.
   */
  method ReconcileRow(row: Row, lastRowId: int, clock: real -> string, unarchive: Bytes -> seq<Content>)
    returns (rec: Record)
    requires WellShapedRow(row)
    ensures rec == RecordOf(row, lastRowId, clock, unarchive)
  {
    var rowIdDiff := row.rowId - lastRowId - 1;
    var rowGap: nat := if rowIdDiff > 0 then rowIdDiff else 0;

    var fromTo := FromTo(row.isFromMe);
    var date := UnixTimeToString(clock, MacAbsTimeToUnixTime(row.date));
    var readTime := ReadTimeText(clock, DecideReadStatus(row));
    var dateEdited := EditedTime(clock, row.dateEdited);
    var text, textEdited := ResolveTexts(row, clock, unarchive);

    rec := Record(rowGap, row.rowId, fromTo, row.handle, ServiceName(row.service),
                  date, text, readTime, dateEdited, textEdited);
  }

  /**
   * The row loop: one record per row, in row order, with the gap counter
   * carried from each row to the next.
   */
  method ParseRows(rows: seq<Row>, clock: real -> string, unarchive: Bytes -> seq<Content>)
    returns (records: seq<Record>)
    requires forall i :: 0 <= i < |rows| ==> WellShapedRow(rows[i])
    ensures |records| == |rows|
    ensures forall i {:trigger records[i]} :: 0 <= i < |rows| ==> records[i] == RecordOf(rows[i], PrevRowId(rows, i), clock, unarchive)
  {
    records := [];
    var lastRowId := 0;
    for n := 0 to |rows|
      invariant |records| == n
      invariant lastRowId == PrevRowId(rows, n)
      invariant forall i {:trigger records[i]} :: 0 <= i < n ==> records[i] == RecordOf(rows[i], PrevRowId(rows, i), clock, unarchive)
    {
      var rec := ReconcileRow(rows[n], lastRowId, clock, unarchive);
      ghost var done := records;
      records := records + [rec];
      assert forall i :: 0 <= i < n ==> records[i] == done[i];
      lastRowId := rows[n].rowId;
    }
  }
}
