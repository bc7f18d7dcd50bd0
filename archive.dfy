/**
 * The shape of what the typedstream unarchiver hands back, and the scan
 * that pulls a string out of it. An unarchived stream is a sequence of
 * top-level contents; each content has a sequence of values; a value may
 * or may not carry the attributes `archived_name` (a byte string or None)
 * and `value` (the payload or None). Only this output shape is modelled,
 * not the binary decoding that produces it.
 */
module Archive {
  import opened Wrappers
  import opened Display

  newtype byte = x: int | 0 <= x < 256
  type Bytes = seq<byte>

  /** Whether an object has a Python attribute at all (`hasattr`), and its value if so. */
  datatype Attr<T> = Absent | Present(get: T)

  datatype ArchivedValue = ArchivedValue(archivedName: Attr<Option<Bytes>>, value: Attr<Option<string>>)

  datatype Content = Content(values: seq<ArchivedValue>)

  /** The bytes of an ASCII text. */
  function Ascii(s: string): (b: Bytes)
    requires forall i :: 0 <= i < |s| ==> s[i] as int < 256
    ensures |b| == |s| && forall i :: 0 <= i < |s| ==> b[i] as int == s[i] as int
  {
    seq(|s|, i requires 0 <= i < |s| => s[i] as int as byte)
  }

  const NSMutableString: Bytes := Ascii("NSMutableString")
  const NSString: Bytes := Ascii("NSString")

  /**
   * A value the scan accepts. A value lacking either attribute is skipped
   * (the `continue`); one with both qualifies exactly when its class name is
   * one of the two string classes and its payload is not None.
   */
  predicate Qualifies(v: ArchivedValue)
    ensures !(v.archivedName.Present? && v.value.Present?) ==> !Qualifies(v)
    ensures v.archivedName.Present? && v.value.Present? ==>
      (Qualifies(v) <==> v.archivedName.get in {Some(NSMutableString), Some(NSString)} && v.value.get != None)
  {
    match (v.archivedName, v.value)
    case (Present(Some(name)), Present(Some(_))) => name == NSMutableString || name == NSString
    case _ => false
  }

  function Payload(v: ArchivedValue): string
    requires Qualifies(v)
  {
    v.value.get.value
  }

  /** Position of the first qualifying value of one content; `|values|` when there is none. */
  function FirstMatchIndex(values: seq<ArchivedValue>): (i: nat)
    ensures i <= |values|
    ensures forall j :: 0 <= j < i ==> !Qualifies(values[j])
    ensures i < |values| ==> Qualifies(values[i])
  {
    if |values| == 0 then 0
    else if Qualifies(values[0]) then 0
    else 1 + FirstMatchIndex(values[1..])
  }

  /** The payload of the first qualifying value of one content, if any. */
  function FirstMatch(values: seq<ArchivedValue>): Option<string> {
    var i := FirstMatchIndex(values);
    if i < |values| then Some(Payload(values[i])) else None
  }

  /** A qualifying value with none before it is the one the scan of its content stops at. */
  lemma FirstMatchAt(values: seq<ArchivedValue>, i: int)
    requires 0 <= i < |values| && Qualifies(values[i])
    requires forall j :: 0 <= j < i ==> !Qualifies(values[j])
    ensures FirstMatch(values) == Some(Payload(values[i]))
  {
  }

  /**
   * Position of the last content that has a match; -1 when none has. A
   * later content's match overwrites an earlier one, so this is the content
   * whose match the nested scan leaves behind.
   */
  function LastMatchIndex(contents: seq<Content>): (k: int)
    ensures -1 <= k < |contents|
    ensures forall m :: k < m < |contents| ==> FirstMatch(contents[m].values).None?
    ensures k >= 0 ==> FirstMatch(contents[k].values).Some?
  {
    if |contents| == 0 then -1
    else if FirstMatch(contents[|contents| - 1].values).Some? then |contents| - 1
    else LastMatchIndex(contents[..|contents| - 1])
  }

  /** `contents[k]` has a match and no later content has one. */
  predicate LastMatching(contents: seq<Content>, k: int) {
    && 0 <= k < |contents|
    && FirstMatch(contents[k].values).Some?
    && forall m :: k < m < |contents| ==> FirstMatch(contents[m].values).None?
  }

  /**
   * What the nested scan finds: nothing when no content has a match (by
   * LastMatchIndex's contract, an index of -1 says no content matches), and
   * otherwise the first match within the last content that has one.
   */
  function LastContentMatch(contents: seq<Content>): (r: Option<string>)
    ensures r.None? <==> LastMatchIndex(contents) < 0
    ensures r.Some? ==>
      LastMatching(contents, LastMatchIndex(contents)) && r == FirstMatch(contents[LastMatchIndex(contents)].values)
  {
    var k := LastMatchIndex(contents);
    if k >= 0 then FirstMatch(contents[k].values) else None
  }

  /** The new value of a text variable after a scan: the quoted find, or the old value when nothing was found. */
  function Override(found: Option<string>, prior: string): string {
    match found
    case Some(s) => Quote(s)
    case None => prior
  }

  /**
   * The scan over an unarchived stream. `text` starts as the variable's
   * current value and is overwritten with the quoted payload of each
   * qualifying value found; `break` leaves only the inner loop.
   */
  method ExtractText(contents: seq<Content>, prior: string) returns (text: string)
    ensures text == Override(LastContentMatch(contents), prior)
  {
    text := prior;
    for c := 0 to |contents|
      invariant text == Override(LastContentMatch(contents[..c]), prior)
    {
      ghost var before := text;
      var values := contents[c].values;
      var i := 0;
      while i < |values|
        invariant 0 <= i <= |values|
        invariant forall j :: 0 <= j < i ==> !Qualifies(values[j])
        invariant text == before
      {
        var v := values[i];
        if !(v.archivedName.Present? && v.value.Present?) {
          i := i + 1;
          continue;
        }
        if (v.archivedName.get == Some(NSMutableString) || v.archivedName.get == Some(NSString)) && v.value.get.Some? {
          text := Quote(v.value.get.value);
          FirstMatchAt(values, i);
          break;
        }
        i := i + 1;
      }
      assert contents[..c + 1][..c] == contents[..c];
    }
    assert contents[..|contents|] == contents;
  }

  /** A match in a later part of the stream always beats anything earlier. */
  lemma {:induction false} LaterContentWins(front: seq<Content>, back: seq<Content>)
    requires LastContentMatch(back).Some?
    ensures LastContentMatch(front + back) == LastContentMatch(back)
  {
    var n := |back| - 1;
    var all := front + back;
    assert all[|all| - 1] == back[n];
    if FirstMatch(back[n].values).None? {
      assert all[..|all| - 1] == front + back[..n];
      LaterContentWins(front, back[..n]);
    }
  }

  /** Without a later match, the stream's result is that of its first part. */
  lemma {:induction false} NoLaterMatchKeepsEarlier(front: seq<Content>, back: seq<Content>)
    requires LastContentMatch(back).None?
    ensures LastContentMatch(front + back) == LastContentMatch(front)
  {
    if |back| > 0 {
      var n := |back| - 1;
      var all := front + back;
      assert all[|all| - 1] == back[n];
      assert FirstMatch(back[n].values).None?;
      assert all[..|all| - 1] == front + back[..n];
      NoLaterMatchKeepsEarlier(front, back[..n]);
    } else {
      assert front + back == front;
    }
  }
}
