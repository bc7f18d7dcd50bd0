/**
 * The decoded `message_summary_info` property list and the lookup of the
 * edit history inside it: key "ec", sub-key "0", a list of versions whose
 * element 0 is the original and element 1 the edited version, each a
 * dictionary whose "t" entry is an archived attributed string. The
 * property-list parser itself is not modelled.
 */
module SummaryInfo {
  import opened Wrappers
  import opened Archive

  datatype Plist =
    | PDict(entries: map<string, Plist>)
    | PArray(items: seq<Plist>)
    | PData(data: Bytes)
    | PString(str: string)
    | PInteger(n: int)
    | PBoolean(b: bool)

  /**
   * The containers on which Python's `'0' in x` is defined: a dictionary
   * (key test), a list (element test) and a string (substring test). On
   * bytes, integers and booleans the test raises.
   */
  predicate SupportsIn(x: Plist) {
    x.PDict? || x.PArray? || x.PString?
  }

  /** `key` occurs in `s` starting at position `i`. */
  predicate SubstringAt(s: string, key: string, i: int) {
    0 <= i && i + |key| <= |s| && s[i..i + |key|] == key
  }

  /** Python's `'0' in x` on a container that supports it. */
  predicate ZeroIn(x: Plist)
    requires SupportsIn(x)
    ensures x.PDict? ==> (ZeroIn(x) <==> "0" in x.entries)
    ensures x.PArray? ==> (ZeroIn(x) <==> exists i :: 0 <= i < |x.items| && x.items[i] == PString("0"))
    ensures x.PString? ==> (ZeroIn(x) <==> exists i :: SubstringAt(x.str, "0", i))
  {
    match x
    case PDict(entries) => "0" in entries
    case PArray(items) => PString("0") in items
    case PString(str) =>
      if '0' in str then
        var i :| 0 <= i < |str| && str[i] == '0';
        assert SubstringAt(str, "0", i);
        true
      else
        assert forall i :: SubstringAt(str, "0", i) ==> str[i..i + 1][0] in str;
        false
  }

  /**
   * The guard that decides whether the edit history is read at all
   * (parse_sms.db.py:109): the info has an "ec" entry and "0" is in it.
   */
  predicate HasEditHistory(info: map<string, Plist>)
    requires "ec" in info ==> SupportsIn(info["ec"])
    ensures "ec" !in info ==> !HasEditHistory(info)
    ensures "ec" in info ==> (HasEditHistory(info) <==> ZeroIn(info["ec"]))
  {
    "ec" in info && ZeroIn(info["ec"])
  }

  /** The `t` blob of one version entry, when it is a dictionary holding one. */
  function TextBlob(version: Plist): Option<Bytes> {
    if version.PDict? && "t" in version.entries && version.entries["t"].PData?
    then Some(version.entries["t"].data)
    else None
  }

  /**
   * The operations the program performs on the summary info do not raise:
   * the membership test for "0" in the "ec" entry is defined when "ec" is
   * present; and when that test holds, the entry under "0" is a list of at
   * least two versions, each a dictionary with a "t" blob (so "ec" is then a
   * dictionary: indexing a list or a string by '0' raises).
   */
  predicate WellShaped(info: map<string, Plist>) {
    && ("ec" in info ==> SupportsIn(info["ec"]))
    && (HasEditHistory(info) ==>
          && info["ec"].PDict?
          && var versions := info["ec"].entries["0"];
          && versions.PArray?
          && |versions.items| >= 2
          && TextBlob(versions.items[0]).Some?
          && TextBlob(versions.items[1]).Some?)
  }

  /**
   * The archived blob of one version (parse_sms.db.py:111, :121): the data
   * stored under "t" in entry `slot` of the list under "0" of "ec". Slot 0
   * holds the original text, slot 1 the edited text.
   */
  function VersionBlob(info: map<string, Plist>, slot: nat): (b: Bytes)
    requires WellShaped(info) && HasEditHistory(info) && slot < 2
    ensures info["ec"].PDict? && "0" in info["ec"].entries
    ensures var version := info["ec"].entries["0"].items[slot];
      version.PDict? && "t" in version.entries && version.entries["t"] == PData(b)
  {
    TextBlob(info["ec"].entries["0"].items[slot]).value
  }

  /**
   * A list or a string under "ec" that does not contain "0" passes the
   * guard's test as False: such summary info is accepted and carries no
   * edit history.
   */
  lemma ZeroTestOnOtherContainers(info: map<string, Plist>)
    requires "ec" in info && (info["ec"].PArray? || info["ec"].PString?)
    requires info["ec"].PArray? ==> PString("0") !in info["ec"].items
    requires info["ec"].PString? ==> '0' !in info["ec"].str
    ensures WellShaped(info) && !HasEditHistory(info)
  {
  }
}
