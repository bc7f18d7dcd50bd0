/**
 * The display strings the row walk produces besides rendered times: quoted
 * message text and the bracketed placeholder texts. The two unsend
 * placeholders carry the terminal's yellow colour code and its reset code,
 * as the program writes them into the text columns.
 */
module Display {

  const Warning: string := "\U{1B}[93m"
  const EndColour: string := "\U{1B}[0m"

  /** Shown as the text of an unsent message whose content was cleared. */
  const ClearedUponUnsent: string := Warning + "[🧹 cleared upon unsent]" + EndColour

  /** Shown as the edited text of an unsent message. */
  const UnsentMarker: string := Warning + "[⏮️ unsent]" + EndColour

  /** Read-status placeholders used when no read time is stored. */
  const ReadTimeUnavailableNote: string := "[📭 read but read time data not available]"
  const NoReadReceiptsNote: string := "[❔ not known if read or not: messaging service does not support read receipt]"
  const UnreadNote: string := "[📬 unread]"

  const UnknownServicePrefix: string := "[❔ not known if read or not: "
  const UnknownServiceSuffix: string := " not supported]"

  /** The placeholder naming a messaging service the program does not know. */
  function UnknownServiceNote(name: string): (s: string)
    ensures |s| == |UnknownServicePrefix| + |name| + |UnknownServiceSuffix|
    ensures s[|UnknownServicePrefix|..|s| - |UnknownServiceSuffix|] == name
  {
    UnknownServicePrefix + name + UnknownServiceSuffix
  }

  /** `f'"{s}"'`: the text wrapped in double quotes. */
  function Quote(s: string): (q: string)
    ensures |q| == |s| + 2 && q[0] == '"' && q[|q| - 1] == '"'
    ensures q[1..|q| - 1] == s
  {
    "\"" + s + "\""
  }

  /** Quoting loses nothing: different texts stay different. */
  lemma QuoteInjective(a: string, b: string)
    requires Quote(a) == Quote(b)
    ensures a == b
  {
  }

  /** Two services get the same placeholder only if they have the same name. */
  lemma UnknownServiceNoteInjective(a: string, b: string)
    requires UnknownServiceNote(a) == UnknownServiceNote(b)
    ensures a == b
  {
  }
}
