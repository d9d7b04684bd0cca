/** The `sessions` table and the history window. A session row holds the active
    module and submodule of a sender and the recent conversation history; a
    sender without a row is treated as being in module "Base", submodule
    "Main", with no history. */
module Sessions {

  /** At most this many history entries are kept when a session is saved. */
  const MaxHistory: nat := 20

  datatype Role = User | Assistant

  datatype Message = Message(role: Role, content: string)

  datatype SessionRow = SessionRow(activeModule: string, activeSubmodule: string, history: seq<Message>)

  /** The row of a sender that has none. */
  const DefaultRow := SessionRow("Base", "Main", [])

  /** The last `n` entries of a history, or all of them when there are fewer. */
  function Recent(history: seq<Message>, n: nat): (r: seq<Message>)
    ensures |r| == if |history| <= n then |history| else n
    ensures r == history[|history| - |r|..]
  {
    if |history| > n then history[|history| - n..] else history
  }

  /** `SessionManager.save_session` cuts the history to the last 20 entries. */
  function Truncated(history: seq<Message>): (r: seq<Message>)
    ensures |r| <= MaxHistory
    ensures |history| <= MaxHistory ==> r == history
    ensures |history| > MaxHistory ==> |r| == MaxHistory
    ensures r == history[|history| - |r|..]
  {
    Recent(history, MaxHistory)
  }

  /** Truncating at every save loses nothing compared with truncating only at
      the end: entries appended after a truncation end in the same window. */
  lemma TruncatedAppend(history: seq<Message>, more: seq<Message>)
    ensures Truncated(Truncated(history) + more) == Truncated(history + more)
  {
    var t := Truncated(history);
    var a := t + more;
    var b := history + more;
    assert t == history[|history| - |t|..];
    if |b| > MaxHistory {
      var ra := Truncated(a);
      var rb := Truncated(b);
      assert |ra| == |rb|;
      forall k | 0 <= k < |ra| ensures ra[k] == rb[k] {
        var ia := |a| - |ra| + k;
        var ib := |b| - |rb| + k;
        if ia < |t| {
          assert a[ia] == t[ia] == history[|history| - |t| + ia];
        } else {
          assert a[ia] == more[ia - |t|];
        }
      }
    } else {
      assert |t| == |history|;
    }
  }

  /** Truncating twice is truncating once. */
  lemma TruncatedIdempotent(history: seq<Message>)
    ensures Truncated(Truncated(history)) == Truncated(history)
  {
  }

  /** `get_session`: the stored row, or the default row for a new sender. */
  function Load(table: map<string, SessionRow>, phone: string): (r: SessionRow)
    ensures phone in table ==> r == table[phone]
    ensures phone !in table ==> r.activeModule == "Base" && r.activeSubmodule == "Main" && r.history == []
  {
    if phone in table then table[phone] else DefaultRow
  }

  /** Loading right after an upsert returns what was saved, for that sender only. */
  lemma LoadAfterSave(table: map<string, SessionRow>, phone: string, row: SessionRow, other: string)
    ensures Load(table[phone := row], phone) == row
    ensures other != phone ==> Load(table[phone := row], other) == Load(table, other)
  {
  }

  /** Saving what was loaded leaves every later load unchanged. */
  lemma SaveLoadRoundTrip(table: map<string, SessionRow>, phone: string, other: string)
    ensures Load(table[phone := Load(table, phone)], other) == Load(table, other)
  {
  }

  /** A second upsert for the same sender replaces the first entirely. */
  lemma SaveTwice(table: map<string, SessionRow>, phone: string, first: SessionRow, second: SessionRow)
    ensures table[phone := first][phone := second] == table[phone := second]
  {
  }
}
