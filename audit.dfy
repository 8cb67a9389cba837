/** The audit log (`history_log.json`): one entry per change to the asset
    table, newest first. */
module AuditLog {

  /** The action words the program writes. */
  datatype Action = Created | Update | Deleted

  function ActionLabel(a: Action): string
  {
    match a
    case Created => "CREATED"
    case Update => "UPDATE"
    case Deleted => "DELETED"
  }

  datatype Entry = Entry(time: string, asset: string, action: Action, detail: string)

  /** The log file's contents. An absent file and an empty log are the same
      here: `log_history` writes the new entry alone in both cases, and
      `load_history` then shows an empty table. */
  class History {
    var entries: seq<Entry>

    constructor (entries: seq<Entry>)
      ensures this.entries == entries
    {
      this.entries := entries;
    }

    /** `log_history`: the new entry goes in front, the earlier entries
        follow unchanged and in order; the new log is returned. */
    method LogHistory(time: string, asset: string, action: Action, detail: string)
      returns (log: seq<Entry>)
      modifies this
      ensures entries == [Entry(time, asset, action, detail)] + old(entries)
      ensures |entries| == |old(entries)| + 1 && entries[0].action == action && entries[1..] == old(entries)
      ensures log == entries
    {
      entries := [Entry(time, asset, action, detail)] + entries;
      log := entries;
    }
  }
}
