/** The three Admin forms of the script as whole operations: change the
    in-memory table, save it, and record the change in the audit log.
    The acting username and the current time are parameters. */
module Admin {
  import opened Options
  import opened Text
  import opened Dates
  import opened Inventory
  import opened AuditLog

  /** "Save Asset": nothing happens without a name; otherwise the record is
      appended under the next ID, the table saved, and a CREATED entry
      naming the asset logged. */
  method AddAsset(inv: AssetTable, log: History, name: string, category: string, location: string,
                  status: Status, quantity: int, image: string, user: string, now: string)
    returns (id: Option<int>)
    requires status == InStock || status == Maintenance
    modifies inv, log
    ensures id.Some? <==> name != ""
    ensures id.None? ==> inv.df == old(inv.df) && inv.file == old(inv.file) && log.entries == old(log.entries)
    ensures id.Some? ==>
      id.value == NextId(old(inv.df)) &&
      inv.df == SanitizeTable(old(inv.df) + [NewAsset(id.value, name, category, location, status, quantity, image)]) &&
      inv.file == Some(StoreRows(inv.df)) &&
      log.entries == [Entry(now, name, Created, "Added by " + user)] + old(log.entries)
  {
    if name == "" {
      id := None;
    } else {
      var newId := inv.Create(name, category, location, status, quantity, image);
      inv.Save();
      var _ := log.LogHistory(now, name, Created, "Added by " + user);
      id := Some(newId);
    }
  }

  /** "Update": the asset is one of the table's IDs; its name is taken
      before the change. Every row with the ID gets the status and due-date
      rule, the table is saved, and an UPDATE entry logged. A date is only
      offered for Checked Out. */
  method UpdateAsset(inv: AssetTable, log: History, id: int, status: Status, due: Option<Date>,
                     user: string, now: string)
    requires FirstWithId(inv.df, id).Some?
    requires due.Some? ==> status == CheckedOut && Valid(due.value)
    modifies inv, log
    ensures inv.df == SanitizeTable(UpdateRows(old(inv.df), id, status, due))
    ensures inv.file == Some(StoreRows(inv.df))
    ensures log.entries == [Entry(now, FirstWithId(old(inv.df), id).value.name, Update,
                                  StatusLabel(status) + " by " + user)] + old(log.entries)
  {
    var row := FirstWithId(inv.df, id).value;
    inv.UpdateStatus(id, status, due);
    inv.Save();
    var _ := log.LogHistory(now, row.name, Update, StatusLabel(status) + " by " + user);
  }

  /** "Delete Permanently": the rows with the ID are dropped, the table is
      saved, and a DELETED entry naming the ID logged. Afterwards no row has
      the ID. */
  method DeleteAsset(inv: AssetTable, log: History, id: int, user: string, now: string)
    modifies inv, log
    ensures inv.df == SanitizeTable(Without(old(inv.df), id))
    ensures FirstWithId(inv.df, id).None?
    ensures inv.file == Some(StoreRows(inv.df))
    ensures log.entries == [Entry(now, Decimal(id), Deleted, "Deleted by " + user)] + old(log.entries)
  {
    inv.Delete(id);
    inv.Save();
    var _ := log.LogHistory(now, Decimal(id), Deleted, "Deleted by " + user);
  }
}
