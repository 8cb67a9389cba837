/** The asset table of the lab inventory (the `inventory_v2.json` store and
    the DataFrame `df` the script works on): the record type, the Due Date
    clean-up applied on load and save, the fresh-ID rule, the status update
    with its due-date rules, delete, and the two read-only views (overdue
    assets and search). */
module Inventory {
  import opened Options
  import opened Text
  import opened Dates
  import opened Tables

  /** The four labels the program writes into the Status column. */
  datatype Status = InStock | CheckedOut | Maintenance | Lost

  /** The text of a status as it appears in the table and in the audit log. */
  function StatusLabel(s: Status): string
  {
    match s
    case InStock => "In Stock"
    case CheckedOut => "Checked Out"
    case Maintenance => "Maintenance"
    case Lost => "Lost"
  }

  /** One inventory record; D is the type of its Due Date cell. */
  datatype Row<D> = Row(id: int, name: string, category: string, location: string,
                        status: Status, quantity: int, image: string, dueDate: D)

  /** A record of the in-memory table, whose Due Date is always a string. */
  type Asset = Row<string>

  /** A Due Date cell as pandas reads it from the JSON file: a string, or
      one of pandas' missing-value markers. */
  datatype Cell = Str(s: string) | NoneValue | NaN | NaT | NA

  /** The inventory file: whether its records carry a Due Date field at all,
      and the records. */
  datatype StoredTable = StoredTable(hasDueColumn: bool, rows: seq<Row<Cell>>)

  /** `astype(str)` applied to one cell: a string is kept, and every
      missing-value marker becomes one of the null texts. */
  function Stringify(c: Cell): (r: string)
    ensures c.Str? ==> r == c.s
    ensures !c.Str? ==> IsNullToken(r)
  {
    match c
    case Str(s) => s
    case NoneValue => "None"
    case NaN => "nan"
    case NaT => "NaT"
    case NA => "<NA>"
  }

  /** The texts `astype(str)` gives pandas' missing values. */
  predicate IsNullToken(s: string)
  {
    s == "nan" || s == "None" || s == "NaT" || s == "<NA>"
  }

  /** `replace(['nan', 'None', 'NaT', '<NA>'], '')` on one string: the
      result is never a null token, the tokens become empty and every other
      string is kept. */
  function Sanitize(s: string): (r: string)
    ensures !IsNullToken(r)
    ensures IsNullToken(s) ==> r == ""
    ensures !IsNullToken(s) ==> r == s
  {
    if IsNullToken(s) then "" else s
  }

  /** Cleaning a due date twice is cleaning it once. */
  lemma SanitizeIdempotent(s: string)
    ensures Sanitize(Sanitize(s)) == Sanitize(s)
  {
  }

  /** Reading one Due Date cell: every missing-value marker becomes "", and
      a string that is not a null token is kept as it is. */
  function ReadDue(c: Cell): (r: string)
    ensures !IsNullToken(r)
    ensures !c.Str? ==> r == ""
    ensures c.Str? && IsNullToken(c.s) ==> r == ""
    ensures c.Str? && !IsNullToken(c.s) ==> r == c.s
  {
    Sanitize(Stringify(c))
  }

  /** A table in which no Due Date is a null token. */
  predicate Clean(df: seq<Asset>)
  {
    forall i :: 0 <= i < |df| ==> !IsNullToken(df[i].dueDate)
  }

  /** `load_data` on an existing file: a missing Due Date column is added
      as None, then the column is stringified and cleaned. Every other field
      is read as stored. */
  function LoadRows(t: StoredTable): (df: seq<Asset>)
    ensures |df| == |t.rows| && Clean(df)
    ensures forall i :: 0 <= i < |df| ==>
      var row := t.rows[i];
      df[i] == Row(row.id, row.name, row.category, row.location, row.status, row.quantity, row.image, df[i].dueDate)
    ensures forall i :: 0 <= i < |df| ==> df[i].dueDate == if t.hasDueColumn then ReadDue(t.rows[i].dueDate) else ""
  {
    seq(|t.rows|, i requires 0 <= i < |t.rows| =>
      var row := t.rows[i];
      Row(row.id, row.name, row.category, row.location, row.status, row.quantity, row.image,
          ReadDue(if t.hasDueColumn then row.dueDate else NoneValue)))
  }

  /** The Due Date clean-up of `save_data`, applied to every row in place. */
  function SanitizeTable(df: seq<Asset>): (r: seq<Asset>)
    ensures |r| == |df| && Clean(r)
    ensures forall i :: 0 <= i < |df| ==> r[i] == df[i].(dueDate := Sanitize(df[i].dueDate))
  {
    seq(|df|, i requires 0 <= i < |df| => df[i].(dueDate := Sanitize(df[i].dueDate)))
  }

  /** What `to_json` writes: every record with its Due Date as a string. */
  function StoreRows(df: seq<Asset>): (t: StoredTable)
    ensures t.hasDueColumn && |t.rows| == |df|
  {
    StoredTable(true, seq(|df|, i requires 0 <= i < |df| =>
      var a := df[i];
      Row(a.id, a.name, a.category, a.location, a.status, a.quantity, a.image, Str(a.dueDate))))
  }

  /** Cleaning a clean table changes nothing. */
  lemma SanitizeClean(df: seq<Asset>)
    requires Clean(df)
    ensures SanitizeTable(df) == df
  {
  }

  /** Saving and loading again gives back exactly the table that was saved,
      whose Due Dates are all strings and none a null token. */
  lemma SaveLoadRoundTrip(df: seq<Asset>)
    ensures LoadRows(StoreRows(SanitizeTable(df))) == SanitizeTable(df)
  {
  }

  /** `load_data` as the program has it, up to the first use of the table
      (`df['Status']`, app.py:229). `pd.read_json` of an empty record list
      gives a frame with no columns at all; only Due Date is added, so the
      Status lookup raises KeyError, shown here as None. A file with records
      loads as LoadRows does. */
  function LoadAsWritten(t: StoredTable): (r: Option<seq<Asset>>)
    ensures r.None? <==> t.rows == []
    ensures r.Some? ==> Clean(r.value) && |r.value| == |t.rows|
  {
    if t.rows == [] then None else Some(LoadRows(t))
  }

  /** With the program's loader, saving and loading again gives the table
      back except when it is empty: an empty table does not load at all. */
  lemma SaveLoadAsWritten(df: seq<Asset>)
    ensures LoadAsWritten(StoreRows(SanitizeTable(df))) == if df == [] then None else Some(SanitizeTable(df))
  {
    SaveLoadRoundTrip(df);
  }

  /** The photo links of the two sample records. */
  const ArduinoPhoto: string := "https://upload.wikimedia.org/wikipedia/commons/thumb/7/71/Arduino_Uno_major_components.JPG/320px-Arduino_Uno_major_components.JPG"
  const PiPhoto: string := "https://upload.wikimedia.org/wikipedia/commons/thumb/f/f1/Raspberry_Pi_4_Model_B_-_Side.jpg/320px-Raspberry_Pi_4_Model_B_-_Side.jpg"

  /** The two records `load_data` writes when the inventory file is absent. */
  function Sample(): (df: seq<Asset>)
    ensures Clean(df)
  {
    [ Row(101, "Arduino Uno R3", "Dev Board", "Cabinet A-1", InStock, 10,
          ArduinoPhoto,
          ""),
      Row(102, "Raspberry Pi 4", "Dev Board", "Cabinet A-2", CheckedOut, 2,
          PiPhoto,
          "2023-12-31") ]
  }

  /** `df['ID'].max()`: an ID of the table that no ID exceeds. */
  function MaxId(df: seq<Asset>): (m: int)
    requires df != []
    ensures exists i :: 0 <= i < |df| && df[i].id == m
    ensures forall i :: 0 <= i < |df| ==> df[i].id <= m
  {
    if |df| == 1 then df[0].id
    else
      var rest := MaxId(df[1..]);
      assert forall i :: 1 <= i < |df| ==> df[i] == df[1..][i - 1];
      if df[0].id > rest then df[0].id else rest
  }

  /** The ID a new asset gets: one more than the largest ID, or 101 in an
      empty table. It exceeds every ID in the table. */
  function NextId(df: seq<Asset>): (id: int)
    ensures df == [] ==> id == 101
    ensures df != [] ==> exists i :: 0 <= i < |df| && df[i].id == id - 1
    ensures forall i :: 0 <= i < |df| ==> df[i].id < id
  {
    if df == [] then 101 else MaxId(df) + 1
  }

  /** No two rows share an ID. */
  predicate UniqueIds(df: seq<Asset>)
  {
    forall i, j :: 0 <= i < j < |df| ==> df[i].id != df[j].id
  }

  /** The record the Add Asset form creates: Due Date empty. */
  function NewAsset(id: int, name: string, category: string, location: string,
                    status: Status, quantity: int, image: string): Asset
  {
    Row(id, name, category, location, status, quantity, image, "")
  }

  /** Appending a record under the next ID keeps IDs unique. */
  lemma AppendNextIdKeepsUnique(df: seq<Asset>, a: Asset)
    requires UniqueIds(df) && a.id == NextId(df)
    ensures UniqueIds(df + [a])
  {
  }

  /** `df[df['ID'] == id].iloc[0]`: the first row with that ID, if any. */
  function FirstWithId(df: seq<Asset>, id: int): (r: Option<Asset>)
    ensures r.None? <==> forall i :: 0 <= i < |df| ==> df[i].id != id
    ensures r.Some? ==> exists i :: 0 <= i < |df| && df[i] == r.value && r.value.id == id &&
                                    forall j :: 0 <= j < i ==> df[j].id != id
  {
    if df == [] then None
    else if df[0].id == id then Some(df[0])
    else
      var r := FirstWithId(df[1..], id);
      assert forall i :: 1 <= i < |df| ==> df[i] == df[1..][i - 1];
      r
  }

  /** The Due Date a row has after its status is set: the chosen date's
      `str` form for Checked Out with a date, "" for In Stock, and the old
      value otherwise. */
  function NewDueDate(current: string, status: Status, due: Option<Date>): (r: string)
    requires due.Some? ==> Valid(due.value)
    ensures status == CheckedOut && due.Some? ==> IsIsoDate(r) && ParseIso(r) == due.value
    ensures status == InStock ==> r == ""
    ensures status != InStock && (status != CheckedOut || due.None?) ==> r == current
  {
    if status == CheckedOut && due.Some? then FormatIso(due.value)
    else if status == InStock then ""
    else current
  }

  /** The status update applied to every row whose ID matches; other rows
      are untouched. */
  function UpdateRows(df: seq<Asset>, id: int, status: Status, due: Option<Date>): (r: seq<Asset>)
    requires due.Some? ==> Valid(due.value)
    ensures |r| == |df|
    ensures forall i :: 0 <= i < |df| && df[i].id != id ==> r[i] == df[i]
    ensures forall i :: 0 <= i < |df| && df[i].id == id ==>
      r[i] == df[i].(status := status, dueDate := NewDueDate(df[i].dueDate, status, due))
    ensures forall i :: 0 <= i < |df| && df[i].id == id ==>
      r[i].status == status &&
      (status == CheckedOut && due.Some? ==> IsIsoDate(r[i].dueDate) && ParseIso(r[i].dueDate) == due.value) &&
      (status == InStock ==> r[i].dueDate == "") &&
      (status != InStock && (status != CheckedOut || due.None?) ==> r[i].dueDate == df[i].dueDate)
  {
    seq(|df|, i requires 0 <= i < |df| =>
      if df[i].id == id then df[i].(status := status, dueDate := NewDueDate(df[i].dueDate, status, due))
      else df[i])
  }

  /** Rows keep their IDs (and so their uniqueness) through an update; a
      matching row gets the new status and keeps every field but Status and
      Due Date. */
  lemma UpdateKeepsIds(df: seq<Asset>, id: int, status: Status, due: Option<Date>)
    requires due.Some? ==> Valid(due.value)
    ensures var r := UpdateRows(df, id, status, due);
      (forall i :: 0 <= i < |df| ==> r[i].id == df[i].id && r[i].name == df[i].name && r[i].quantity == df[i].quantity) &&
      (UniqueIds(df) ==> UniqueIds(r))
  {
  }

  /** Checking an asset in clears its due date, so a second check-in
      changes nothing. */
  lemma InStockIdempotent(df: seq<Asset>, id: int, d1: Option<Date>, d2: Option<Date>)
    requires d1.Some? ==> Valid(d1.value)
    requires d2.Some? ==> Valid(d2.value)
    ensures var once := UpdateRows(df, id, InStock, d1);
      UpdateRows(once, id, InStock, d2) == once &&
      forall i :: 0 <= i < |once| && once[i].id == id ==> once[i].dueDate == ""
  {
  }

  /** The Due Date of a row is not tied to its status: moving a checked-out
      row to Maintenance keeps its date. */
  lemma MaintenanceKeepsDueDate(a: Asset)
    requires a.status == CheckedOut && a.dueDate != ""
    ensures var r := UpdateRows([a], a.id, Maintenance, None);
      r[0].status == Maintenance && r[0].dueDate == a.dueDate && r[0].dueDate != ""
  {
  }

  /** `df[df['ID'] != id]`: the rows with another ID, in their order. */
  function Without(df: seq<Asset>, id: int): (r: seq<Asset>)
    ensures IsSubsequence(r, df)
    ensures forall a :: a in r <==> a in df && a.id != id
    ensures forall a :: multiset(r)[a] == if a.id != id then multiset(df)[a] else 0
    ensures FirstWithId(r, id).None?
  {
    Filter(df, (a: Asset) => a.id != id)
  }

  /** Deleting keeps IDs unique. */
  lemma WithoutKeepsUnique(df: seq<Asset>, id: int)
    requires UniqueIds(df)
    ensures UniqueIds(Without(df, id))
  {
    SubsequenceKeepsDistinct(Without(df, id), df, (a: Asset) => a.id);
  }

  /** The overdue condition of the dashboard: only a checked-out row with
      a date can be overdue, and nothing is overdue against an empty today. */
  predicate IsOverdue(a: Asset, today: string): (r: bool)
    ensures r ==> a.status == CheckedOut && a.dueDate != "" && today != ""
    ensures a.status == CheckedOut && a.dueDate != "" && |a.dueDate| < |today| && a.dueDate == today[..|a.dueDate|] ==> r
  {
    a.status == CheckedOut && a.dueDate != "" && LexLess(a.dueDate, today)
  }

  /** The overdue view: the checked-out rows with a non-empty Due Date that
      sorts before today, in table order. */
  function Overdue(df: seq<Asset>, today: string): (r: seq<Asset>)
    ensures IsSubsequence(r, df)
    ensures forall a :: a in r <==> a in df && a.status == CheckedOut && a.dueDate != "" && LexLess(a.dueDate, today)
    ensures forall a :: multiset(r)[a] == if IsOverdue(a, today) then multiset(df)[a] else 0
  {
    Filter(df, (a: Asset) => IsOverdue(a, today))
  }

  /** When today and a row's Due Date are ISO dates, the string comparison
      of the overdue view is the comparison of the dates. */
  lemma OverdueByDate(df: seq<Asset>, today: Date, a: Asset)
    requires Valid(today) && a in df
    requires a.dueDate == "" || IsIsoDate(a.dueDate)
    ensures a in Overdue(df, FormatIso(today)) <==>
      a.status == CheckedOut && a.dueDate != "" && Before(ParseIso(a.dueDate), today)
  {
    if a.dueDate != "" {
      IsoOrder(a.dueDate, FormatIso(today));
    }
  }

  /** An asset checked out until a date d is overdue on day t exactly when
      d is before t. */
  lemma CheckedOutOverdueIff(a: Asset, d: Date, t: Date)
    requires Valid(d) && Valid(t)
    ensures var r := UpdateRows([a], a.id, CheckedOut, Some(d));
      IsOverdue(r[0], FormatIso(t)) <==> Before(d, t)
  {
    FormattedOrder(d, t);
  }

  /** The search condition: the term occurs in the lower-cased name, or in
      the decimal ID. */
  predicate Matches(a: Asset, term: string): (r: bool)
    ensures term == "" ==> r
    ensures Contains(Decimal(a.id), term) ==> r
    ensures Decimal(a.id) == term ==> r
  {
    Contains(Lower(a.name), Lower(term)) || Contains(Decimal(a.id), term)
  }

  /** The search view: all rows for an empty term, otherwise the matching
      rows in table order. */
  function Search(df: seq<Asset>, term: string): (r: seq<Asset>)
    ensures term == "" ==> r == df
    ensures IsSubsequence(r, df)
    ensures term != "" ==> forall a :: a in r <==> a in df && Matches(a, term)
    ensures term != "" ==> forall a :: multiset(r)[a] == if Matches(a, term) then multiset(df)[a] else 0
  {
    if term == "" then
      assert IsSubsequence(Filter(df, _ => true), df);
      assert Filter(df, _ => true) == df by {
        FilterAllIsIdentity(df);
      }
      df
    else Filter(df, (a: Asset) => Matches(a, term))
  }

  lemma {:induction false} FilterAllIsIdentity(df: seq<Asset>)
    ensures Filter(df, _ => true) == df
  {
    if df != [] {
      FilterAllIsIdentity(df[1..]);
      assert df == [df[0]] + df[1..];
    }
  }

  /** The in-memory table `df` together with the inventory file it is read
      from and written to. */
  class AssetTable {
    /** The DataFrame the script works on. */
    var df: seq<Asset>
    /** The inventory file; None while it does not exist. */
    var file: Option<StoredTable>

    constructor (file: Option<StoredTable>)
      ensures this.file == file && df == []
    {
      this.file := file;
      df := [];
    }

    /** `load_data`: read and clean the file, or create it with the sample
        records when it is absent. The table is clean afterwards. */
    method Load()
      modifies this
      ensures old(file).None? ==> df == Sample() && file == Some(StoreRows(Sample()))
      ensures old(file).Some? ==> df == LoadRows(old(file).value) && file == old(file)
      ensures Clean(df)
    {
      if file.None? {
        df := Sample();
        file := Some(StoreRows(df));
      } else {
        df := LoadRows(file.value);
      }
    }

    /** `save_data`: clean the Due Date column of `df` in place and write
        the table. Loading the file afterwards gives `df` back. */
    method Save()
      modifies this
      ensures df == SanitizeTable(old(df)) && file == Some(StoreRows(df))
      ensures LoadRows(file.value) == df
    {
      df := SanitizeTable(df);
      file := Some(StoreRows(df));
      SaveLoadRoundTrip(old(df));
    }

    /** The Add Asset form's update of `df`: one record appended under the
        next ID, with an empty Due Date; earlier rows are unchanged. */
    method Create(name: string, category: string, location: string, status: Status,
                  quantity: int, image: string) returns (id: int)
      requires name != ""
      requires status == InStock || status == Maintenance
      modifies this`df
      ensures id == NextId(old(df))
      ensures df == old(df) + [NewAsset(id, name, category, location, status, quantity, image)]
      ensures old(df) == [] ==> id == 101
      ensures forall a :: a in old(df) ==> a.id < id
      ensures UniqueIds(old(df)) ==> UniqueIds(df)
    {
      id := NextId(df);
      df := df + [NewAsset(id, name, category, location, status, quantity, image)];
    }

    /** The Update Status form's update of `df`: every row with the ID gets
        the status and the due-date rule of NewDueDate; other rows stay. */
    method UpdateStatus(id: int, status: Status, due: Option<Date>)
      requires due.Some? ==> Valid(due.value)
      modifies this`df
      ensures df == UpdateRows(old(df), id, status, due)
    {
      df := UpdateRows(df, id, status, due);
    }

    /** The Delete form's update of `df`: the rows with the ID are dropped,
        the others kept in order. */
    method Delete(id: int)
      modifies this`df
      ensures df == Without(old(df), id)
      ensures forall a :: a in df ==> a.id != id
      ensures UniqueIds(old(df)) ==> UniqueIds(df)
    {
      if UniqueIds(df) {
        WithoutKeepsUnique(df, id);
      }
      df := Without(df, id);
    }
  }
}
