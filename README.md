# Lab asset manager: inventory and account logic

This project models the inventory and account logic of a small Streamlit lab-asset tracker (`app.py`) in Dafny, without its view code. The tracker keeps three JSON stores: the asset table, the credential store and the audit log. Here each store is a sequence of records held by a class (`Inventory.AssetTable`, `Credentials.UserStore`, `AuditLog.History`). The script rewrites these stores wholesale. The modelled parts are:

- the Due Date clean-up done on load and on save, which turns pandas' null texts `nan`, `None`, `NaT` and `<NA>` into `""`;
- the asset operations: create (ID `max+1`, or 101 in an empty table), status update with its due-date rules, and delete;
- the overdue view (Checked Out, with a non-empty Due Date that sorts before today) and the search view (case-insensitive name match, or a match in the decimal ID);
- the credential store: the seeded admin account, `login_user`, `add_user` and the sign-up form's checks;
- the audit log, which puts each new entry in front of the older ones;
- the three Admin forms (add, update, delete), each of which changes the table, saves it and logs one entry.

Today's date, the current time, the acting username and the password hash function (SHA-256 in the program) are parameters. Dates compare as strings in the program. `Text.LexLess` is Python's `<` on `str`. `Dates.IsoOrder` proves that for `YYYY-MM-DD` strings this order is calendar order.

Modules: `Options` (Option), `Text` (string order, digits, `str(int)`, lowercasing, substring search), `Dates` (ISO dates and `str(date)`), `Tables` (order-preserving row selection, i.e. a pandas boolean mask), `Inventory`, `Credentials`, `AuditLog`, `Admin` (the three forms), and `InventoryExamples` and `CredentialsExamples` (worked instances).

The code does not enforce that a Due Date is empty unless the status is Checked Out: setting Maintenance or Lost leaves the old date in place (app.py:372-375). `Inventory.MaintenanceKeepsDueDate` shows this, and no contract here assumes it.

## Model

| member | source | states |
|---|---|---|
| Text.LexLess | app.py:231 | Python's `<` on strings: never true of equal strings, and true when the first is a proper prefix of the second |
| Text.LexLessAppend | app.py:231 | comparing two strings whose first parts have equal length compares those parts first, and the rest only on a tie |
| Text.DigitsOrder | app.py:231 | for equal-length digit strings, string `<` is numeric `<` and string equality is numeric equality |
| Text.Pad | app.py:373 | `'%0Nd'` yields exactly N digits |
| Text.ValueOfPad | app.py:373 | a padded number reads back as the number |
| Text.PadOfValue | app.py:373 | padding a digit string's value to its own length gives the string back |
| Text.Decimal | app.py:274 | `str(n)` of an int is never empty |
| Text.NatDecimalValue | app.py:274 | `str(n)` of a natural reads back as n and has no leading zero unless n is 0 |
| Text.DecimalInjective | app.py:387 | different IDs have different `str` forms, so a DELETED entry's label names one ID |
| Text.Lower | app.py:273 | lowercasing keeps the length and maps each character through ASCII lowercasing |
| Text.Contains | app.py:273-274 | the empty term is contained in every string, a string contains itself, and a contained term is no longer than the string |
| Text.ContainsIff | app.py:273-274 | the substring test holds exactly when the term occurs at some position |
| Dates.FormatIso | app.py:373 | `str(date)` gives a well-formed `YYYY-MM-DD` string that parses back to the date |
| Dates.FormatParse | app.py:373 | an ISO string of a valid date is the `str` form of the date it denotes |
| Dates.IsoOrder | app.py:223-231 | for well-formed ISO strings, `<` holds exactly when the first date is before the second by (year, month, day) |
| Dates.FormattedOrder | app.py:223-231 | comparing the `str` forms of two valid dates compares the dates |
| Tables.Filter | app.py:228-232 | a boolean mask keeps an order-preserving subsequence; each kept row appears as often as in the input, and every other row is dropped |
| Tables.SubsequenceKeepsDistinct | app.py:385 | a subsequence of a table without repeated keys has none either |
| Inventory.Stringify | app.py:86 | `astype(str)` keeps a string and turns each missing-value marker into one of the null texts |
| Inventory.Sanitize | app.py:87 | the result is never a null text; the four null texts become "" and every other string is kept |
| Inventory.SanitizeIdempotent | app.py:110 | cleaning a Due Date twice equals cleaning it once |
| Inventory.ReadDue | app.py:82-87 | every pandas missing value (None, NaN, NaT, NA) is read as ""; a string that is not a null text is kept |
| Inventory.LoadRows | app.py:79-89 | loading keeps every row and every field except Due Date; a missing Due Date column reads as ""; the loaded table holds no null text |
| Inventory.SanitizeTable | app.py:110 | saving cleans the Due Date of every row in place and changes nothing else |
| Inventory.StoreRows | app.py:112 | the written file has a Due Date field and one record per row |
| Inventory.SanitizeClean | app.py:110 | cleaning an already clean table changes nothing |
| Inventory.LoadAsWritten | app.py:79-89 | the program's load followed by the Status lookup of app.py:229: it fails exactly when the file holds no records, and otherwise yields a clean table of the same length |
| Inventory.SaveLoadAsWritten | app.py:79-112 | with the program's load, a saved table comes back unchanged if it has rows, and an empty one does not load |
| Inventory.SaveLoadRoundTrip | app.py:79-112 | saving a table and loading it again gives back exactly the saved (cleaned) table |
| Inventory.Sample | app.py:91-106 | the records written when the file is absent are clean |
| Inventory.MaxId | app.py:322 | the maximum is an ID of the table and no ID exceeds it |
| Inventory.NextId | app.py:322 | 101 for an empty table; otherwise one more than some existing ID; always greater than every ID in the table |
| Inventory.AppendNextIdKeepsUnique | app.py:322-328 | appending a record under the next ID keeps IDs unique |
| Inventory.FirstWithId | app.py:359 | None exactly when no row has the ID; otherwise the first row with that ID |
| Inventory.NewDueDate | app.py:372-375 | Checked Out with a date gives that date's ISO string; In Stock gives ""; otherwise the current Due Date is kept |
| Inventory.UpdateRows | app.py:369-375 | rows with another ID are unchanged; each matching row gets the new status; Checked Out with a date stores that date's ISO string; In Stock stores ""; otherwise the date stays; no other field changes |
| Inventory.UpdateKeepsIds | app.py:369-375 | an update keeps every row's ID, name and quantity, so IDs stay unique |
| Inventory.InStockIdempotent | app.py:374-375 | after an In Stock update every matching row has an empty Due Date, and a second In Stock update changes nothing |
| Inventory.MaintenanceKeepsDueDate | app.py:372-375 | moving a checked-out row to Maintenance keeps its non-empty Due Date |
| Inventory.Without | app.py:385 | delete keeps, in order, exactly the rows with another ID, each as often as before; afterwards no row has the ID |
| Inventory.WithoutKeepsUnique | app.py:385 | delete keeps IDs unique |
| Inventory.IsOverdue | app.py:229-231 | only a Checked Out row with a non-empty Due Date and a non-empty today can be overdue; a Due Date that is a proper prefix of today is overdue |
| Inventory.Overdue | app.py:228-232 | an order-preserving subsequence that holds a row exactly when it is Checked Out with a non-empty Due Date that sorts before today |
| Inventory.OverdueByDate | app.py:223-232 | when today is a valid date in ISO form and a row's Due Date is "" or an ISO string, the row is overdue exactly when it is Checked Out, dated, and its date is before today |
| Inventory.CheckedOutOverdueIff | app.py:223-232 | an asset checked out until date d is overdue on day t exactly when d is before t |
| Inventory.Matches | app.py:272-274 | the empty term matches every row; a term found in the row's decimal ID, or equal to it, matches |
| Inventory.Search | app.py:270-275 | an empty term returns the table; otherwise an order-preserving subsequence of exactly the rows whose lowercased name contains the lowercased term, or whose decimal ID contains the term |
| Inventory.AssetTable.Load | app.py:79-106 | an absent file is created with the sample records; an existing file is loaded; the table is clean afterwards |
| Inventory.AssetTable.Save | app.py:108-112 | the Due Date column is cleaned in place and the file written; loading that file gives the table back |
| Inventory.AssetTable.Create | app.py:320-328 | appends one record under NextId with an empty Due Date; earlier rows are unchanged; the new ID exceeds all old IDs and keeps them unique |
| Inventory.AssetTable.UpdateStatus | app.py:369-375 | the table becomes UpdateRows of the old table |
| Inventory.AssetTable.Delete | app.py:385 | the table becomes Without of the old table; no row keeps the ID; IDs stay unique |
| InventoryExamples.NextIdAfterSample | app.py:322 | a table with IDs 101 and 102 gives the next asset ID 103 |
| InventoryExamples.OverdueExample | app.py:228-232 | on 2024-06-01, an asset due 2024-05-01 is overdue, one due 2024-07-01 is not, and one without a date is not |
| InventoryExamples.SearchByName | app.py:270-275 | searching "pi" finds "Raspberry Pi 4" |
| InventoryExamples.SearchById | app.py:270-275 | searching "102" finds asset 102 by its ID |
| InventoryExamples.DeleteAllBreaksReload | app.py:79-89 | deleting both sample assets leaves a table whose saved file the program's load cannot read back, while `LoadRows` returns the empty table |
| Credentials.Lookup | app.py:56-58 | None exactly when no record has the username; otherwise the first record with it |
| Credentials.Login | app.py:51-62 | a role is returned only when a record with the username stores the password's hash with that role; an unknown username gives None |
| Credentials.LookupAppend | app.py:56-75 | appending a record changes the lookup only for a username that had no record |
| Credentials.LoginAfterAdd | app.py:51-77 | after a successful `add_user`, logging in with the same password returns the stored role |
| Credentials.WrongPasswordFails | app.py:55-59 | after a successful `add_user`, a password with a different hash does not log in |
| Credentials.AddKeepsOtherLogins | app.py:75 | adding a record leaves the login of every other username unchanged |
| Credentials.SeedUsers | app.py:42-49 | the seeded store has unique usernames, and "admin" logs in with "admin123" as Admin |
| Credentials.SignUpGate | app.py:186-197 | both fields are required; asking for Admin without the secret "1234" is refused; Admin is granted exactly when it is asked for with that secret; Student otherwise |
| Credentials.UserStore.CreateUserDb | app.py:42-49 | an absent store is replaced by the seed; an existing one is kept |
| Credentials.UserStore.LoginUser | app.py:51-62 | seeds the store if needed, then returns Login on it |
| Credentials.UserStore.AddUser | app.py:64-77 | a taken username returns false and changes nothing beyond seeding; otherwise appends one record (username, hash, role) and returns true; the new account logs in at once; usernames stay unique |
| Credentials.UserStore.SignUp | app.py:185-202 | the store is untouched unless the gate passes; the account is then created with the gate's role, or refused as taken; an Admin account only comes from the right secret |
| AuditLog.History.LogHistory | app.py:114-123 | one new entry goes in front; the older entries follow unchanged and in order; the length grows by one |
| Admin.AddAsset | app.py:320-332 | without a name nothing changes; otherwise the record is appended under NextId, the table saved, and a CREATED entry logged |
| Admin.UpdateAsset | app.py:358-380 | the table becomes the cleaned UpdateRows; it is saved; an UPDATE entry logs the asset's name as it was before the change |
| Admin.DeleteAsset | app.py:383-389 | the table becomes the cleaned Without; no row has the ID afterwards; it is saved; exactly one DELETED entry naming the ID is put in front |

## Left out

- Streamlit rendering, styling, session state, reruns, menu routing and the dashboard counts: these are view code. The role checks of the Add Asset and Admin pages are also view code: the operations here do not check roles, as in the program.
- JSON reading and writing, and directory creation. Each store is a value in its class: `None` stands for an absent file, and load and save move the whole table. Pandas type inference on read is not modelled. For example, if every asset Name is made only of digits, `read_json` reads the Name column as int64, and the `.str.contains` at app.py:273 raises. The model assumes that strings stay strings.
- A Due Date cell that pandas parses as a timestamp (its `str` form has a time part) is not modelled. Cells are strings or one of the four missing-value markers.
- Image upload, QR-code generation, the category pie chart and the backup download: these are foreign libraries and I/O. The image path is a parameter of create.
- `make_hashes`: SHA-256 is a parameter (`string -> string`). No property here depends on it. `Credentials.WrongPasswordFails` assumes the two hashes differ.
- The catch-all exception handler of `login_user` is not modelled: none of the modelled steps can fail.
- `datetime.now` and `date.today` are parameters: `now`, and `today` as a string. For years below 1000, `strftime("%Y")` may not pad to four digits; `Inventory.OverdueByDate` assumes `today` is in ISO form.
- Inventory.Search: pandas treats the term as a regular expression and lowercases with Unicode rules. The model uses a literal substring test with ASCII lowercasing. Terms with regex metacharacters and non-ASCII letters are not covered.
- Status and Role are the four (two) labels the program writes. Other strings in a hand-edited file are not modelled. Quantity is an unbounded integer, and the form's 1–100 range is not enforced.
- Dates.Valid checks field ranges only, not month lengths. No ordering or formatting property depends on month lengths.
- `load_history` and an absent history file: an absent log reads as empty, and logging to it gives the one new entry, so both equal the empty sequence.
- Inventory.NextId: IDs are unbounded integers. The program's int64 column would wrap `df['ID'].max() + 1` at 2^63−1 (app.py:322); that case is not modelled.
- Inventory.SaveLoadRoundTrip: this states the round trip of the corrected load (`LoadRows`), which reads an empty file as an empty table. The program's own load fails on an empty file; see Findings and `Inventory.LoadAsWritten`.
- Inventory.AssetTable.Save: its round-trip ensures is about the corrected load as well. With the program's load, a table emptied by deletes is saved but cannot be read back, so the 101 branch of `Inventory.NextId` is never reached after a restart.
- Inventory.AssetTable.Load: it uses the corrected load. The empty-file failure of the program is modelled by `Inventory.LoadAsWritten` only.

## Findings

| source | as written | input that shows it | evidently intended | confidence | as-written member | corrected member |
|---|---|---|---|---|---|---|
| app.py:79-89 | `pd.read_json` of a file holding `[]` gives a frame with no columns; only Due Date is added, and `df['Status']` at app.py:229 raises KeyError | delete assets 101 and 102, which saves `[]` (app.py:385-386); the next load fails | an emptied table loads back as an empty table with all columns | not executed | Inventory.LoadAsWritten | Inventory.SaveLoadRoundTrip |
