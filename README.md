# Library Management System — verified model of the checkout core

The program is a single Tkinter window over an SQLite file (`library.db`) holding one
table, `Books(Title, Book_ID PRIMARY KEY, Author, Status, Issuer_ID)`. Under the widgets
sit a keyed **book catalog** and a **checkout state machine** (Available ⇄ Issued). This
project models that core in Dafny:

- `catalog.dfy` — module `Catalog`: the table as a map from `Book_ID` to the four other
  columns, and each SQL statement the program runs (INSERT with its primary-key check,
  the two UPDATEs, DELETE of one key, DELETE of all rows, `SELECT *` feeding the tree
  view) as a function or method on that map.
- `workflow.dfy` — module `Workflow`: what each button handler does to the table, the
  five form variables and the book-id entry, as pure functions on a `Session` value. The
  dialogs are inputs: a `confirmed`/`returned` boolean for a yes/no box, and an
  `Option<string>` for the issuer prompt (`None` when cancelled). The error and success
  pop-ups are returned as the list of messages shown. Lemmas relate several actions.
- `library.dfy` — module `LibraryApp`: class `Library`, whose fields are the program's
  module-level state (the table, the `StringVar`s, the id entry's enabled state, the
  tree's rows). Each handler is a method that updates those fields step by step, in the
  source's order, and is proved to end in exactly the state and messages the matching
  `Workflow` function gives. The class invariant `Valid()` says the tree view lists the
  table. `DuneSession` is a verified client that adds, re-adds, edits and deletes a book.
- `wrappers.dfy` — `Option` and `Result`.

The code is modelled as written. Three behaviours are looser than the program's own
error messages suggest ("Issuer Card ID cannot be empty!", "Cannot mark the book as
available until it is returned."):

- `add_book` does not stop when the issuer prompt is cancelled or left empty. It shows
  "Invalid Entry", continues to the confirmation, and inserts the record with issuer
  `'N/A'`, even when the status is Issued (reading a cancelled prompt as empty, see
  Left out; `Workflow.AddIssuedWithoutIssuer`).
- `update_book` stores the form's issuer verbatim, so a cancelled re-prompt stores an
  Issued record with an empty issuer (reading a cancelled prompt as empty, see Left
  out; `Workflow.UpdateMayBreakConsistent`).
- Hence "Available ⇒ issuer is 'N/A', Issued ⇒ issuer non-empty" is not an invariant of
  the program. Toggle, remove and clear keep it; add and update can break it
  (`Workflow.AddMayBreakConsistent`).

The tree selection is modelled as the selected row's values (`Option<Row>`), since that
is what the handlers read (`tree.item(...)['values']`). The class methods require the
selected row to be one the tree shows, which Tk guarantees. Because the tree lists the
table, that row is the stored record (`Catalog.ListedRowIsStored`).

## Model

| member | source | states |
|---|---|---|
| `Catalog.RowOf` | main.py:35-37 | a displayed row carries the key and all four stored columns unchanged |
| `Catalog.Insert` | main.py:56-66 | an insert fails exactly when the key is already present; on success the keys grow by exactly that key, it holds the given record, and every existing record is unchanged |
| `Catalog.Update` | main.py:88-91 | keys never change; the record under the key gets the four given columns; all other records are unchanged; a missing key leaves the table as it was |
| `Catalog.SetStatus` | main.py:128-135 | only Status and Issuer_ID of the keyed record change; its title and author and every other record stay |
| `Catalog.Delete` | main.py:104 | exactly the one key is removed; every remaining record is unchanged |
| `Catalog.DeleteAll` | main.py:111 | no record is left |
| `Catalog.InsertThenDelete` | main.py:56-66 | inserting a fresh key and deleting it gives back the original table |
| `Catalog.UpdateThenRestore` | main.py:88-91 | updating a record and writing its old columns back gives back the original table |
| `Catalog.ListedRowIsStored` | main.py:33-37 | a row taken from a listing of the table is the stored record under its key |
| `Catalog.ListingShowsEveryRecord` | main.py:33-37 | every stored record appears in a listing as its own row |
| `Catalog.ListAll` | main.py:33-37 | the rows produced are one per record, each showing its record exactly, no key twice, in no promised order |
| `Workflow.GetIssuerId` | main.py:24-30 | the answer is accepted exactly when it was given and is non-empty, and is then returned unchanged |
| `Workflow.IssuerMessages` | main.py:27-28 | the prompt shows "Invalid Entry" exactly when it refuses the answer, and nothing otherwise |
| `Workflow.AsVar` | main.py:51 | setting issuer_id to an optional value stores the value itself, or the empty string when absent (the reading of `set(None)` named under Left out; the same call is at main.py:86) |
| `Workflow.PromptMessages` | main.py:50-51 | the issuer step shows nothing on an Available form, and "Invalid Entry" exactly when the form is Issued and the prompt was cancelled or left empty (the same step at main.py:85-86) |
| `Workflow.PromptIssuer` | main.py:50-51 | only the issuer field can change; on Available nothing changes; on Issued the field becomes the typed answer, or empty when cancelled |
| `Workflow.OrNotApplicable` | main.py:59 | the stored issuer is never empty: the form's issuer when non-empty, otherwise 'N/A' |
| `Workflow.ClearInputs` | main.py:40-46 | every form field is blank, status is Available, the id entry is editable, the table is untouched |
| `Workflow.AddBook` | main.py:49-66 | declined: table unchanged; duplicate key: table unchanged, form kept with the prompted issuer, duplicate message; otherwise exactly one new record with the form's columns and issuer-or-'N/A', all others unchanged, form cleared, success message |
| `Workflow.UpdateBook` | main.py:84-94 | keys never change; the form's key gets the form's columns with the (re-prompted) issuer verbatim; all other records unchanged; missing key: table unchanged; form always cleared |
| `Workflow.RemoveBook` | main.py:97-106 | no selection: table unchanged and a selection error; otherwise exactly the selected key is removed and nothing else changes |
| `Workflow.ClearInventory` | main.py:109-113 | confirmed: the table is empty; declined: the table is unchanged; the form never changes |
| `Workflow.ToggleAvailability` | main.py:116-138 | Issued and returned: that record becomes Available with 'N/A', title and author kept; Issued and not returned: unchanged with "Action Denied"; Available with a non-empty issuer: that record becomes Issued to it; empty or cancelled issuer: unchanged with "Invalid Entry"; other records and the form never change |
| `Workflow.ViewRecord` | main.py:69-81 | no selection: nothing changes; otherwise the form holds exactly the selected row and the id entry is locked; the table is untouched |
| `Workflow.ToggleKeepsConsistent` | main.py:116-138 | toggling keeps "Available ⇒ 'N/A', Issued ⇒ non-empty issuer" for every record |
| `Workflow.RemoveAndClearKeepConsistent` | main.py:97-113 | removing a record or clearing the inventory keeps that rule |
| `Workflow.ToggleRoundTrip` | main.py:116-138 | issuing a book to a card and then confirming its return restores the record except Status Available and issuer 'N/A'; nothing else changes |
| `Workflow.ToggleRoundTripRestores` | main.py:116-138 | for a record that follows the rule, issue-then-return gives back the whole session |
| `Workflow.ViewThenUpdateKeepsStore` | main.py:69-94 | loading a record and saving it unchanged (answering the re-prompt of an Issued record with its issuer) leaves the table as it was |
| `Workflow.AddIssuedWithoutIssuer` | main.py:49-66 | an Issued add with a cancelled or empty prompt still inserts, as Issued with issuer 'N/A', after showing "Invalid Entry" then success |
| `Workflow.AddMayBreakConsistent` | main.py:49-66 | a declined Issued add leaves the issuer in the form, and a later Available add stores an Available record with that issuer |
| `Workflow.UpdateMayBreakConsistent` | main.py:84-94 | saving a loaded Issued record with the re-prompt cancelled stores it with an empty issuer |
| `LibraryApp.Library.constructor` | main.py:9-21 | the table is what was on disk, the form variables are blank with status Available (their initial values, main.py:158-162), and the tree lists the table (the first refresh, main.py:202) |
| `LibraryApp.Library.RefreshDisplay` | main.py:33-37 | afterwards the tree lists the table |
| `LibraryApp.Library.ClearInputs` | main.py:40-46 | the form fields end as `Workflow.ClearInputs` says |
| `LibraryApp.Library.EnterFields` | main.py:169-179 | typed values land in the form, except that a disabled id entry keeps the loaded id |
| `LibraryApp.Library.PromptIssuer` | main.py:50-51 | the form and the messages end as `Workflow.PromptIssuer` and `Workflow.PromptMessages` say; the same step is repeated at main.py:85-86 |
| `LibraryApp.Library.AddBook` | main.py:49-66 | state and messages are those of `Workflow.AddBook`; the tree still lists the table |
| `LibraryApp.Library.UpdateBook` | main.py:84-94 | state and messages are those of `Workflow.UpdateBook`; the tree still lists the table |
| `LibraryApp.Library.ViewRecord` | main.py:69-81 | state and messages are those of `Workflow.ViewRecord`; the loaded form equals the stored record |
| `LibraryApp.Library.RemoveBook` | main.py:97-106 | state and messages are those of `Workflow.RemoveBook`; a selected record is really removed (one record fewer) |
| `LibraryApp.Library.ClearInventory` | main.py:109-113 | state and messages are those of `Workflow.ClearInventory`; after confirmation the tree is empty |
| `LibraryApp.Library.ToggleAvailability` | main.py:116-138 | state and messages are those of `Workflow.ToggleAvailability`; the status it branches on is the stored status of the selected book |

## Left out

- The window layout, colours, fonts, buttons, footer and `root.mainloop()` (main.py:141-205): presentation only. The entries and the status menu appear only as `EnterFields`.
- The SQLite connection, `commit` and on-disk durability: each statement is one atomic map update; the table found on disk at start-up is the constructor's parameter.
- The dialogs themselves: yes/no boxes are boolean inputs, the issuer prompt is an optional string, and error/info pop-ups are returned as messages with no effect on state.
- `issuer_id.set(None)` is taken to leave the variable empty (`Workflow.AsVar`); that conversion is Tk library behaviour outside the program. If Tk stores the text `"None"` instead, the add and update paths above store the issuer `"None"` rather than `'N/A'` or the empty string.
- At most one row is taken to be selected. The tree's default selection mode allows several; `tree.item(...)` on a multiple selection (main.py:75, 103, 122) would raise and abort the handler with nothing changed, a case `Option<Row>` does not express.
- Tk's treeview may convert numeric-looking values (for example a Book_ID `007`) when they are read back from a row; rows are taken to round-trip unchanged.
- The Status column is free text in the table; the model uses the two values the form's menu offers.
- LibraryApp.Library.RefreshDisplay: the order of the rows is not specified, because it is whatever SQLite returns.
