# theLedger — the ledger store, modelled in Dafny

theLedger is a command-line personal finance ledger. Its one real component is the
`Ledger` class: an ordered table of transaction records (`date`, `description`,
`deposit`, `withdrawal`, `category`) that the user changes by appending a deposit or a
withdrawal, editing a record by position or deleting a record by position. Every
successful change is followed by writing the whole table to the storage file
`ledger.csv`.

The model has three modules:

- `LedgerTable` (`table.dfy`): the `Record` datatype and the pure meaning of each
  change to a table — the row a deposit or a withdrawal appends, the row an edit
  produces, the table after an edit or a delete — with lemmas about how these
  operations combine.
- `LedgerStore` (`ledger.dfy`): the `Ledger` class. Its field `table: seq<Record>` is
  the in-memory table, which the methods reassign the way the source reassigns or
  writes into `self.ledger`. The ghost field `persisted: Option<seq<Record>>` stands
  for the storage file (`None` while none exists). Every method that changes the table
  promises `Synced()`, that is, storage equals the table afterwards. Edit and delete on
  an empty table change nothing and do not save.
- `LedgerHistory` (`history.dfy`): the stored table across a history of calls to the
  ledger's methods (`ledger.py:70-111`). Each call starts from the table last saved,
  applies one operation and saves. An edit or delete whose position is out of range
  on a non-empty table raises before anything is written, so the stored table stays
  as it was. `Apply` gives one call's effect, with the out-of-range error as `None`;
  `Run` replays a history.

Modelling decisions:

- Amounts are `real`. The source stores floats and only compares them with zero.
- The date of a new record is a parameter. The source reads the clock and formats it
  as `DD-MM-YY`.
- The file read at start-up is the constructor's parameter `stored`. `None` means no
  file exists. In that case the table starts empty and is saved at once.
- Records are addressed by 0-based position. A delete removes the row at the given
  position whatever its label: it drops the label it finds at that position
  (`ledger.py:110`), and labels stay unique. An edit reads the row by position
  (`iloc`) but writes its cells by index label (`.at`, `ledger.py:101-105`). Labels
  equal positions on a freshly loaded table, so the model assumes one operation per
  load, which is how the command-line front end uses the class.

A record whose deposit and withdrawal are both zero gets its withdrawal overwritten by
an edit, because the deposit is tested first (`ledger.py:100-101`). `EditedRecord`
states this, and `ZeroedIncomeTurnsIntoExpense` shows the consequence: setting an
income record's amount to zero and then editing it again turns it into an expense
record.

## Model

| member | source | states |
|---|---|---|
| `LedgerTable.DepositRecord` | ledger.py:72-79 | the appended row has the given date, description and category, the deposit equal to the amount and a zero withdrawal; it is an income record, and well formed, exactly when the amount is nonzero |
| `LedgerTable.WithdrawalRecord` | ledger.py:85-91 | mirror of the deposit row: zero deposit, withdrawal equal to the amount; an expense record exactly when the amount is nonzero |
| `LedgerTable.EditedRecord` | ledger.py:100-105 | a zero deposit gets the withdrawal overwritten (also when both amounts are zero); otherwise a zero withdrawal gets the deposit overwritten; two nonzero amounts stay as they were; description and category are always replaced, the date never; an edit with a nonzero amount keeps a well-formed record on its side |
| `LedgerTable.Edited` | ledger.py:98-105 | an edit keeps the table length, changes the row at the position as `EditedRecord` says and no other row, and keeps a table of well-formed records well formed when the amount is nonzero |
| `LedgerTable.Removed` | ledger.py:108-110 | a delete leaves one row fewer; rows before the position keep their places, each later row moves down by one; the rows are the old rows minus the deleted one (as a multiset); well-formedness is kept |
| `LedgerTable.RemoveLastUndoesAppend` | ledger.py:70-111 | deleting the last position right after an append gives back the table as it was |
| `LedgerTable.EditedRecordIdempotent` | ledger.py:100-105 | editing a row twice with the same values gives the same row as editing it once |
| `LedgerTable.EditIdempotent` | ledger.py:98-106 | editing a table twice at the same position with the same values gives the same table as editing it once |
| `LedgerTable.ZeroedIncomeTurnsIntoExpense` | ledger.py:100-103 | editing an income record to amount zero leaves both amounts zero, and a later edit with a nonzero amount then writes the withdrawal, making it an expense record |
| `LedgerTable.DeleteShiftsEdit` | ledger.py:98-111 | positions are not stable: editing position i then deleting position j equals deleting j then editing i's new position (i, or i-1 when i > j) |
| `LedgerTable.DeleteForgetsEdit` | ledger.py:98-111 | editing a row and then deleting it leaves the same table as deleting it without the edit |
| `LedgerHistory.Apply` | ledger.py:70-111 | one call fails exactly when it is an edit or delete at an out-of-range position of a non-empty table; a deposit or withdrawal adds one row, equal to the deposit or withdrawal row, after the unchanged old rows; an edit keeps the length; a delete removes one row, or none from an empty table |
| `LedgerHistory.RunKeepsWellFormed` | ledger.py:60-111 | if every record has exactly one nonzero amount and no operation writes a zero amount, that holds after any history of deposits, withdrawals, edits and deletes |
| `LedgerHistory.AppendsOnlyExtend` | ledger.py:70-93 | a history of deposits and withdrawals leaves the old records in place and adds exactly the appended rows, in order |
| `LedgerHistory.AppendedRows` | ledger.py:70-93 | a history of deposits and withdrawals adds one row per call, and the k-th added row is the deposit or withdrawal row of the k-th call |
| `LedgerHistory.DeletesShrink` | ledger.py:108-111 | a history of deletes, each at a position inside the table as it is then, removes exactly one row per call |
| `LedgerStore.Ledger.constructor` | ledger.py:62-68 | an existing file is loaded as it is; with no file the table starts empty and is saved; either way storage equals the table |
| `LedgerStore.Ledger.Save` | ledger.py:116-118 | storage is overwritten with the whole table, and the table is left alone |
| `LedgerStore.Ledger.Deposit` | ledger.py:70-81 | exactly one row is appended at the end, equal to the deposit row; all earlier rows are unchanged; storage equals the new table |
| `LedgerStore.Ledger.Withdraw` | ledger.py:83-93 | exactly one row is appended at the end, equal to the withdrawal row; all earlier rows are unchanged; storage equals the new table |
| `LedgerStore.Ledger.SelectEntry` | ledger.py:95-96 | returns the row at the position and changes nothing |
| `LedgerStore.Ledger.EditEntry` | ledger.py:98-106 | on an empty table nothing changes and nothing is saved; otherwise the cell-by-cell writes give exactly `Edited` of the old table, and storage equals the new table |
| `LedgerStore.Ledger.DeleteEntry` | ledger.py:108-111 | on an empty table nothing changes and nothing is saved; otherwise the new table is `Removed` of the old one, and storage equals it |
| `LedgerStore.Ledger.Display` | ledger.py:113-114 | returns the whole table and changes nothing |

## Left out

- The command-line commands (`ledger.py:7-57`): argument parsing, prompts and their default values, and printing.
- File I/O: checking that `ledger.csv` exists, reading it, and writing it as CSV. The model keeps only a ghost snapshot of what the file holds. The CSV format is owned by the data-frame library, so there is no serialisation or reload round trip.
- LedgerHistory.Run assumes the table loaded at each call equals the one last saved: the CSV write-and-read round trip is taken to be the identity.
- The `edit` command reads the record with `select_entry` before editing (`ledger.py:35`), so on an empty table the command fails with an index error. `LedgerHistory.Apply` models the `edit_entry` method itself, which leaves an empty table unchanged.
- Reading the clock for a new record's date: the date is a parameter.
- Floating-point behaviour of amounts: amounts are exact reals.
- Negative positions: Python's `iloc` counts them from the end. Positions are `nat` here.
- Out-of-range positions: the source raises an index error. A precondition on the class methods excludes them for select, and for edit and delete on a non-empty table. `LedgerHistory.Apply` models the error as `None`, leaving the stored table unchanged.
- Label and position drift: after a `drop` within one session, index labels and positions differ. Also, `.at` with an unknown label adds a row. The model assumes labels equal positions, as they do on a freshly loaded table.
- `setup.py`: packaging metadata only.
- Concurrent writers to the storage file: not modelled.
