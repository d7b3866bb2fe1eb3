/** The ledger store: an in-memory table of records that every successful
    change writes through to storage. The stored file is modelled by the
    ghost field `persisted` (None while no file exists); the table is
    indexed by position. */
module LedgerStore {
  import opened LedgerTable

  class Ledger {
    /** The in-memory table, in insertion order. */
    var table: seq<Record>
    /** What the storage file holds: None before any file exists. */
    ghost var persisted: Option<seq<Record>>

    /** Storage agrees with the in-memory table. */
    ghost predicate Synced()
      reads this
    {
      persisted == Some(table)
    }

    /** Load the ledger. `stored` is what the storage file holds at start
        (None when there is no file): an existing file is read as it is,
        otherwise the table starts empty and is saved straight away. */
    constructor (stored: Option<seq<Record>>)
      ensures stored.Some? ==> table == stored.value
      ensures stored.None? ==> table == []
      ensures Synced()
    {
      table := if stored.Some? then stored.value else [];
      persisted := stored;
      new;
      if stored.None? {
        Save();
      }
    }

    /** Overwrite storage with the whole table. */
    method Save()
      modifies this`persisted
      ensures Synced()
    {
      persisted := Some(table);
    }

    /** Append an income record dated `date` and save. */
    method Deposit(date: string, amount: real, description: string, category: string)
      modifies this
      ensures |table| == |old(table)| + 1
      ensures table[..|old(table)|] == old(table)
      ensures table[|old(table)|] == DepositRecord(date, amount, description, category)
      ensures AllWellFormed(old(table)) && amount != 0.0 ==> AllWellFormed(table)
      ensures Synced()
    {
      var row := DepositRecord(date, amount, description, category);
      table := table + [row];
      Save();
    }

    /** Append an expense record dated `date` and save. */
    method Withdraw(date: string, amount: real, description: string, category: string)
      modifies this
      ensures |table| == |old(table)| + 1
      ensures table[..|old(table)|] == old(table)
      ensures table[|old(table)|] == WithdrawalRecord(date, amount, description, category)
      ensures AllWellFormed(old(table)) && amount != 0.0 ==> AllWellFormed(table)
      ensures Synced()
    {
      var row := WithdrawalRecord(date, amount, description, category);
      table := table + [row];
      Save();
    }

    /** The record at position `id`; the table is not changed. */
    method SelectEntry(id: nat) returns (row: Record)
      requires id < |table|
      ensures row == table[id]
    {
      row := table[id];
    }

    /** Edit the record at position `id` cell by cell, then save. On an
        empty table nothing happens and nothing is saved. */
    method EditEntry(id: nat, amount: real, description: string, category: string)
      requires table == [] || id < |table|
      modifies this
      ensures old(table) == [] ==> table == old(table) && persisted == old(persisted)
      ensures old(table) != [] ==>
                table == Edited(old(table), id, amount, description, category) && Synced()
    {
      if table != [] {
        var row := table[id];
        if row.deposit == 0.0 {
          table := table[id := table[id].(withdrawal := amount)];
        } else if row.withdrawal == 0.0 {
          table := table[id := table[id].(deposit := amount)];
        }
        table := table[id := table[id].(description := description)];
        table := table[id := table[id].(category := category)];
        Save();
      }
    }

    /** Delete the record at position `id`, shifting later records down by
        one, then save. On an empty table nothing happens and nothing is saved. */
    method DeleteEntry(id: nat)
      requires table == [] || id < |table|
      modifies this
      ensures old(table) == [] ==> table == old(table) && persisted == old(persisted)
      ensures old(table) != [] ==> table == Removed(old(table), id) && Synced()
    {
      if table != [] {
        table := table[..id] + table[id + 1..];
        Save();
      }
    }

    /** The whole table, unchanged. */
    method Display() returns (rows: seq<Record>)
      ensures rows == table
    {
      rows := table;
    }
  }
}
