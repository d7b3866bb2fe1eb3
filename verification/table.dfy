/** Transaction records and the pure operations on a ledger table.
    A table is an ordered sequence of records indexed by 0-based position;
    the class in ledger.dfy keeps one of these and updates it in place. */
module LedgerTable {

  datatype Option<+T> = None | Some(value: T)

  /** One row of the ledger: the five columns of the stored table.
      Amounts are stored as given and only ever compared with zero. */
  datatype Record = Record(
    date: string,
    description: string,
    deposit: real,
    withdrawal: real,
    category: string)

  /** A record is an income record: a nonzero deposit and no withdrawal. */
  predicate IsIncome(row: Record) {
    row.deposit != 0.0 && row.withdrawal == 0.0
  }

  /** A record is an expense record: a nonzero withdrawal and no deposit. */
  predicate IsExpense(row: Record) {
    row.deposit == 0.0 && row.withdrawal != 0.0
  }

  /** The intended shape of a record: exactly one of the two amounts is
      nonzero. Nothing in the ledger enforces it. */
  predicate WellFormed(row: Record) {
    (row.deposit != 0.0) != (row.withdrawal != 0.0)
  }

  predicate AllWellFormed(t: seq<Record>) {
    forall k :: 0 <= k < |t| ==> WellFormed(t[k])
  }

  /** The row appended by a deposit. */
  function DepositRecord(date: string, amount: real, description: string, category: string): (r: Record)
    ensures r.date == date && r.description == description && r.category == category
    ensures r.deposit == amount && r.withdrawal == 0.0
    ensures IsIncome(r) <==> amount != 0.0
    ensures WellFormed(r) <==> amount != 0.0
    ensures !IsExpense(r)
  {
    Record(date, description, amount, 0.0, category)
  }

  /** The row appended by a withdrawal. */
  function WithdrawalRecord(date: string, amount: real, description: string, category: string): (r: Record)
    ensures r.date == date && r.description == description && r.category == category
    ensures r.deposit == 0.0 && r.withdrawal == amount
    ensures IsExpense(r) <==> amount != 0.0
    ensures WellFormed(r) <==> amount != 0.0
    ensures !IsIncome(r)
  {
    Record(date, description, 0.0, amount, category)
  }

  /** The row after an edit. Which amount is overwritten is decided by the
      old amounts: a zero deposit means the withdrawal is overwritten (also
      when the withdrawal is zero too); otherwise a zero withdrawal means the
      deposit is overwritten; when both are nonzero neither amount changes.
      Description and category are always replaced; the date never is. */
  function EditedRecord(row: Record, amount: real, description: string, category: string): (r: Record)
    ensures r.date == row.date && r.description == description && r.category == category
    ensures row.deposit == 0.0 ==> r.deposit == 0.0 && r.withdrawal == amount
    ensures row.deposit != 0.0 && row.withdrawal == 0.0 ==> r.deposit == amount && r.withdrawal == 0.0
    ensures row.deposit != 0.0 && row.withdrawal != 0.0 ==>
              r.deposit == row.deposit && r.withdrawal == row.withdrawal
    // an edit with a nonzero amount keeps a well-formed record on its side
    ensures WellFormed(row) && amount != 0.0 ==>
              WellFormed(r) && IsIncome(r) == IsIncome(row) && IsExpense(r) == IsExpense(row)
  {
    var amounts :=
      if row.deposit == 0.0 then row.(withdrawal := amount)
      else if row.withdrawal == 0.0 then row.(deposit := amount)
      else row;
    amounts.(description := description, category := category)
  }

  /** The table after editing the row at position i. */
  function Edited(t: seq<Record>, i: nat, amount: real, description: string, category: string): (r: seq<Record>)
    requires i < |t|
    ensures |r| == |t|
    ensures r[i] == EditedRecord(t[i], amount, description, category)
    ensures forall k :: 0 <= k < |t| && k != i ==> r[k] == t[k]
    ensures AllWellFormed(t) && amount != 0.0 ==> AllWellFormed(r)
  {
    t[i := EditedRecord(t[i], amount, description, category)]
  }

  /** The table after deleting the row at position i: earlier rows keep
      their positions, every later row moves down by one. */
  function Removed(t: seq<Record>, i: nat): (r: seq<Record>)
    requires i < |t|
    ensures |r| == |t| - 1
    ensures forall k :: 0 <= k < i ==> r[k] == t[k]
    ensures forall k :: i <= k < |r| ==> r[k] == t[k + 1]
    ensures multiset(r) + multiset{t[i]} == multiset(t)
    ensures AllWellFormed(t) ==> AllWellFormed(r)
  {
    assert t == t[..i] + [t[i]] + t[i + 1..];
    t[..i] + t[i + 1..]
  }

  /** Deleting the last row undoes an append. */
  lemma RemoveLastUndoesAppend(t: seq<Record>, row: Record)
    ensures Removed(t + [row], |t|) == t
  {
    var r := Removed(t + [row], |t|);
    assert forall k :: 0 <= k < |t| ==> r[k] == t[k];
  }

  /** Editing a row twice with the same values is the same as editing it once,
      including when the first edit zeroes the deposit of an income record. */
  lemma EditedRecordIdempotent(row: Record, amount: real, description: string, category: string)
    ensures var once := EditedRecord(row, amount, description, category);
            EditedRecord(once, amount, description, category) == once
  {
    var once := EditedRecord(row, amount, description, category);
    if row.deposit != 0.0 && row.withdrawal == 0.0 && amount == 0.0 {
      assert once.deposit == 0.0 && once.withdrawal == 0.0;
    }
  }

  lemma EditIdempotent(t: seq<Record>, i: nat, amount: real, description: string, category: string)
    requires i < |t|
    ensures var once := Edited(t, i, amount, description, category);
            Edited(once, i, amount, description, category) == once
  {
    var once := Edited(t, i, amount, description, category);
    EditedRecordIdempotent(t[i], amount, description, category);
    var twice := Edited(once, i, amount, description, category);
    assert forall k :: 0 <= k < |t| ==> twice[k] == once[k];
  }

  /** Setting an income record's amount to zero leaves a record with both
      amounts zero, and a later edit of that record then writes the
      withdrawal: the income record has become an expense record. */
  lemma ZeroedIncomeTurnsIntoExpense(row: Record, amount: real, d1: string, c1: string, d2: string, c2: string)
    requires IsIncome(row) && amount != 0.0
    ensures var zeroed := EditedRecord(row, 0.0, d1, c1);
            zeroed.deposit == 0.0 && zeroed.withdrawal == 0.0 && !WellFormed(zeroed) &&
            var again := EditedRecord(zeroed, amount, d2, c2);
            IsExpense(again) && again.withdrawal == amount
  {
  }

  /** Positions are not stable across a delete: editing position i and then
      deleting position j gives the same table as deleting j first and then
      editing the row's new position. */
  lemma DeleteShiftsEdit(t: seq<Record>, i: nat, j: nat, amount: real, description: string, category: string)
    requires i < |t| && j < |t| && i != j
    ensures var i' := if i < j then i else i - 1;
            i' < |t| - 1 &&
            Removed(Edited(t, i, amount, description, category), j)
              == Edited(Removed(t, j), i', amount, description, category)
  {
    var i' := if i < j then i else i - 1;
    var lhs := Removed(Edited(t, i, amount, description, category), j);
    var rhs := Edited(Removed(t, j), i', amount, description, category);
    assert |lhs| == |rhs|;
    forall k | 0 <= k < |lhs|
      ensures lhs[k] == rhs[k]
    {
      if k < j {
        assert lhs[k] == Edited(t, i, amount, description, category)[k];
      } else {
        assert lhs[k] == Edited(t, i, amount, description, category)[k + 1];
      }
    }
  }

  /** Editing a row and then deleting it is the same as deleting it. */
  lemma DeleteForgetsEdit(t: seq<Record>, i: nat, amount: real, description: string, category: string)
    requires i < |t|
    ensures Removed(Edited(t, i, amount, description, category), i) == Removed(t, i)
  {
    var e := Edited(t, i, amount, description, category);
    var lhs, rhs := Removed(e, i), Removed(t, i);
    forall k | 0 <= k < |lhs|
      ensures lhs[k] == rhs[k]
    {
      if k < i {
        assert lhs[k] == e[k];
      } else {
        assert lhs[k] == e[k + 1];
      }
    }
  }
}
