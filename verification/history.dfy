/** The stored table across a history of calls to the ledger's operations.
    Each call starts from the table last saved, applies one operation and
    saves the result; an edit or delete that fails on an out-of-range
    position raises before anything is written, so the stored table is left
    as it was. */
module LedgerHistory {
  import opened LedgerTable

  /** One call of a ledger operation, with its arguments. */
  datatype Operation =
    | Deposit(date: string, amount: real, description: string, category: string)
    | Withdraw(date: string, amount: real, description: string, category: string)
    | Edit(id: nat, amount: real, description: string, category: string)
    | Delete(id: nat)

  predicate IsAppend(op: Operation) {
    op.Deposit? || op.Withdraw?
  }

  /** The row a deposit or withdrawal call appends. */
  function AppendedRow(op: Operation): Record
    requires IsAppend(op)
  {
    if op.Deposit? then DepositRecord(op.date, op.amount, op.description, op.category)
    else WithdrawalRecord(op.date, op.amount, op.description, op.category)
  }

  /** The stored table after one call of a ledger method, or None when the
      call raises an out-of-range error. The edit and delete methods return
      without change on an empty table, whatever the position. */
  function Apply(t: seq<Record>, op: Operation): (r: Option<seq<Record>>)
    ensures r.None? <==> (op.Edit? || op.Delete?) && t != [] && op.id >= |t|
    ensures r.Some? && IsAppend(op) ==>
              |r.value| == |t| + 1 && r.value[..|t|] == t && r.value[|t|] == AppendedRow(op)
    ensures r.Some? && op.Edit? ==> |r.value| == |t|
    ensures r.Some? && op.Delete? ==> |r.value| == if t == [] then 0 else |t| - 1
  {
    match op
    case Deposit(_, _, _, _) => Some(t + [AppendedRow(op)])
    case Withdraw(_, _, _, _) => Some(t + [AppendedRow(op)])
    case Edit(id, amount, description, category) =>
      if t == [] then Some(t)
      else if id < |t| then Some(Edited(t, id, amount, description, category))
      else None
    case Delete(id) =>
      if t == [] then Some(t)
      else if id < |t| then Some(Removed(t, id))
      else None
  }

  /** The stored table after a history of calls; a failed call leaves it
      unchanged. */
  function Run(t: seq<Record>, ops: seq<Operation>): seq<Record>
    decreases |ops|
  {
    if ops == [] then t
    else
      var next := Apply(t, ops[0]);
      Run(if next.Some? then next.value else t, ops[1..])
  }

  /** The operation writes no zero amount (a delete writes none at all). */
  predicate WritesNonzero(op: Operation) {
    op.Delete? || op.amount != 0.0
  }

  /** The rows a history of appends adds, in order. */
  function AppendedRows(ops: seq<Operation>): (rows: seq<Record>)
    requires forall k :: 0 <= k < |ops| ==> IsAppend(ops[k])
    ensures |rows| == |ops|
    ensures forall k :: 0 <= k < |ops| ==> rows[k] == AppendedRow(ops[k])
  {
    if ops == [] then []
    else
      assert IsAppend(ops[0]);
      assert forall k :: 0 <= k < |ops[1..]| ==> ops[1..][k] == ops[k + 1];
      [AppendedRow(ops[0])] + AppendedRows(ops[1..])
  }

  /** If every record is well formed and no operation writes a zero amount,
      every record stays well formed, whatever edits and deletes happen. */
  lemma {:induction false} RunKeepsWellFormed(t: seq<Record>, ops: seq<Operation>)
    requires AllWellFormed(t)
    requires forall k :: 0 <= k < |ops| ==> WritesNonzero(ops[k])
    ensures AllWellFormed(Run(t, ops))
    decreases |ops|
  {
    if ops != [] {
      var next := Apply(t, ops[0]);
      var t' := if next.Some? then next.value else t;
      assert WritesNonzero(ops[0]);
      assert AllWellFormed(t');
      assert forall k :: 0 <= k < |ops[1..]| ==> WritesNonzero(ops[1..][k]) by {
        forall k | 0 <= k < |ops[1..]| ensures WritesNonzero(ops[1..][k]) {
          assert ops[1..][k] == ops[k + 1];
        }
      }
      RunKeepsWellFormed(t', ops[1..]);
    }
  }

  /** Regrouping a concatenation; stated apart so the solver sees it without
      the quantified facts about the rows. */
  lemma ConcatAssociative(a: seq<Record>, b: seq<Record>, c: seq<Record>)
    ensures a + (b + c) == (a + b) + c
  {
  }

  /** A history of deposits and withdrawals only extends the table: the
      earlier records keep their positions and the new rows follow in the
      order they were added. */
  lemma {:induction false} AppendsOnlyExtend(t: seq<Record>, ops: seq<Operation>)
    requires forall k :: 0 <= k < |ops| ==> IsAppend(ops[k])
    ensures Run(t, ops) == t + AppendedRows(ops)
    decreases |ops|
  {
    if ops != [] {
      var t' := Apply(t, ops[0]).value;
      assert forall k :: 0 <= k < |ops[1..]| ==> IsAppend(ops[1..][k]) by {
        forall k | 0 <= k < |ops[1..]| ensures IsAppend(ops[1..][k]) {
          assert ops[1..][k] == ops[k + 1];
        }
      }
      AppendsOnlyExtend(t', ops[1..]);
      var row, rest := AppendedRow(ops[0]), AppendedRows(ops[1..]);
      assert t' == t + [row];
      assert AppendedRows(ops) == [row] + rest;
      ConcatAssociative(t, [row], rest);
    }
  }

  /** A history of deletes, each at a position inside the table as it is at
      that point, removes exactly one row per call. */
  lemma {:induction false} DeletesShrink(t: seq<Record>, ops: seq<Operation>)
    requires |ops| <= |t|
    requires forall k :: 0 <= k < |ops| ==> ops[k].Delete? && ops[k].id < |t| - k
    ensures |Run(t, ops)| == |t| - |ops|
    decreases |ops|
  {
    if ops != [] {
      var t' := Apply(t, ops[0]).value;
      assert |t'| == |t| - 1;
      assert forall k :: 0 <= k < |ops[1..]| ==> ops[1..][k] == ops[k + 1];
      DeletesShrink(t', ops[1..]);
    }
  }
}
