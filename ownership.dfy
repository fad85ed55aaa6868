// The two ledger checks of the transaction service: the strict ownership
// check used before a transaction is created, and the tolerant access check
// used by every read, which falls back on the transactions already in the
// ledger when the ledger replica has not been synchronised yet.
module Ownership {
  import opened Results
  import opened Entities
  import opened Repository

  /** validateLedgerOwnership: only a live replica of the ledger owned by the
      user passes; LEDGER_NOT_FOUND takes precedence over LEDGER_ACCESS_DENIED. */
  function ValidateLedgerOwnership(replicas: set<ReplicaLedger>, ledgerId: int, userId: int): (o: Outcome<ErrorCode>)
    ensures o.Pass? <==> ReplicaOwnedBy(replicas, ledgerId, userId)
    ensures o == Fail(LedgerNotFound) <==> !ReplicaExists(replicas, ledgerId)
    ensures o == Fail(LedgerAccessDenied) <==>
      ReplicaExists(replicas, ledgerId) && !ReplicaOwnedBy(replicas, ledgerId, userId)
  {
    if ReplicaOwnedBy(replicas, ledgerId, userId) then Pass
    else if !ReplicaExists(replicas, ledgerId) then Fail(LedgerNotFound)
    else Fail(LedgerAccessDenied)
  }

  /** validateLedgerAccess exactly as the service has it: the owner passes;
      otherwise a user with a live transaction in the ledger passes; otherwise
      a ledger with live transactions is denied; otherwise a ledger without a
      live replica is not found; and otherwise the check falls through and
      passes. */
  function ValidateLedgerAccessAsWritten(replicas: set<ReplicaLedger>, rows: seq<Transaction>,
                                         ledgerId: int, userId: int): Outcome<ErrorCode>
  {
    if ReplicaOwnedBy(replicas, ledgerId, userId) then Pass
    else if ExistsByLedgerAndUser(rows, ledgerId, userId) then Pass
    else if CountByLedger(rows, ledgerId) > 0 then Fail(LedgerAccessDenied)
    else if !ReplicaExists(replicas, ledgerId) then Fail(LedgerNotFound)
    else Pass
  }

  /** The access check as written passes in exactly three situations, the
      third being a live replica that belongs to someone else in a ledger
      with no live transactions. */
  lemma AccessAsWrittenTable(replicas: set<ReplicaLedger>, rows: seq<Transaction>, ledgerId: int, userId: int)
    ensures ValidateLedgerAccessAsWritten(replicas, rows, ledgerId, userId).Pass? <==>
      || ReplicaOwnedBy(replicas, ledgerId, userId)
      || ExistsByLedgerAndUser(rows, ledgerId, userId)
      || (CountByLedger(rows, ledgerId) == 0 && ReplicaExists(replicas, ledgerId))
  {
  }

  /** The input that shows the fall-through: ledger 1 has a live replica
      owned by user 2 and no transactions, and user 3 is let in. */
  lemma AccessAsWrittenAdmitsStranger()
    ensures var replicas := {ReplicaLedger(1, 2, false)};
      && !ReplicaOwnedBy(replicas, 1, 3)
      && !ExistsByLedgerAndUser([], 1, 3)
      && ValidateLedgerAccessAsWritten(replicas, [], 1, 3) == Pass
  {
    var replicas := {ReplicaLedger(1, 2, false)};
    assert ReplicaLedger(1, 2, false) in replicas;
    assert CountByLedger([], 1) == 0;
  }

  /** validateLedgerAccess as its documentation states it: access only for
      the ledger's owner or a user with a transaction in it. The case the
      code lets fall through (a live replica owned by someone else, no live
      transactions) is denied, as the strict check denies it. */
  function ValidateLedgerAccess(replicas: set<ReplicaLedger>, rows: seq<Transaction>,
                                ledgerId: int, userId: int): (o: Outcome<ErrorCode>)
    ensures o.Pass? <==> ReplicaOwnedBy(replicas, ledgerId, userId) || ExistsByLedgerAndUser(rows, ledgerId, userId)
    ensures o == Fail(LedgerNotFound) <==>
      !ReplicaExists(replicas, ledgerId) && CountByLedger(rows, ledgerId) == 0
    ensures o == Fail(LedgerAccessDenied) <==>
      && !ReplicaOwnedBy(replicas, ledgerId, userId)
      && !ExistsByLedgerAndUser(rows, ledgerId, userId)
      && (ReplicaExists(replicas, ledgerId) || CountByLedger(rows, ledgerId) > 0)
  {
    if ReplicaOwnedBy(replicas, ledgerId, userId) then Pass
    else if ExistsByLedgerAndUser(rows, ledgerId, userId) then
      assert CountByLedger(rows, ledgerId) > 0 by { UserRowCounts(rows, ledgerId, userId); }
      Pass
    else if CountByLedger(rows, ledgerId) > 0 then Fail(LedgerAccessDenied)
    else if !ReplicaExists(replicas, ledgerId) then Fail(LedgerNotFound)
    else Fail(LedgerAccessDenied)
  }

  /** A live transaction of the user in the ledger is counted by countByLedgerId. */
  lemma UserRowCounts(rows: seq<Transaction>, ledgerId: int, userId: int)
    requires ExistsByLedgerAndUser(rows, ledgerId, userId)
    ensures CountByLedger(rows, ledgerId) > 0
  {
    var t :| t in rows && t.ledgerId == ledgerId && t.userId == userId && !t.isDeleted;
    SelectMembers(rows, LedgerOnly(ledgerId));
    assert t in Select(rows, LedgerOnly(ledgerId));
  }

  /** The corrected check differs from the code only in the fall-through
      case, and there only in denying instead of passing. */
  lemma AccessCorrectionIsNarrow(replicas: set<ReplicaLedger>, rows: seq<Transaction>, ledgerId: int, userId: int)
    ensures ValidateLedgerAccess(replicas, rows, ledgerId, userId) != ValidateLedgerAccessAsWritten(replicas, rows, ledgerId, userId)
      <==> && !ReplicaOwnedBy(replicas, ledgerId, userId)
           && !ExistsByLedgerAndUser(rows, ledgerId, userId)
           && CountByLedger(rows, ledgerId) == 0
           && ReplicaExists(replicas, ledgerId)
    ensures ValidateLedgerAccess(replicas, rows, ledgerId, userId).Pass? ==>
      ValidateLedgerAccessAsWritten(replicas, rows, ledgerId, userId).Pass?
  {
  }

  /** Whoever may create in a ledger may also read it, and anyone the strict
      check turns away for a ledger that does not exist and that holds no
      transactions is turned away by the tolerant check for the same reason. */
  lemma StrictImpliesTolerant(replicas: set<ReplicaLedger>, rows: seq<Transaction>, ledgerId: int, userId: int)
    ensures ValidateLedgerOwnership(replicas, ledgerId, userId).Pass? ==>
      ValidateLedgerAccess(replicas, rows, ledgerId, userId).Pass?
    ensures ValidateLedgerOwnership(replicas, ledgerId, userId) == Fail(LedgerNotFound) && CountByLedger(rows, ledgerId) == 0 ==>
      ValidateLedgerAccess(replicas, rows, ledgerId, userId) == Fail(LedgerNotFound)
  {
  }
}
