// The ledger's records: the owned Transaction aggregate, the response view of
// it, and the local replica of a ledger owned by the ledgering service.
module Entities {
  import opened Results
  import opened Calendar

  /** Amounts are BigDecimal at scale 4, held exactly as integers in units of 0.0001. */
  type Amount = int

  const AmountScale := 10000

  /** The amount column is NUMERIC(19, 4): nineteen digits, four of them
      after the point, so every stored amount is below 10^19 units. */
  const AmountPrecision := 19
  const AmountColumnLimit := 10_000_000_000_000_000_000

  /** The amount column can hold the value. */
  predicate FitsAmountColumn(a: Amount) {
    -AmountColumnLimit < a < AmountColumnLimit
  }

  /** Column lengths of Transaction (description, category, memo). */
  const DescriptionMaxLength := 500
  const CategoryMaxLength := 100
  const MemoMaxLength := 1000

  /** The closed enum TransactionType. */
  datatype TransactionType = Income | Expense

  /** A row of the transaction table. `kind` is the entity's `type` column;
      `isDeleted` is the soft-delete flag of its base entity. */
  datatype Transaction = Transaction(
    id: int,
    ledgerId: int,
    userId: int,
    kind: TransactionType,
    amount: Amount,
    description: Option<string>,
    category: Option<string>,
    transactionDate: LocalDate,
    memo: Option<string>,
    isDeleted: bool)

  /** What the service hands back for a transaction (audit timestamps are not modelled). */
  datatype TransactionResponse = TransactionResponse(
    id: int,
    ledgerId: int,
    userId: int,
    kind: TransactionType,
    amount: Amount,
    description: Option<string>,
    category: Option<string>,
    transactionDate: LocalDate,
    memo: Option<string>)

  /** A row of the local ledger replica, synchronised from the ledgering service. */
  datatype ReplicaLedger = ReplicaLedger(ledgerId: int, userId: int, isDeleted: bool)

  /** The business errors the service raises, DateTimeException for a year
      or month java.time rejects, and AmountOutOfRange for the database
      refusing to store an amount its column cannot hold, which rolls the
      whole write back. */
  datatype ErrorCode = TransactionNotFound | LedgerNotFound | LedgerAccessDenied | InvalidDate | AmountOutOfRange

  /** The mapper's toResponse: a field-by-field copy. */
  function ToResponse(t: Transaction): (r: TransactionResponse)
    ensures r.id == t.id && r.ledgerId == t.ledgerId && r.userId == t.userId
    ensures r.kind == t.kind && r.amount == t.amount && r.transactionDate == t.transactionDate
    ensures r.description == t.description && r.category == t.category && r.memo == t.memo
  {
    TransactionResponse(t.id, t.ledgerId, t.userId, t.kind, t.amount,
                        t.description, t.category, t.transactionDate, t.memo)
  }

  /** The mapper's toResponseList. */
  function ToResponses(ts: seq<Transaction>): (rs: seq<TransactionResponse>)
    ensures |rs| == |ts|
    ensures forall i :: 0 <= i < |ts| ==> rs[i] == ToResponse(ts[i])
  {
    if ts == [] then [] else [ToResponse(ts[0])] + ToResponses(ts[1..])
  }

  predicate FitsColumn(s: Option<string>, maxLength: nat) {
    s.None? || |s.value| <= maxLength
  }

  /** What the table holds of every row: a strictly positive amount that
      fits its column and optional texts within their column lengths. */
  predicate WellFormed(t: Transaction) {
    t.amount > 0
    && FitsAmountColumn(t.amount)
    && FitsColumn(t.description, DescriptionMaxLength)
    && FitsColumn(t.category, CategoryMaxLength)
    && FitsColumn(t.memo, MemoMaxLength)
  }
}
