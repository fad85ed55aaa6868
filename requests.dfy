// The request body of create and update, its bean-validation constraints,
// and how the mapper turns an accepted request into a row.
module Requests {
  import opened Results
  import opened Calendar
  import opened Entities

  /** @DecimalMin("0.01"), inclusive, in units of 0.0001. */
  const MinAmount := 100

  /** Every field may be null in Java; `None` stands for null. */
  datatype TransactionRequest = TransactionRequest(
    ledgerId: Option<int>,
    kind: Option<TransactionType>,
    amount: Option<Amount>,
    description: Option<string>,
    category: Option<string>,
    transactionDate: Option<LocalDate>,
    memo: Option<string>)

  /** One constraint violation per annotation. */
  datatype Violation =
    | LedgerIdMissing        // @NotNull ledgerId
    | TypeMissing            // @NotNull type
    | AmountMissing          // @NotNull amount
    | AmountBelowMinimum     // @DecimalMin("0.01") amount
    | DescriptionTooLong     // @Size(max = 500) description
    | CategoryTooLong        // @Size(max = 100) category
    | DateMissing            // @NotNull transactionDate
    | MemoTooLong            // @Size(max = 1000) memo

  /** Validator.validate: the set of violated constraints. @DecimalMin, like
      @Size, accepts null; only @NotNull rejects it. A @Size(max) holds of a
      text exactly when it would fit a column of that length. */
  function Violations(r: TransactionRequest): set<Violation> {
    (if r.ledgerId.None? then {LedgerIdMissing} else {})
    + (if r.kind.None? then {TypeMissing} else {})
    + (if r.amount.None? then {AmountMissing} else {})
    + (if r.amount.Some? && r.amount.value < MinAmount then {AmountBelowMinimum} else {})
    + (if !FitsColumn(r.description, DescriptionMaxLength) then {DescriptionTooLong} else {})
    + (if !FitsColumn(r.category, CategoryMaxLength) then {CategoryTooLong} else {})
    + (if r.transactionDate.None? then {DateMissing} else {})
    + (if !FitsColumn(r.memo, MemoMaxLength) then {MemoTooLong} else {})
  }

  /** @Valid lets the request through exactly when nothing is violated. */
  predicate IsValid(r: TransactionRequest) {
    Violations(r) == {}
  }

  /** The validator's verdict field by field: required fields present, the
      amount at least 0.01, and each present text within its limit. */
  lemma {:induction false} ValidIff(r: TransactionRequest)
    ensures IsValid(r) <==>
      && r.ledgerId.Some? && r.kind.Some? && r.amount.Some? && r.transactionDate.Some?
      && r.amount.value >= MinAmount
      && FitsColumn(r.description, DescriptionMaxLength)
      && FitsColumn(r.category, CategoryMaxLength)
      && FitsColumn(r.memo, MemoMaxLength)
  {
    if r.ledgerId.None? { assert LedgerIdMissing in Violations(r); }
    if r.kind.None? { assert TypeMissing in Violations(r); }
    if r.amount.None? { assert AmountMissing in Violations(r); }
    if r.amount.Some? && r.amount.value < MinAmount { assert AmountBelowMinimum in Violations(r); }
    if !FitsColumn(r.description, DescriptionMaxLength) { assert DescriptionTooLong in Violations(r); }
    if !FitsColumn(r.category, CategoryMaxLength) { assert CategoryTooLong in Violations(r); }
    if r.transactionDate.None? { assert DateMissing in Violations(r); }
    if !FitsColumn(r.memo, MemoMaxLength) { assert MemoTooLong in Violations(r); }
  }

  /** The @DecimalMin bound is inclusive: 0.01 passes, 0.0099 does not. */
  lemma AmountBoundary(r: TransactionRequest)
    requires r.amount.Some?
    ensures r.amount.value == MinAmount ==> AmountBelowMinimum !in Violations(r)
    ensures r.amount.value == MinAmount - 1 ==> AmountBelowMinimum in Violations(r)
  {
  }

  /** The mapper's toEntity followed by setUserId(caller): the owner is the
      caller, never a value from the request; the row is not deleted. */
  function ToEntity(id: int, r: TransactionRequest, userId: int): (t: Transaction)
    requires IsValid(r)
    ensures t.id == id && t.userId == userId && !t.isDeleted
    ensures t.ledgerId == r.ledgerId.value && t.kind == r.kind.value && t.amount == r.amount.value
    ensures t.transactionDate == r.transactionDate.value
    ensures t.description == r.description && t.category == r.category && t.memo == r.memo
  {
    ValidIff(r);
    Transaction(id, r.ledgerId.value, userId, r.kind.value, r.amount.value,
                r.description, r.category, r.transactionDate.value, r.memo, false)
  }

  /** The mapper's updateEntity: every mutable field is replaced from the
      request (ledgerId included); id, owner and soft-delete flag are kept. */
  function UpdateEntity(r: TransactionRequest, t: Transaction): (u: Transaction)
    requires IsValid(r)
    ensures u.id == t.id && u.userId == t.userId && u.isDeleted == t.isDeleted
    ensures u.ledgerId == r.ledgerId.value && u.kind == r.kind.value && u.amount == r.amount.value
    ensures u.transactionDate == r.transactionDate.value
    ensures u.description == r.description && u.category == r.category && u.memo == r.memo
  {
    ValidIff(r);
    t.(ledgerId := r.ledgerId.value, kind := r.kind.value, amount := r.amount.value,
       description := r.description, category := r.category,
       transactionDate := r.transactionDate.value, memo := r.memo)
  }

  /** An accepted request yields an amount of at least 0.01 and texts that
      fit their columns, on create and on update; the row is well formed
      exactly when the amount also fits its column, which no annotation
      checks. */
  lemma {:induction false} ValidRequestGivesWellFormedRow(r: TransactionRequest, id: int, userId: int, t: Transaction)
    requires IsValid(r)
    ensures ToEntity(id, r, userId).amount >= MinAmount && UpdateEntity(r, t).amount >= MinAmount
    ensures WellFormed(ToEntity(id, r, userId)) <==> r.amount.value < AmountColumnLimit
    ensures WellFormed(UpdateEntity(r, t)) <==> r.amount.value < AmountColumnLimit
  {
    ValidIff(r);
  }

  /** Validation puts no upper bound on the amount: a request for 10^15
      (10^19 units of 0.0001) is accepted although the column cannot hold it. */
  lemma ValidationAdmitsOversizedAmount(d: LocalDate)
    ensures var r := TransactionRequest(Some(1), Some(Expense), Some(AmountColumnLimit), None, None, Some(d), None);
      IsValid(r) && !FitsAmountColumn(r.amount.value)
  {
    var r := TransactionRequest(Some(1), Some(Expense), Some(AmountColumnLimit), None, None, Some(d), None);
    ValidIff(r);
  }
}
