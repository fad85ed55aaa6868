// The transaction service: the write operations, which change the table and
// append to the outbox, and the read operations, which check access to the
// ledger and then answer from the repository's queries.
module Service {
  import opened Results
  import opened Calendar
  import opened Entities
  import opened Requests
  import opened Repository
  import opened Aggregation
  import opened Ownership
  import opened Events

  /** A row the service appends on create: the next IDENTITY id, the
      request's fields, and the caller as owner. After it, the table is still
      valid and the caller's id lookup finds the new row, and nobody else's does. */
  lemma CreatedRowIsFound(rows: seq<Transaction>, request: TransactionRequest, userId: int, otherUser: int)
    requires TableValid(rows) && IsValid(request) && otherUser != userId
    requires request.amount.value < AmountColumnLimit
    ensures var t := ToEntity(|rows| + 1, request, userId);
      && TableValid(rows + [t])
      && FindByIdAndUser(rows + [t], |rows| + 1, userId) == Some(t)
      && FindByIdAndUser(rows + [t], |rows| + 1, otherUser).None?
  {
    var t := ToEntity(|rows| + 1, request, userId);
    ValidRequestGivesWellFormedRow(request, |rows| + 1, userId, t);
    var after := rows + [t];
    assert after[|rows|] == t;
    FindByIdAndUserInTable(after, |rows| + 1, userId);
    FindByIdAndUserInTable(after, |rows| + 1, otherUser);
  }

  /** An update keeps the table valid and the row findable by its owner,
      now with the request's contents. */
  lemma UpdatedRowIsFound(rows: seq<Transaction>, id: int, request: TransactionRequest, userId: int)
    requires TableValid(rows) && IsValid(request)
    requires 1 <= id <= |rows| && rows[id - 1].userId == userId && !rows[id - 1].isDeleted
    requires request.amount.value < AmountColumnLimit
    ensures var u := UpdateEntity(request, rows[id - 1]);
      && TableValid(rows[id - 1 := u])
      && FindByIdAndUser(rows[id - 1 := u], id, userId) == Some(u)
  {
    var u := UpdateEntity(request, rows[id - 1]);
    ValidRequestGivesWellFormedRow(request, id, userId, rows[id - 1]);
    var after := rows[id - 1 := u];
    assert after[id - 1] == u;
    FindByIdAndUserInTable(after, id, userId);
  }

  /** A soft delete keeps the table valid, and afterwards nobody's id lookup
      finds the row. */
  lemma DeletedRowIsGone(rows: seq<Transaction>, id: int, userId: int)
    requires TableValid(rows) && 1 <= id <= |rows|
    ensures TableValid(MarkDeleted(rows, id - 1))
    ensures FindByIdAndUser(MarkDeleted(rows, id - 1), id, userId).None?
  {
    var after := MarkDeleted(rows, id - 1);
    forall i | 0 <= i < |after| ensures after[i].id == i + 1 && WellFormed(after[i]) {
      if i != id - 1 {
        assert after[i] == rows[i];
      }
    }
    FindByIdAndUserInTable(after, id, userId);
  }

  class TransactionService {
    /** The transaction table, in id order. */
    var rows: seq<Transaction>
    /** The local ledger replica. */
    var replicas: set<ReplicaLedger>
    /** transactionEventProducer. */
    const producer: TransactionEventProducer

    /** The table keeps its ids and its row constraints, and the outbox its ids. */
    ghost predicate Valid()
      reads this, producer
    {
      TableValid(rows) && producer.Valid()
    }

    constructor (rows0: seq<Transaction>, replicas0: set<ReplicaLedger>, eventProducer: TransactionEventProducer)
      requires TableValid(rows0) && eventProducer.Valid()
      ensures rows == rows0 && replicas == replicas0 && producer == eventProducer
      ensures Valid()
    {
      rows := rows0;
      replicas := replicas0;
      producer := eventProducer;
    }

    /** createTransaction: the strict ownership check on the request's ledger;
        when it passes, one new row owned by the caller and one created event
        for it; when it fails, its error and no change at all. */
    method CreateTransaction(request: TransactionRequest, userId: int) returns (r: Result<TransactionResponse, ErrorCode>)
      requires Valid() && IsValid(request)
      modifies this, producer
      ensures Valid() && replicas == old(replicas)
      ensures var t := ToEntity(|old(rows)| + 1, request, userId);
        var check := ValidateLedgerOwnership(old(replicas), t.ledgerId, userId);
        && (r.Success? <==> check.Pass? && FitsAmountColumn(t.amount))
        && (r.Failure? ==>
              && r.error == (if check.Fail? then check.error else AmountOutOfRange)
              && rows == old(rows)
              && producer.outbox == old(producer.outbox) && producer.nextEventId == old(producer.nextEventId))
        && (r.Success? ==>
              && rows == old(rows) + [t]
              && r.value == ToResponse(t)
              && FindByIdAndUser(rows, t.id, userId) == Some(t)
              && producer.outbox == old(producer.outbox) + [EventFor(producer.topic, old(producer.nextEventId), TransactionCreated, t)]
              && producer.nextEventId == old(producer.nextEventId) + 1)
    {
      var t := ToEntity(|rows| + 1, request, userId);
      var check := ValidateLedgerOwnership(replicas, t.ledgerId, userId);
      if check.Fail? {
        return Failure(check.error);
      }
      ValidRequestGivesWellFormedRow(request, |rows| + 1, userId, t);
      if !FitsAmountColumn(t.amount) {
        return Failure(AmountOutOfRange);
      }
      CreatedRowIsFound(rows, request, userId, userId + 1);
      rows := rows + [t];
      producer.PublishTransactionCreated(t);
      r := Success(ToResponse(t));
    }

    /** getTransaction: the caller's own live row with that id, or TRANSACTION_NOT_FOUND. */
    method GetTransaction(id: int, userId: int) returns (r: Result<TransactionResponse, ErrorCode>)
      requires Valid()
      ensures r.Success? <==> 1 <= id <= |rows| && rows[id - 1].userId == userId && !rows[id - 1].isDeleted
      ensures r.Success? ==> r.value == ToResponse(rows[id - 1])
      ensures r.Failure? ==> r.error == TransactionNotFound
    {
      FindByIdAndUserInTable(rows, id, userId);
      var found := FindByIdAndUser(rows, id, userId);
      if found.None? {
        return Failure(TransactionNotFound);
      }
      r := Success(ToResponse(found.value));
    }

    /** getTransactionsByLedger: the access check, then one page of the
        ledger's listing. */
    method GetTransactionsByLedger(ledgerId: int, userId: int, pageNumber: nat, pageSize: nat)
      returns (r: Result<Page<TransactionResponse>, ErrorCode>)
      requires pageSize >= 1
      ensures var access := ValidateLedgerAccess(replicas, rows, ledgerId, userId);
        && (r.Failure? <==> access.Fail?)
        && (r.Failure? ==> r.error == access.error)
      ensures r.Success? ==>
        var page := FindByLedgerPaged(rows, ledgerId, pageNumber, pageSize);
        && r.value == Page(ToResponses(page.content), page.totalElements)
        && r.value.totalElements == CountByLedger(rows, ledgerId)
        && |r.value.content| <= pageSize
    {
      var access := ValidateLedgerAccess(replicas, rows, ledgerId, userId);
      if access.Fail? {
        return Failure(access.error);
      }
      LedgerSummarySpec(rows, ledgerId);
      var page := FindByLedgerPaged(rows, ledgerId, pageNumber, pageSize);
      r := Success(Page(ToResponses(page.content), page.totalElements));
    }

    /** getAllTransactionsByLedger: the access check, then the ledger's whole
        listing, newest first, one entry per live row of the ledger. */
    method GetAllTransactionsByLedger(ledgerId: int, userId: int) returns (r: Result<seq<TransactionResponse>, ErrorCode>)
      ensures var access := ValidateLedgerAccess(replicas, rows, ledgerId, userId);
        && (r.Failure? <==> access.Fail?)
        && (r.Failure? ==> r.error == access.error)
      ensures r.Success? ==>
        && r.value == ToResponses(FindByLedger(rows, ledgerId))
        && |r.value| == CountByLedger(rows, ledgerId)
    {
      var access := ValidateLedgerAccess(replicas, rows, ledgerId, userId);
      if access.Fail? {
        return Failure(access.error);
      }
      LedgerSummarySpec(rows, ledgerId);
      r := Success(ToResponses(FindByLedger(rows, ledgerId)));
    }

    /** updateTransaction: the caller's own live row takes the request's
        fields and one updated event is saved; a row the caller cannot see
        gives TRANSACTION_NOT_FOUND and no change at all. */
    method UpdateTransaction(id: int, request: TransactionRequest, userId: int) returns (r: Result<TransactionResponse, ErrorCode>)
      requires Valid() && IsValid(request)
      modifies this, producer
      ensures Valid() && replicas == old(replicas)
      ensures var found := 1 <= id <= |old(rows)| && old(rows)[id - 1].userId == userId && !old(rows)[id - 1].isDeleted;
        && (r.Success? <==> found && FitsAmountColumn(request.amount.value))
        && (r.Failure? ==> r.error == (if found then AmountOutOfRange else TransactionNotFound))
      ensures r.Failure? ==>
        && rows == old(rows)
        && producer.outbox == old(producer.outbox) && producer.nextEventId == old(producer.nextEventId)
      ensures r.Success? ==>
        var u := UpdateEntity(request, old(rows)[id - 1]);
        && rows == old(rows)[id - 1 := u]
        && r.value == ToResponse(u)
        && FindByIdAndUser(rows, id, userId) == Some(u)
        && producer.outbox == old(producer.outbox) + [EventFor(producer.topic, old(producer.nextEventId), TransactionUpdated, u)]
        && producer.nextEventId == old(producer.nextEventId) + 1
    {
      FindByIdAndUserInTable(rows, id, userId);
      var found := FindByIdAndUser(rows, id, userId);
      if found.None? {
        return Failure(TransactionNotFound);
      }
      var u := UpdateEntity(request, found.value);
      ValidRequestGivesWellFormedRow(request, id, userId, found.value);
      if !FitsAmountColumn(u.amount) {
        return Failure(AmountOutOfRange);
      }
      UpdatedRowIsFound(rows, id, request, userId);
      rows := rows[id - 1 := u];
      producer.PublishTransactionUpdated(u);
      r := Success(ToResponse(u));
    }

    /** deleteTransaction: the caller's own live row is soft-deleted and one
        deleted event is saved; a row the caller cannot see gives
        TRANSACTION_NOT_FOUND and no change at all. */
    method DeleteTransaction(id: int, userId: int) returns (r: Outcome<ErrorCode>)
      requires Valid()
      modifies this, producer
      ensures Valid() && replicas == old(replicas)
      ensures r.Pass? <==> 1 <= id <= |old(rows)| && old(rows)[id - 1].userId == userId && !old(rows)[id - 1].isDeleted
      ensures r.Fail? ==>
        && r.error == TransactionNotFound
        && rows == old(rows)
        && producer.outbox == old(producer.outbox) && producer.nextEventId == old(producer.nextEventId)
      ensures r.Pass? ==>
        && rows == MarkDeleted(old(rows), id - 1)
        && FindByIdAndUser(rows, id, userId).None?
        && producer.outbox == old(producer.outbox) + [EventFor(producer.topic, old(producer.nextEventId), TransactionDeleted, rows[id - 1])]
        && producer.nextEventId == old(producer.nextEventId) + 1
    {
      FindByIdAndUserInTable(rows, id, userId);
      var found := FindByIdAndUser(rows, id, userId);
      if found.None? {
        return Fail(TransactionNotFound);
      }
      DeletedRowIsGone(rows, id, userId);
      rows := MarkDeleted(rows, id - 1);
      producer.PublishTransactionDeleted(rows[id - 1]);
      r := Pass;
    }

    /** getSummaryByLedger: the access check, then the ledger-wide sums and
        count, which are those of the ledger's full listing. */
    method GetSummaryByLedger(ledgerId: int, userId: int) returns (r: Result<LedgerSummary, ErrorCode>)
      ensures var access := ValidateLedgerAccess(replicas, rows, ledgerId, userId);
        && (r.Failure? <==> access.Fail?)
        && (r.Failure? ==> r.error == access.error)
      ensures r.Success? ==>
        && r.value == BuildLedgerSummary(rows, ledgerId)
        && r.value.ledgerId == ledgerId
        && r.value.balance == r.value.totalIncome - r.value.totalExpense
        && r.value.transactionCount == |FindByLedger(rows, ledgerId)|
        && r.value.totalIncome == AmountByType(FindByLedger(rows, ledgerId), Income)
        && r.value.totalExpense == AmountByType(FindByLedger(rows, ledgerId), Expense)
    {
      var access := ValidateLedgerAccess(replicas, rows, ledgerId, userId);
      if access.Fail? {
        return Failure(access.error);
      }
      LedgerSummarySpec(rows, ledgerId);
      r := Success(BuildLedgerSummary(rows, ledgerId));
    }

    /** getDailySummary: the access check, then the summary of the one day. */
    method GetDailySummary(ledgerId: int, date: LocalDate, userId: int) returns (r: Result<PeriodSummary, ErrorCode>)
      ensures var access := ValidateLedgerAccess(replicas, rows, ledgerId, userId);
        && (r.Failure? <==> access.Fail?)
        && (r.Failure? ==> r.error == access.error)
      ensures r.Success? ==>
        && r.value == BuildPeriodSummary(rows, ledgerId, Daily, date, date)
        && r.value.startDate == date && r.value.endDate == date
        && r.value.transactionCount == |r.value.transactions|
        && r.value.balance == r.value.totalIncome - r.value.totalExpense
    {
      var access := ValidateLedgerAccess(replicas, rows, ledgerId, userId);
      if access.Fail? {
        return Failure(access.error);
      }
      PeriodSummarySpec(rows, ledgerId, Daily, date, date);
      r := Success(BuildPeriodSummary(rows, ledgerId, Daily, date, date));
    }

    /** getMonthlySummary: the access check, then YearMonth.of (an invalid
        year or month is rejected), then the month's summary with one detail
        per day that has rows; the details add up to the summary's totals. */
    method GetMonthlySummary(ledgerId: int, year: int, month: int, userId: int) returns (r: Result<PeriodSummary, ErrorCode>)
      ensures var access := ValidateLedgerAccess(replicas, rows, ledgerId, userId);
        && (access.Fail? ==> r == Failure(access.error))
        && (access.Pass? && !IsValidYearMonth(year, month) ==> r == Failure(InvalidDate))
        && (r.Success? <==> access.Pass? && IsValidYearMonth(year, month))
      ensures r.Success? ==>
        var start, end := FirstDayOfMonth(year, month), LastDayOfMonth(year, month);
        var details := BuildDailyDetails(rows, ledgerId, start, end);
        && r.value == BuildPeriodSummary(rows, ledgerId, Monthly, start, end).(periodDetails := Some(details))
        && r.value.transactionCount == FigureSum(details, CountFigure)
        && r.value.totalIncome == FigureSum(details, IncomeFigure)
        && r.value.totalExpense == FigureSum(details, ExpenseFigure)
    {
      var access := ValidateLedgerAccess(replicas, rows, ledgerId, userId);
      if access.Fail? {
        return Failure(access.error);
      }
      if !IsValidYearMonth(year, month) {
        return Failure(InvalidDate);
      }
      var start, end := FirstDayOfMonth(year, month), LastDayOfMonth(year, month);
      var summary := BuildPeriodSummary(rows, ledgerId, Monthly, start, end);
      var details := BuildDailyDetails(rows, ledgerId, start, end);
      DailyDetailsAddUp(rows, ledgerId, start, end);
      assert FigureSum(details, CountFigure) == RangeFigure(rows, ledgerId, CountFigure, start, end);
      assert FigureSum(details, IncomeFigure) == RangeFigure(rows, ledgerId, IncomeFigure, start, end);
      assert FigureSum(details, ExpenseFigure) == RangeFigure(rows, ledgerId, ExpenseFigure, start, end);
      r := Success(summary.(periodDetails := Some(details)));
    }

    /** getYearlySummary: the access check, then LocalDate.of (an invalid year
        is rejected), then the year's summary with one detail per month that
        has rows; the details add up to the summary's totals. */
    method GetYearlySummary(ledgerId: int, year: int, userId: int) returns (r: Result<PeriodSummary, ErrorCode>)
      ensures var access := ValidateLedgerAccess(replicas, rows, ledgerId, userId);
        && (access.Fail? ==> r == Failure(access.error))
        && (access.Pass? && !IsValidYear(year) ==> r == Failure(InvalidDate))
        && (r.Success? <==> access.Pass? && IsValidYear(year))
      ensures r.Success? ==>
        var details := MonthlyDetails(rows, ledgerId, year);
        && r.value == BuildPeriodSummary(rows, ledgerId, Yearly, Date(year, 1, 1), Date(year, 12, 31)).(periodDetails := Some(details))
        && r.value.transactionCount == FigureSum(details, CountFigure)
        && r.value.totalIncome == FigureSum(details, IncomeFigure)
        && r.value.totalExpense == FigureSum(details, ExpenseFigure)
    {
      var access := ValidateLedgerAccess(replicas, rows, ledgerId, userId);
      if access.Fail? {
        return Failure(access.error);
      }
      if !IsValidYear(year) {
        return Failure(InvalidDate);
      }
      var start: LocalDate, end: LocalDate := Date(year, 1, 1), Date(year, 12, 31);
      var summary := BuildPeriodSummary(rows, ledgerId, Yearly, start, end);
      var details := BuildMonthlyDetails(rows, ledgerId, year);
      MonthlyDetailsAddUp(rows, ledgerId, year);
      assert FigureSum(details, CountFigure) == RangeFigure(rows, ledgerId, CountFigure, start, end);
      assert FigureSum(details, IncomeFigure) == RangeFigure(rows, ledgerId, IncomeFigure, start, end);
      assert FigureSum(details, ExpenseFigure) == RangeFigure(rows, ledgerId, ExpenseFigure, start, end);
      r := Success(summary.(periodDetails := Some(details)));
    }

    /** getPeriodSummary: the access check, then the summary of the range,
        labelled DAILY and without details; an inverted range is empty. */
    method GetPeriodSummary(ledgerId: int, start: LocalDate, end: LocalDate, userId: int) returns (r: Result<PeriodSummary, ErrorCode>)
      ensures var access := ValidateLedgerAccess(replicas, rows, ledgerId, userId);
        && (r.Failure? <==> access.Fail?)
        && (r.Failure? ==> r.error == access.error)
      ensures r.Success? ==>
        && r.value == BuildPeriodSummary(rows, ledgerId, Daily, start, end)
        && r.value.transactionCount == |r.value.transactions|
        && (Before(end, start) ==> r.value.transactions == [] && r.value.balance == 0)
    {
      var access := ValidateLedgerAccess(replicas, rows, ledgerId, userId);
      if access.Fail? {
        return Failure(access.error);
      }
      PeriodSummarySpec(rows, ledgerId, Daily, start, end);
      r := Success(BuildPeriodSummary(rows, ledgerId, Daily, start, end));
    }

    /** getTransactionsByPeriod: the access check, then the range listing,
        one entry per live row of the ledger in the range. */
    method GetTransactionsByPeriod(ledgerId: int, start: LocalDate, end: LocalDate, userId: int)
      returns (r: Result<seq<TransactionResponse>, ErrorCode>)
      ensures var access := ValidateLedgerAccess(replicas, rows, ledgerId, userId);
        && (r.Failure? <==> access.Fail?)
        && (r.Failure? ==> r.error == access.error)
      ensures r.Success? ==>
        && r.value == ToResponses(FindByLedgerBetween(rows, ledgerId, start, end))
        && |r.value| == CountByLedgerBetween(rows, ledgerId, start, end)
    {
      var access := ValidateLedgerAccess(replicas, rows, ledgerId, userId);
      if access.Fail? {
        return Failure(access.error);
      }
      ListingFigures(rows, ledgerId, start, end);
      r := Success(ToResponses(FindByLedgerBetween(rows, ledgerId, start, end)));
    }
  }
}
