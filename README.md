# Transaction service of a shared household ledger, modelled in Dafny

The transaction service keeps the income and expense entries ("transactions")
of household ledgers. A user creates, updates and soft-deletes their own
transactions. The service checks ledger ownership against a local replica of
the ledgers, which is synchronised from the ledgering service. Reads are
guarded by a more tolerant access check. They answer with listings, ledger
totals, and period summaries: daily, monthly with a per-day breakdown, yearly
with a per-month breakdown, or a custom range. Every change appends one event
to a transactional outbox.

The model is split by the program's own parts:

- `calendar.dfy` (`Calendar`): `LocalDate` as a subset type of valid
  proleptic Gregorian dates, month lengths with the leap-year rule, the
  first and last day of a month, and the next day.
- `formats.dfy` (`Formats`): `Long.toString` with its parse-back, and the
  `yyyy-MM-dd` / `yyyy-MM` labels. Java's `yyyy` is the year of era, with a
  `+` sign once the year has five digits.
- `entities.dfy` (`Entities`): the `Transaction` row. Its amount is an integer
  in units of 0.0001, the scale-4 `BigDecimal` column. The file also holds
  the response view, the replica row and the error codes.
- `requests.dfy` (`Requests`): the bean-validation constraints of
  `TransactionRequest` as a set of violations, plus the mapper's
  `toEntity` / `updateEntity`.
- `repository.dfy` (`Repository`): every find/sum/count query as a function
  over the table. Each one filters on "not deleted", wraps SUM in COALESCE,
  uses an inclusive BETWEEN and orders by date then id, both descending. The
  table is a sequence of rows in IDENTITY order (`rows[i].id == i + 1`).
- `ownership.dfy` (`Ownership`): the strict ownership check and the tolerant
  access check, the latter both as written and corrected (see Findings).
- `aggregation.dfy` (`Aggregation`): `calculateAmountByType`, the daily
  breakdown (`groupingBy` date, then newest first), the monthly breakdown
  (a `for` loop over the twelve months) and the summary builders.
- `event_producer.dfy` (`Events`): the producer as a class holding an
  outbox sequence and a counter for fresh event ids.
- `service.dfy` (`Service`): the service as a class. Its state is the table,
  the replica set and the producer. Its methods are proved against the
  functions above.

## Model

| member | source | states |
|---|---|---|
| Requests.ValidIff | backend/src/main/java/com/hamkkebu/transactionservice/data/dto/TransactionRequest.java:21-41 | A request is accepted exactly when it meets all of these: ledgerId, type, amount and transactionDate are present; the amount is at least 0.01; each present text fits its limit (description 500, category 100, memo 1000). Absent optional texts are accepted. |
| Requests.AmountBoundary | backend/src/main/java/com/hamkkebu/transactionservice/data/dto/TransactionRequest.java:27-29 | The minimum is inclusive: 0.0100 passes and 0.0099 does not. |
| Requests.ToEntity | backend/src/main/java/com/hamkkebu/transactionservice/service/TransactionService.java:52-53 | The new row carries the request's fields. Its owner is the caller, never a value from the request. It is not deleted. |
| Requests.UpdateEntity | backend/src/main/java/com/hamkkebu/transactionservice/service/TransactionService.java:97 | Every mutable field is replaced from the request. Id, owner and deleted flag are kept. |
| Requests.ValidRequestGivesWellFormedRow | backend/src/main/java/com/hamkkebu/transactionservice/data/dto/TransactionRequest.java:27-41 | On both create and update, an accepted request yields an amount of at least 0.01 and texts that fit their columns. The row is well formed exactly when the amount also fits the NUMERIC(19, 4) column. |
| Requests.ValidationAdmitsOversizedAmount | backend/src/main/java/com/hamkkebu/transactionservice/data/entity/Transaction.java:42 | Validation sets no upper bound: a request for 10^15 is accepted, although the amount column cannot hold it. |
| Entities.ToResponses | backend/src/main/java/com/hamkkebu/transactionservice/service/TransactionService.java:85-87 | One response per row, in the same order, with the same fields. |
| Repository.SelectMembers | backend/src/main/java/com/hamkkebu/transactionservice/repository/TransactionRepository.java:30-36 | A WHERE clause keeps exactly the rows that match it. A match means: the ledger, not deleted, and the optional type, BETWEEN range and category. |
| Repository.SumWhereIsTotal | backend/src/main/java/com/hamkkebu/transactionservice/repository/TransactionRepository.java:30-32 | SUM is NULL exactly when no row matches. COALESCE makes the result the total of the matching amounts, which is 0 when there are none. |
| Repository.SelectedTotalIsTotal | backend/src/main/java/com/hamkkebu/transactionservice/repository/TransactionRepository.java:30-32 | Adding up the amounts of the matching rows one row at a time, in table order, gives the total of the selected rows. |
| Repository.SortNewestFirst | backend/src/main/java/com/hamkkebu/transactionservice/repository/TransactionRepository.java:21-24 | The ORDER BY output is ordered by date, then id, both descending, and is a permutation of its input. |
| Repository.ListQueryContents | backend/src/main/java/com/hamkkebu/transactionservice/repository/TransactionRepository.java:39-44 | A list query returns the rows matching its clause, each as often as the table holds it, newest first. |
| Repository.ListQueryStrictOrder | backend/src/main/java/com/hamkkebu/transactionservice/repository/TransactionRepository.java:21-24 | In a table with identity ids, the order is strict: an earlier entry has a later date, or the same date and a larger id. |
| Repository.CategoryQueryExact | backend/src/main/java/com/hamkkebu/transactionservice/repository/TransactionRepository.java:47-48 | The category query keeps exactly the live rows of the ledger whose category equals the one given. |
| Repository.PageOf | backend/src/main/java/com/hamkkebu/transactionservice/repository/TransactionRepository.java:21-22 | A page holds at most pageSize rows, starting at offset pageNumber × pageSize. It is short only on the last page and empty past the end. Its totalElements is the size of the whole result. |
| Repository.PagesCoverResult | backend/src/main/java/com/hamkkebu/transactionservice/repository/TransactionRepository.java:39-40 | Every row of the result is on page k / size, at position k % size. |
| Repository.FindById | backend/src/main/java/com/hamkkebu/transactionservice/repository/TransactionRepository.java:27 | Returns a live row with that id, or empty exactly when no live row has it. |
| Repository.FindByIdInTable | backend/src/main/java/com/hamkkebu/transactionservice/repository/TransactionRepository.java:27 | In the table it returns row id - 1 when that row is live. It returns empty for a soft-deleted or unknown id. |
| Repository.FindByIdAndUser | backend/src/main/java/com/hamkkebu/transactionservice/service/TransactionService.java:66-67 | The derived query findByIdAndUserIdAndIsDeletedFalse returns a row only if it is live and has that id and owner. It returns empty exactly when there is none. |
| Repository.FindByIdAndUserInTable | backend/src/main/java/com/hamkkebu/transactionservice/service/TransactionService.java:94-95 | In the table the query finds a row exactly when row id - 1 exists, belongs to the user and is live. The row found is that one. |
| Repository.MarkDeleted | backend/src/main/java/com/hamkkebu/transactionservice/service/TransactionService.java:114-115 | A soft delete sets the flag of exactly one row. That row keeps its other fields, and every other row stays as it was. |
| Repository.SoftDeleteHides | backend/src/main/java/com/hamkkebu/transactionservice/service/TransactionService.java:111-118 | After a soft delete, neither id lookup finds the row and no list contains it. Every count drops by one, and every sum by its amount, where the row matched. |
| Repository.ReplaceRowEffect | backend/src/main/java/com/hamkkebu/transactionservice/service/TransactionService.java:97-98 | Saving an updated row changes each count and sum by the old row leaving and the new row entering. |
| Repository.RangeSplit | backend/src/main/java/com/hamkkebu/transactionservice/repository/TransactionRepository.java:51-67 | Because BETWEEN includes both ends, for a ≤ b ≤ e the count and the sum over [a, e] equal those over [a, b] plus those over [b + 1 day, e]. |
| Repository.EmptyRange | backend/src/main/java/com/hamkkebu/transactionservice/repository/TransactionRepository.java:61-63 | A range whose start is after its end selects no row. |
| Ownership.ValidateLedgerOwnership | backend/src/main/java/com/hamkkebu/transactionservice/service/TransactionService.java:344-355 | Passes exactly when a live replica of the ledger is owned by the user. It fails with LEDGER_NOT_FOUND exactly when the ledger has no live replica, and with LEDGER_ACCESS_DENIED exactly when it has one owned by someone else. |
| Ownership.AccessAsWrittenTable | backend/src/main/java/com/hamkkebu/transactionservice/service/TransactionService.java:362-384 | The code's access check passes exactly in three cases: the user owns the replica; the user has a live transaction in the ledger; or the ledger has no live transactions and does have a live replica. |
| Ownership.AccessAsWrittenAdmitsStranger | backend/src/main/java/com/hamkkebu/transactionservice/service/TransactionService.java:371-383 | Concrete input: ledger 1 has a live replica owned by user 2 and no transactions. User 3, who owns nothing and has no transaction there, is let in. |
| Ownership.ValidateLedgerAccess | backend/src/main/java/com/hamkkebu/transactionservice/service/TransactionService.java:357-384 | Passes exactly for the owner or a user with a live transaction in the ledger. LEDGER_NOT_FOUND exactly when there is no live replica and no live transaction. LEDGER_ACCESS_DENIED in every other case. |
| Ownership.UserRowCounts | backend/src/main/java/com/hamkkebu/transactionservice/service/TransactionService.java:370-373 | A user with a live transaction in the ledger makes countByLedgerId positive. |
| Ownership.AccessCorrectionIsNarrow | backend/src/main/java/com/hamkkebu/transactionservice/service/TransactionService.java:362-384 | The corrected check differs from the code only in the fall-through case, and there it denies. It never admits anyone the code rejects. |
| Ownership.StrictImpliesTolerant | backend/src/main/java/com/hamkkebu/transactionservice/service/TransactionService.java:344-384 | Whoever may create in a ledger may read it. A missing ledger with no transactions is LEDGER_NOT_FOUND under both checks. |
| Aggregation.AmountByTypeIsSum | backend/src/main/java/com/hamkkebu/transactionservice/service/TransactionService.java:290-295 | The in-memory filter/reduce of one type over the selected rows equals the repository's COALESCE(SUM) for that type. |
| Aggregation.AmountByTypePermutation | backend/src/main/java/com/hamkkebu/transactionservice/service/TransactionService.java:290-295 | The type sum does not depend on the order of the list. |
| Aggregation.AmountByTypeAppend | backend/src/main/java/com/hamkkebu/transactionservice/service/TransactionService.java:290-295 | The type sum of a concatenation is the sum of the parts. |
| Aggregation.GroupByDateSpec | backend/src/main/java/com/hamkkebu/transactionservice/service/TransactionService.java:260-265 | Grouping by date gives one non-empty group per date that occurs, newest first. Each group holds exactly that date's rows. Counts and type sums are preserved. |
| Aggregation.DailyDetailEntry | backend/src/main/java/com/hamkkebu/transactionservice/service/TransactionService.java:255-285 | Each daily entry is a single day in the range, labelled yyyy-MM-dd, with at least one row. Its count, income and expense are the repository's figures for that day, and its balance is income minus expense. |
| Aggregation.DailyDetailsComplete | backend/src/main/java/com/hamkkebu/transactionservice/service/TransactionService.java:255-267 | Every day of the range with a live row of the ledger has an entry. |
| Aggregation.DailyDetailsAddUp | backend/src/main/java/com/hamkkebu/transactionservice/service/TransactionService.java:263-266 | The daily entries are strictly newest first. Their counts, incomes and expenses add up to the range totals. |
| Aggregation.ListingFigures | backend/src/main/java/com/hamkkebu/transactionservice/service/TransactionService.java:225-237 | The range listing has as many rows as the count query returns. Its type sums equal the sum queries. |
| Aggregation.MonthDetailShape | backend/src/main/java/com/hamkkebu/transactionservice/service/TransactionService.java:305-327 | A month's detail runs from atDay(1) to atEndOfMonth of that month and carries the yyyy-MM label. Its count is the repository's count for that span. |
| Aggregation.WithRowsMembers | backend/src/main/java/com/hamkkebu/transactionservice/service/TransactionService.java:318-319 | The `count > 0` test keeps a detail exactly when it is one of the details and has a positive count. |
| Aggregation.WithRowsOrder | backend/src/main/java/com/hamkkebu/transactionservice/service/TransactionService.java:304-319 | Dropping the details without rows keeps the remaining details in strictly ascending month order. |
| Aggregation.WithRowsSum | backend/src/main/java/com/hamkkebu/transactionservice/service/TransactionService.java:318-319 | If every detail without rows has a zero figure, dropping those details leaves the figure's sum unchanged. |
| Aggregation.YearDetailsIncreasing | backend/src/main/java/com/hamkkebu/transactionservice/service/TransactionService.java:304-306 | The loop visits the months in ascending order: the twelve month details have strictly ascending months. |
| Aggregation.MonthlyDetailsEntries | backend/src/main/java/com/hamkkebu/transactionservice/service/TransactionService.java:304-329 | Each monthly entry is the detail of one month of the year, and that month has a positive count. |
| Aggregation.MonthlyDetailsOrder | backend/src/main/java/com/hamkkebu/transactionservice/service/TransactionService.java:304 | Monthly entries come in strictly ascending month order. |
| Aggregation.MonthlyDetailsComplete | backend/src/main/java/com/hamkkebu/transactionservice/service/TransactionService.java:318-319 | Every month with a live row of the ledger has its detail in the breakdown. |
| Aggregation.YearDetailsSums | backend/src/main/java/com/hamkkebu/transactionservice/service/TransactionService.java:304-327 | The details of months 1 to n add up to the figures from January 1 to the end of month n. |
| Aggregation.BuildMonthlyDetails | backend/src/main/java/com/hamkkebu/transactionservice/service/TransactionService.java:300-332 | The loop's result is the monthly breakdown: the twelve month details whose count is positive, in month order. |
| Aggregation.MonthlyDetailsAddUp | backend/src/main/java/com/hamkkebu/transactionservice/service/TransactionService.java:300-332 | The monthly entries add up to the figures of January 1 to December 31. |
| Aggregation.EmptyRangeHasNoAmounts | backend/src/main/java/com/hamkkebu/transactionservice/service/TransactionService.java:225-231 | A range with no rows has zero income and zero expense. |
| Aggregation.PeriodSummarySpec | backend/src/main/java/com/hamkkebu/transactionservice/service/TransactionService.java:223-250 | A period summary matches its own list: the count is the list's length, the sums are its type sums, and balance = income − expense. An inverted range gives an empty summary. |
| Aggregation.LedgerSummarySpec | backend/src/main/java/com/hamkkebu/transactionservice/service/TransactionService.java:124-143 | The ledger summary gives the figures of the ledger's full listing, with balance = income − expense. A ledger with no live rows gives 0, 0, 0, 0. |
| Calendar.LengthOfMonth | backend/src/main/java/com/hamkkebu/transactionservice/service/TransactionService.java:170 | Every month has 28 to 31 days under the Gregorian leap-year rule. |
| Calendar.LastDayOfMonth | backend/src/main/java/com/hamkkebu/transactionservice/service/TransactionService.java:307 | atEndOfMonth is a day of that year and month. |
| Calendar.LastDayIsLast | backend/src/main/java/com/hamkkebu/transactionservice/service/TransactionService.java:307 | No valid day of the month comes after atEndOfMonth. |
| Calendar.DayAfterMonthEnd | backend/src/main/java/com/hamkkebu/transactionservice/service/TransactionService.java:304-307 | The day after the end of a month is the first day of the next month, so the twelve months tile the year. |
| Formats.LongToStringRoundTrip | backend/src/main/java/com/hamkkebu/transactionservice/kafka/producer/TransactionEventProducer.java:43-45 | Parsing the string form of a Long gives back the Long. |
| Formats.DateLabelRoundTrip | backend/src/main/java/com/hamkkebu/transactionservice/service/TransactionService.java:277 | For the years 1 to 9999 the yyyy-MM-dd label is ten characters and reads back as its date. |
| Formats.YearMonthLabelRoundTrip | backend/src/main/java/com/hamkkebu/transactionservice/service/TransactionService.java:302 | For the years 1 to 9999 the yyyy-MM label is seven characters and reads back as its year and month. |
| Formats.YearOfEraLabels | backend/src/main/java/com/hamkkebu/transactionservice/service/TransactionService.java:277 | yyyy is the year of era: year 0 and year 1 get the same label, and year 10000 prints as +10000. |
| Events.EventCarriesIds | backend/src/main/java/com/hamkkebu/transactionservice/kafka/producer/TransactionEventProducer.java:42-46 | The event carries the topic, its id and its type. Its transactionId, userId and ledgerId parse back as the transaction's. |
| Events.EventTypeNamesDistinct | backend/src/test/java/com/hamkkebu/transactionservice/kafka/producer/TransactionEventProducerTest.java:84 | TRANSACTION_CREATED, TRANSACTION_UPDATED and TRANSACTION_DELETED tell the three events apart. |
| Events.IncreasingIdsDistinct | backend/src/test/java/com/hamkkebu/transactionservice/kafka/producer/TransactionEventProducerTest.java:162-170 | No two outbox rows of a valid producer share an event id. |
| Events.PayloadIdentifiesTransaction | backend/src/main/java/com/hamkkebu/transactionservice/kafka/producer/TransactionEventProducer.java:43 | Events for transactions with different ids carry different transactionIds. |
| Events.TransactionEventProducer.constructor | backend/src/main/java/com/hamkkebu/transactionservice/kafka/producer/TransactionEventProducer.java:33-34 | The topic is the configured one, or transaction.events when none is configured. The outbox starts empty. |
| Events.TransactionEventProducer.Publish | backend/src/main/java/com/hamkkebu/transactionservice/kafka/producer/TransactionEventProducer.java:48 | Appends exactly one row under a fresh id, and the outbox stays valid: same topic, increasing ids. |
| Events.TransactionEventProducer.PublishTransactionCreated | backend/src/main/java/com/hamkkebu/transactionservice/kafka/producer/TransactionEventProducer.java:41-52 | Appends exactly one created event for the transaction under the next id. Nothing else changes. |
| Events.TransactionEventProducer.PublishTransactionUpdated | backend/src/main/java/com/hamkkebu/transactionservice/kafka/producer/TransactionEventProducer.java:59-70 | Appends exactly one updated event for the transaction under the next id. Nothing else changes. |
| Events.TransactionEventProducer.PublishTransactionDeleted | backend/src/main/java/com/hamkkebu/transactionservice/kafka/producer/TransactionEventProducer.java:77-88 | Appends exactly one deleted event for the transaction under the next id. Nothing else changes. |
| Service.CreatedRowIsFound | backend/src/main/java/com/hamkkebu/transactionservice/service/TransactionService.java:52-61 | After create the table is still valid. The caller's id lookup finds the new row and any other user's lookup does not. |
| Service.UpdatedRowIsFound | backend/src/main/java/com/hamkkebu/transactionservice/service/TransactionService.java:94-104 | After update the table is still valid, and the owner finds the row with its new contents. |
| Service.DeletedRowIsGone | backend/src/main/java/com/hamkkebu/transactionservice/service/TransactionService.java:111-115 | After a soft delete the table is still valid, and no user's lookup finds the row. |
| Service.TransactionService.CreateTransaction | backend/src/main/java/com/hamkkebu/transactionservice/service/TransactionService.java:45-62 | Runs the strict check on the request's ledger. If it passes and the amount fits its column: one new row owned by the caller, findable by them, and exactly one created event. If the check fails: that check's error. If the amount does not fit: AmountOutOfRange. Either failure leaves the table and the outbox unchanged. |
| Service.TransactionService.GetTransaction | backend/src/main/java/com/hamkkebu/transactionservice/service/TransactionService.java:64-70 | Succeeds exactly when the caller's own live row with that id exists, and returns it. Otherwise TRANSACTION_NOT_FOUND. |
| Service.TransactionService.GetTransactionsByLedger | backend/src/main/java/com/hamkkebu/transactionservice/service/TransactionService.java:72-79 | Runs the corrected access check (see Findings), then returns the requested page of the ledger's listing with the ledger's count as totalElements. |
| Service.TransactionService.GetAllTransactionsByLedger | backend/src/main/java/com/hamkkebu/transactionservice/service/TransactionService.java:81-88 | Runs the corrected access check (see Findings), then returns the ledger's listing: one entry per live row of the ledger. |
| Service.TransactionService.UpdateTransaction | backend/src/main/java/com/hamkkebu/transactionservice/service/TransactionService.java:90-105 | If the caller's live row exists and the new amount fits its column: the row is replaced from the request and exactly one updated event is appended. With no such row: TRANSACTION_NOT_FOUND. With an amount that does not fit: AmountOutOfRange. Either failure changes nothing. |
| Service.TransactionService.DeleteTransaction | backend/src/main/java/com/hamkkebu/transactionservice/service/TransactionService.java:107-121 | If the caller's live row exists: it is soft-deleted and nobody finds it afterwards, and exactly one deleted event is appended. Otherwise TRANSACTION_NOT_FOUND and no change at all. |
| Service.TransactionService.GetSummaryByLedger | backend/src/main/java/com/hamkkebu/transactionservice/service/TransactionService.java:123-143 | Runs the corrected access check (see Findings), then returns the ledger totals. They are the figures of the ledger's listing, with balance = income − expense. |
| Service.TransactionService.GetDailySummary | backend/src/main/java/com/hamkkebu/transactionservice/service/TransactionService.java:152-158 | Runs the corrected access check (see Findings), then returns the summary of the range that starts and ends on the date. |
| Service.TransactionService.GetMonthlySummary | backend/src/main/java/com/hamkkebu/transactionservice/service/TransactionService.java:163-176 | Runs the corrected access check (see Findings), then rejects an invalid year or month. Otherwise returns the month's summary with daily details, which add up to its totals. |
| Service.TransactionService.GetYearlySummary | backend/src/main/java/com/hamkkebu/transactionservice/service/TransactionService.java:181-193 | Runs the corrected access check (see Findings), then rejects an invalid year. Otherwise returns the year's summary with monthly details, which add up to its totals. |
| Service.TransactionService.GetPeriodSummary | backend/src/main/java/com/hamkkebu/transactionservice/service/TransactionService.java:198-204 | Runs the corrected access check (see Findings), then returns the range summary tagged DAILY with no details. An inverted range gives an empty summary. |
| Service.TransactionService.GetTransactionsByPeriod | backend/src/main/java/com/hamkkebu/transactionservice/service/TransactionService.java:209-218 | Runs the corrected access check (see Findings), then returns the range listing: one entry per live row of the ledger in the range. |

## Left out

- Service.TransactionService: every read path uses the corrected access check `Ownership.ValidateLedgerAccess`, not the code's fall-through. See Findings.
- The outbox relay, retries and delivery to the broker belong to `OutboxEventPublisher` and its scheduler, which are not part of this model. The model ends at the append.
- Event ids: the producer's event builder draws a random UUID for each event, the pattern `UUID.randomUUID()` at backend/src/main/java/com/hamkkebu/transactionservice/kafka/event/TransactionEvent.java:47 shows. The model uses a counter instead. That is stronger than the program: counter ids are distinct by construction, while random UUIDs are distinct only with overwhelming probability.
- Audit timestamps (`createdAt`, `updatedAt`) and log output are not modelled, because they come from the clock and the logger.
- `TransactionMapper`, `BigDecimalUtils` and `BaseEntity.delete()` are not part of this model. They are assumed to do the following: the mapper copies fields and also copies `ledgerId` on update; `nullToZero` turns null into 0; `calculateBalance` subtracts; `delete()` sets the soft-delete flag.
- Service.TransactionService.UpdateTransaction: it does not recheck ledger ownership, because the code does not. A user can therefore move their own row to a ledger they do not own.
- Service.TransactionService.CreateTransaction, Service.TransactionService.UpdateTransaction: they require a valid request, because the controller rejects invalid ones with `@Valid` before the service runs. The violations themselves are modelled by `Requests.Violations`.
- Row ids are IDENTITY values with no gaps: the next id is the table size plus one. A database that skips ids after a rollback is not modelled.
- Ids, user ids and counts are unbounded integers. Java's 64-bit `Long` overflow is not modelled, because it would need more than 2⁶³ rows or ids.
- Amounts are exact integers in units of 0.0001. Rounding of inputs with more than four decimals is done by the database column and is not modelled. The column's NUMERIC(19, 4) bound is modelled: saving an amount of 10^15 or more fails. The model reports that failure as AmountOutOfRange, and the write is rolled back. The program raises it as a database exception.
- Repository.RangeSplit: it requires the day after the split day to be a valid `LocalDate`, so no split is stated at the last representable date, 31 December 999999999.
- Formats.DateLabelRoundTrip, Formats.YearMonthLabelRoundTrip: these are stated only for the years 1 to 9999. Other years print with a sign or as a year of era and are covered by Formats.YearOfEraLabels.
- Text lengths are counted in Dafny characters. Java's `String.length()` counts UTF-16 code units, so the model differs from the code on texts with characters outside the Basic Multilingual Plane.
- The controller, configuration classes, security filters, gRPC client and circuit breaker are plumbing or network calls outside the core, and are not modelled.
- The Kafka consumers that keep the ledger and user replicas in sync are not modelled. They live in base classes that are not part of this model, so the replica set is a constructor parameter of the service.
- `TransactionEvent.java` is not modelled: it is a legacy event class the producer does not use.
- The frontend is not modelled.

## Findings

| source | as written | input that shows it | evidently intended | confidence | as-written member | corrected member |
|---|---|---|---|---|---|---|
| backend/src/main/java/com/hamkkebu/transactionservice/service/TransactionService.java:371-383 | The access check returns normally, and so grants access, when the user owns no replica of the ledger and has no transaction in it, the ledger has no live transactions, and a live replica exists that belongs to someone else. | Replicas {(ledger 1, owner 2, live)}, no transactions, ledger 1, user 3: user 3 may read ledger 1's summaries. | Access only for the owner or for a user with a transaction in the ledger, as the method's own documentation (lines 357-361) says. The case should be LEDGER_ACCESS_DENIED, as the strict check at lines 344-355 gives for the same replica. | medium; not executed | Ownership.ValidateLedgerAccessAsWritten, Ownership.AccessAsWrittenAdmitsStranger | Ownership.ValidateLedgerAccess |
