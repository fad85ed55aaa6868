// The derived and JPQL queries of the transaction repository, and the two
// existence queries of the ledger replica repository, as functions over the
// tables. The transaction table is the sequence of its rows in id order.
module Repository {
  import opened Results
  import opened Calendar
  import opened Entities

  datatype DateRange = DateRange(start: LocalDate, end: LocalDate)

  /** A WHERE clause. Every ledger query of the repository has
      `ledgerId = :ledgerId AND isDeleted = false`; the others are optional:
      the type, a BETWEEN on transactionDate, and an exact category (a null
      category parameter of a derived query matches rows whose category is null). */
  datatype Criteria = Criteria(
    ledgerId: int,
    kind: Option<TransactionType>,
    between: Option<DateRange>,
    category: Option<Option<string>>)

  function LedgerOnly(ledgerId: int): Criteria {
    Criteria(ledgerId, None, None, None)
  }

  function LedgerBetween(ledgerId: int, start: LocalDate, end: LocalDate): Criteria {
    Criteria(ledgerId, None, Some(DateRange(start, end)), None)
  }

  predicate Matches(t: Transaction, c: Criteria) {
    && t.ledgerId == c.ledgerId
    && !t.isDeleted
    && (c.kind.None? || t.kind == c.kind.value)
    && (c.between.None? || InRange(t.transactionDate, c.between.value.start, c.between.value.end))
    && (c.category.None? || t.category == c.category.value)
  }

  /** The rows a WHERE clause selects, in table order. */
  function Select(rows: seq<Transaction>, c: Criteria): (r: seq<Transaction>)
    ensures |r| <= |rows|
  {
    if rows == [] then []
    else (if Matches(rows[0], c) then [rows[0]] else []) + Select(rows[1..], c)
  }

  /** A row is selected exactly when it is in the table and matches the clause. */
  lemma {:induction false} SelectMembers(rows: seq<Transaction>, c: Criteria)
    ensures forall t :: t in Select(rows, c) <==> t in rows && Matches(t, c)
  {
    if rows != [] {
      SelectMembers(rows[1..], c);
      assert rows == [rows[0]] + rows[1..];
    }
  }

  lemma {:induction false} SelectAppend(a: seq<Transaction>, b: seq<Transaction>, c: Criteria)
    ensures Select(a + b, c) == Select(a, c) + Select(b, c)
  {
    if a == [] {
      assert a + b == b;
    } else {
      assert (a + b)[1..] == a[1..] + b;
      SelectAppend(a[1..], b, c);
    }
  }

  /** The sum of the amounts of some rows. */
  function Total(s: seq<Transaction>): int {
    if s == [] then 0 else s[0].amount + Total(s[1..])
  }

  lemma {:induction false} TotalAppend(a: seq<Transaction>, b: seq<Transaction>)
    ensures Total(a + b) == Total(a) + Total(b)
  {
    if a == [] {
      assert a + b == b;
    } else {
      assert (a + b)[1..] == a[1..] + b;
      TotalAppend(a[1..], b);
    }
  }

  /** The amounts of the rows a WHERE clause selects, added up row by row. */
  function SelectedTotal(rows: seq<Transaction>, c: Criteria): int {
    if rows == [] then 0
    else (if Matches(rows[0], c) then rows[0].amount else 0) + SelectedTotal(rows[1..], c)
  }

  /** SQL `SUM(t.amount) ... WHERE <c>`: NULL when no row is selected. */
  function SqlSum(rows: seq<Transaction>, c: Criteria): Option<int> {
    if CountWhere(rows, c) == 0 then None else Some(SelectedTotal(rows, c))
  }

  /** SQL COALESCE(v, d). */
  function Coalesce(v: Option<int>, d: int): int {
    v.GetOr(d)
  }

  /** `SELECT COALESCE(SUM(t.amount), 0) ... WHERE <c>`. */
  function SumWhere(rows: seq<Transaction>, c: Criteria): int {
    Coalesce(SqlSum(rows, c), 0)
  }

  /** Adding up the matching rows in table order gives the total of the selection. */
  lemma {:induction false} SelectedTotalIsTotal(rows: seq<Transaction>, c: Criteria)
    ensures SelectedTotal(rows, c) == Total(Select(rows, c))
  {
    if rows != [] {
      SelectedTotalIsTotal(rows[1..], c);
      var head := if Matches(rows[0], c) then [rows[0]] else [];
      assert Select(rows, c) == head + Select(rows[1..], c);
      TotalAppend(head, Select(rows[1..], c));
      if head != [] {
        assert head[1..] == [];
      }
    }
  }

  /** `SELECT COUNT(t) ... WHERE <c>`. */
  function CountWhere(rows: seq<Transaction>, c: Criteria): nat {
    |Select(rows, c)|
  }

  /** The sum queries never yield null: COALESCE turns the empty SUM into 0,
      and otherwise it is the total of the selected rows. */
  lemma {:induction false} SumWhereIsTotal(rows: seq<Transaction>, c: Criteria)
    ensures SqlSum(rows, c).None? <==> Select(rows, c) == []
    ensures SumWhere(rows, c) == Total(Select(rows, c))
    ensures CountWhere(rows, c) == 0 ==> SumWhere(rows, c) == 0
  {
    SelectedTotalIsTotal(rows, c);
  }

  // ---- ordering: ORDER BY transactionDate DESC, id DESC ----

  /** a may come before b in a newest-first listing. */
  predicate Precedes(a: Transaction, b: Transaction) {
    Before(b.transactionDate, a.transactionDate)
    || (a.transactionDate == b.transactionDate && a.id >= b.id)
  }

  predicate NewestFirst(s: seq<Transaction>) {
    forall i, j :: 0 <= i < j < |s| ==> Precedes(s[i], s[j])
  }

  lemma PrecedesTotalAndTransitive(a: Transaction, b: Transaction, c: Transaction)
    ensures !Precedes(a, b) ==> Precedes(b, a)
    ensures Precedes(a, b) && Precedes(b, c) ==> Precedes(a, c)
  {
  }

  function InsertNewestFirst(t: Transaction, s: seq<Transaction>): (r: seq<Transaction>)
    requires NewestFirst(s)
    ensures NewestFirst(r)
    ensures multiset(r) == multiset(s) + multiset{t}
  {
    if s == [] || Precedes(t, s[0]) then
      InsertAtFront(t, s);
      [t] + s
    else
      var rest := InsertNewestFirst(t, s[1..]);
      InsertBehindHead(t, s, rest);
      [s[0]] + rest
  }

  lemma InsertAtFront(t: Transaction, s: seq<Transaction>)
    requires NewestFirst(s)
    requires s == [] || Precedes(t, s[0])
    ensures NewestFirst([t] + s)
  {
    var r := [t] + s;
    forall i, j | 0 <= i < j < |r| ensures Precedes(r[i], r[j]) {
      if i == 0 && j > 1 {
        PrecedesTotalAndTransitive(t, s[0], s[j - 1]);
      }
    }
  }

  lemma InsertBehindHead(t: Transaction, s: seq<Transaction>, rest: seq<Transaction>)
    requires NewestFirst(s) && s != [] && !Precedes(t, s[0])
    requires NewestFirst(rest) && multiset(rest) == multiset(s[1..]) + multiset{t}
    ensures NewestFirst([s[0]] + rest)
    ensures multiset([s[0]] + rest) == multiset(s) + multiset{t}
  {
    assert s == [s[0]] + s[1..];
    var r := [s[0]] + rest;
    forall j | 1 <= j < |r| ensures Precedes(s[0], r[j]) {
      assert r[j] in multiset(rest);
      if r[j] == t {
        PrecedesTotalAndTransitive(t, s[0], t);
      } else {
        assert r[j] in multiset(s[1..]);
        var k :| 0 <= k < |s[1..]| && s[1..][k] == r[j];
        assert s[k + 1] == r[j];
      }
    }
  }

  /** The ORDER BY of every list query. */
  function SortNewestFirst(s: seq<Transaction>): (r: seq<Transaction>)
    ensures NewestFirst(r)
    ensures multiset(r) == multiset(s)
  {
    if s == [] then []
    else
      assert s == [s[0]] + s[1..];
      InsertNewestFirst(s[0], SortNewestFirst(s[1..]))
  }

  // ---- the repository's queries ----

  /** findByLedgerIdAndIsDeletedFalseOrderByTransactionDateDescIdDesc (the list form). */
  function FindByLedger(rows: seq<Transaction>, ledgerId: int): seq<Transaction> {
    SortNewestFirst(Select(rows, LedgerOnly(ledgerId)))
  }

  /** findByLedgerIdAndTransactionDateBetweenAndIsDeletedFalseOrderByTransactionDateDescIdDesc (the list form). */
  function FindByLedgerBetween(rows: seq<Transaction>, ledgerId: int, start: LocalDate, end: LocalDate): seq<Transaction> {
    SortNewestFirst(Select(rows, LedgerBetween(ledgerId, start, end)))
  }

  /** The ordered result of findByLedgerIdAndCategoryAndIsDeletedFalseOrderByTransactionDateDescIdDesc, before paging. */
  function FindByLedgerAndCategory(rows: seq<Transaction>, ledgerId: int, category: Option<string>): seq<Transaction> {
    SortNewestFirst(Select(rows, Criteria(ledgerId, None, None, Some(category))))
  }

  /** A Spring Data page: the slice of the ordered result the Pageable asks
      for, and the size of the whole result. */
  datatype Page<T> = Page(content: seq<T>, totalElements: nat)

  /** The offset of a page: the number of rows on the pages before it. */
  function PageOffset(pageNumber: nat, pageSize: nat): nat {
    pageNumber * pageSize
  }

  /** What a paged query returns for PageRequest.of(pageNumber, pageSize):
      the rows from the page's offset on, at most pageSize of them, and fewer
      only on the last page. */
  function PageOf<T>(items: seq<T>, pageNumber: nat, pageSize: nat): (p: Page<T>)
    requires pageSize >= 1
    ensures p.totalElements == |items|
    ensures |p.content| <= pageSize
    ensures PageOffset(pageNumber, pageSize) >= |items| ==> p.content == []
    ensures PageOffset(pageNumber, pageSize) < |items| ==>
      && PageOffset(pageNumber, pageSize) + |p.content| <= |items|
      && (|p.content| == pageSize || PageOffset(pageNumber, pageSize) + |p.content| == |items|)
      && forall j :: 0 <= j < |p.content| ==> p.content[j] == items[PageOffset(pageNumber, pageSize) + j]
  {
    var offset := PageOffset(pageNumber, pageSize);
    if offset >= |items| then Page([], |items|)
    else if offset + pageSize <= |items| then Page(items[offset..offset + pageSize], |items|)
    else Page(items[offset..], |items|)
  }

  /** Paging loses nothing: the k-th row of the result is row k % pageSize
      of page k / pageSize. */
  lemma PagesCoverResult<T>(items: seq<T>, pageSize: nat, k: nat)
    requires pageSize >= 1 && k < |items|
    ensures var p := PageOf(items, k / pageSize, pageSize);
      k % pageSize < |p.content| && p.content[k % pageSize] == items[k]
  {
    var q, r := k / pageSize, k % pageSize;
    assert PageOffset(q, pageSize) + r == k;
  }

  /** The Pageable form of findByLedgerIdAndIsDeletedFalseOrderByTransactionDateDescIdDesc. */
  function FindByLedgerPaged(rows: seq<Transaction>, ledgerId: int, pageNumber: nat, pageSize: nat): Page<Transaction>
    requires pageSize >= 1
  {
    PageOf(FindByLedger(rows, ledgerId), pageNumber, pageSize)
  }

  /** The Pageable form of findByLedgerIdAndTransactionDateBetweenAndIsDeletedFalseOrderByTransactionDateDescIdDesc. */
  function FindByLedgerBetweenPaged(rows: seq<Transaction>, ledgerId: int, start: LocalDate, end: LocalDate,
                                    pageNumber: nat, pageSize: nat): Page<Transaction>
    requires pageSize >= 1
  {
    PageOf(FindByLedgerBetween(rows, ledgerId, start, end), pageNumber, pageSize)
  }

  /** findByLedgerIdAndCategoryAndIsDeletedFalseOrderByTransactionDateDescIdDesc. */
  function FindByLedgerAndCategoryPaged(rows: seq<Transaction>, ledgerId: int, category: Option<string>,
                                        pageNumber: nat, pageSize: nat): Page<Transaction>
    requires pageSize >= 1
  {
    PageOf(FindByLedgerAndCategory(rows, ledgerId, category), pageNumber, pageSize)
  }

  /** sumAmountByLedgerIdAndType. */
  function SumByLedgerAndType(rows: seq<Transaction>, ledgerId: int, kind: TransactionType): int {
    SumWhere(rows, Criteria(ledgerId, Some(kind), None, None))
  }

  /** sumAmountByLedgerIdAndTypeAndDateRange. */
  function SumByLedgerTypeBetween(rows: seq<Transaction>, ledgerId: int, kind: TransactionType,
                                  start: LocalDate, end: LocalDate): int {
    SumWhere(rows, Criteria(ledgerId, Some(kind), Some(DateRange(start, end)), None))
  }

  /** countByLedgerId: every user's live rows of the ledger. */
  function CountByLedger(rows: seq<Transaction>, ledgerId: int): nat {
    CountWhere(rows, LedgerOnly(ledgerId))
  }

  /** countByLedgerIdAndDateRange. */
  function CountByLedgerBetween(rows: seq<Transaction>, ledgerId: int, start: LocalDate, end: LocalDate): nat {
    CountWhere(rows, LedgerBetween(ledgerId, start, end))
  }

  /** findByIdAndIsDeletedFalse. */
  function FindById(rows: seq<Transaction>, id: int): (r: Option<Transaction>)
    ensures r.None? <==> forall t :: t in rows ==> t.id != id || t.isDeleted
    ensures r.Some? ==> r.value in rows && r.value.id == id && !r.value.isDeleted
  {
    if rows == [] then None
    else if rows[0].id == id && !rows[0].isDeleted then Some(rows[0])
    else FindById(rows[1..], id)
  }

  /** findByIdAndUserIdAndIsDeletedFalse (used by the service, declared by its
      derived-query name only). */
  function FindByIdAndUser(rows: seq<Transaction>, id: int, userId: int): (r: Option<Transaction>)
    ensures r.None? <==> forall t :: t in rows ==> t.id != id || t.userId != userId || t.isDeleted
    ensures r.Some? ==> r.value in rows && r.value.id == id && r.value.userId == userId && !r.value.isDeleted
  {
    if rows == [] then None
    else if rows[0].id == id && rows[0].userId == userId && !rows[0].isDeleted then Some(rows[0])
    else FindByIdAndUser(rows[1..], id, userId)
  }

  /** existsByLedgerIdAndUserIdAndIsDeletedFalse of the transaction repository. */
  predicate ExistsByLedgerAndUser(rows: seq<Transaction>, ledgerId: int, userId: int) {
    exists t :: t in rows && t.ledgerId == ledgerId && t.userId == userId && !t.isDeleted
  }

  /** existsByLedgerIdAndUserIdAndIsDeletedFalse of the ledger replica repository. */
  predicate ReplicaOwnedBy(replicas: set<ReplicaLedger>, ledgerId: int, userId: int) {
    exists r :: r in replicas && r.ledgerId == ledgerId && r.userId == userId && !r.isDeleted
  }

  /** existsByLedgerIdAndIsDeletedFalse of the ledger replica repository. */
  predicate ReplicaExists(replicas: set<ReplicaLedger>, ledgerId: int) {
    exists r :: r in replicas && r.ledgerId == ledgerId && !r.isDeleted
  }

  // ---- the table ----

  /** Identity ids start at 1 and grow by one; rows are never removed. */
  predicate TableValid(rows: seq<Transaction>) {
    forall i :: 0 <= i < |rows| ==> rows[i].id == i + 1 && WellFormed(rows[i])
  }

  /** BaseEntity.delete(): set the soft-delete flag of one row. */
  function MarkDeleted(rows: seq<Transaction>, i: nat): (r: seq<Transaction>)
    requires i < |rows|
    ensures |r| == |rows| && r[i].isDeleted
    ensures r[i] == rows[i].(isDeleted := true)
    ensures forall j :: 0 <= j < |rows| && j != i ==> r[j] == rows[j]
  {
    rows[i := rows[i].(isDeleted := true)]
  }

  // ---- properties of the queries ----

  /** A list query returns exactly the live rows of the ledger (that meet its
      other conditions), each once, newest first and by descending id within a day. */
  lemma ListQueryContents(rows: seq<Transaction>, c: Criteria)
    ensures NewestFirst(SortNewestFirst(Select(rows, c)))
    ensures multiset(SortNewestFirst(Select(rows, c))) == multiset(Select(rows, c))
    ensures forall t :: t in SortNewestFirst(Select(rows, c)) <==> t in rows && Matches(t, c)
  {
    var s := Select(rows, c);
    var r := SortNewestFirst(s);
    SelectMembers(rows, c);
    forall t ensures t in r <==> t in s {
      assert t in r <==> t in multiset(r);
      assert t in s <==> t in multiset(s);
    }
  }

  /** findByLedgerIdAndCategory... keeps exactly the live rows of the
      ledger whose category equals the given one. */
  lemma CategoryQueryExact(rows: seq<Transaction>, ledgerId: int, category: Option<string>)
    ensures forall t :: t in FindByLedgerAndCategory(rows, ledgerId, category) <==>
      t in rows && t.ledgerId == ledgerId && !t.isDeleted && t.category == category
  {
    ListQueryContents(rows, Criteria(ledgerId, None, None, Some(category)));
  }

  /** Within a table with identity ids, newest-first order is strict: no two
      rows tie on (transactionDate, id). */
  lemma ListQueryStrictOrder(rows: seq<Transaction>, c: Criteria)
    requires TableValid(rows)
    ensures forall i, j :: 0 <= i < j < |SortNewestFirst(Select(rows, c))| ==>
      var r := SortNewestFirst(Select(rows, c));
      Before(r[j].transactionDate, r[i].transactionDate)
      || (r[i].transactionDate == r[j].transactionDate && r[i].id > r[j].id)
  {
    var s := Select(rows, c);
    var r := SortNewestFirst(s);
    ListQueryContents(rows, c);
    SelectDistinct(rows, c);
    forall i, j | 0 <= i < j < |r|
      ensures Before(r[j].transactionDate, r[i].transactionDate)
              || (r[i].transactionDate == r[j].transactionDate && r[i].id > r[j].id)
    {
      assert r[i] in rows && r[j] in rows;
      if r[i].id == r[j].id {
        var a :| 0 <= a < |rows| && rows[a] == r[i];
        var b :| 0 <= b < |rows| && rows[b] == r[j];
        assert a == b;
        MultisetCountAtLeastTwo(r, i, j);
        DistinctCountAtMostOne(s, r[i]);
        assert false;
      }
    }
  }

  lemma {:induction false} SelectDistinct(rows: seq<Transaction>, c: Criteria)
    requires TableValid(rows)
    ensures forall i, j :: 0 <= i < j < |Select(rows, c)| ==> Select(rows, c)[i].id < Select(rows, c)[j].id
  {
    if rows != [] {
      var tail := rows[1..];
      assert forall i :: 0 <= i < |tail| ==> tail[i].id == i + 2 && WellFormed(tail[i]);
      SelectIdsAbove(tail, c, 1);
      ShiftedTableSelectIncreasing(tail, c);
    }
  }

  lemma {:induction false} ShiftedTableSelectIncreasing(rows: seq<Transaction>, c: Criteria)
    requires forall i, j :: 0 <= i < j < |rows| ==> rows[i].id < rows[j].id
    ensures forall i, j :: 0 <= i < j < |Select(rows, c)| ==> Select(rows, c)[i].id < Select(rows, c)[j].id
  {
    if rows != [] {
      ShiftedTableSelectIncreasing(rows[1..], c);
      SelectMembers(rows[1..], c);
      forall t | t in Select(rows[1..], c) ensures rows[0].id < t.id {
        var k :| 0 <= k < |rows[1..]| && rows[1..][k] == t;
        assert rows[k + 1] == t;
      }
    }
  }

  lemma SelectIdsAbove(rows: seq<Transaction>, c: Criteria, bound: int)
    requires forall i :: 0 <= i < |rows| ==> rows[i].id > bound
    ensures forall t :: t in Select(rows, c) ==> t.id > bound
  {
  }

  lemma MultisetCountAtLeastTwo(s: seq<Transaction>, i: int, j: int)
    requires 0 <= i < j < |s| && s[i] == s[j]
    ensures multiset(s)[s[i]] >= 2
  {
    var x := s[i];
    assert s == s[..i] + [x] + s[i + 1..j] + [x] + s[j + 1..];
  }

  lemma {:induction false} DistinctCountAtMostOne(s: seq<Transaction>, x: Transaction)
    requires forall i, j :: 0 <= i < j < |s| ==> s[i].id < s[j].id
    ensures multiset(s)[x] <= 1
  {
    if s != [] {
      assert s == [s[0]] + s[1..];
      DistinctCountAtMostOne(s[1..], x);
      if x == s[0] {
        assert x !in s[1..];
      }
    }
  }

  /** findByIdAndIsDeletedFalse turns up a row by its id unless that row is soft-deleted. */
  lemma FindByIdInTable(rows: seq<Transaction>, id: int)
    requires TableValid(rows)
    ensures 1 <= id <= |rows| && !rows[id - 1].isDeleted ==> FindById(rows, id) == Some(rows[id - 1])
    ensures (id < 1 || id > |rows| || rows[id - 1].isDeleted) ==> FindById(rows, id) == None
  {
    if 1 <= id <= |rows| && !rows[id - 1].isDeleted {
      var r := FindById(rows, id);
      var k :| 0 <= k < |rows| && rows[k] == r.value;
    }
  }

  /** The owner-scoped lookup finds the row with that id only for its owner,
      and never once it is soft-deleted. */
  lemma FindByIdAndUserInTable(rows: seq<Transaction>, id: int, userId: int)
    requires TableValid(rows)
    ensures FindByIdAndUser(rows, id, userId).Some? <==>
      1 <= id <= |rows| && rows[id - 1].userId == userId && !rows[id - 1].isDeleted
    ensures FindByIdAndUser(rows, id, userId).Some? ==> FindByIdAndUser(rows, id, userId).value == rows[id - 1]
  {
    var r := FindByIdAndUser(rows, id, userId);
    if r.Some? {
      var k :| 0 <= k < |rows| && rows[k] == r.value;
    } else if 1 <= id <= |rows| {
      assert rows[id - 1] in rows;
    }
  }

  /** Replacing one row changes the rows a WHERE clause selects by at most
      that row: the count and the sum lose the old row if it matched and gain
      the new one if it matches. */
  lemma {:induction false} ReplaceRowEffect(rows: seq<Transaction>, i: nat, t: Transaction, c: Criteria)
    requires i < |rows|
    ensures CountWhere(rows[i := t], c) ==
      CountWhere(rows, c) - (if Matches(rows[i], c) then 1 else 0) + (if Matches(t, c) then 1 else 0)
    ensures SumWhere(rows[i := t], c) ==
      SumWhere(rows, c) - (if Matches(rows[i], c) then rows[i].amount else 0) + (if Matches(t, c) then t.amount else 0)
  {
    var before, after := rows[..i], rows[i + 1..];
    assert rows == before + [rows[i]] + after;
    assert rows[i := t] == before + [t] + after;
    SelectAppend(before + [rows[i]], after, c);
    SelectAppend(before, [rows[i]], c);
    SelectAppend(before + [t], after, c);
    SelectAppend(before, [t], c);
    assert Select([t], c) == (if Matches(t, c) then [t] else []) by { assert [t][1..] == []; }
    assert Select([rows[i]], c) == (if Matches(rows[i], c) then [rows[i]] else []) by { assert [rows[i]][1..] == []; }
    TotalAppend(Select(before, c) + Select([rows[i]], c), Select(after, c));
    TotalAppend(Select(before, c), Select([rows[i]], c));
    TotalAppend(Select(before, c) + Select([t], c), Select(after, c));
    TotalAppend(Select(before, c), Select([t], c));
    SumWhereIsTotal(rows, c);
    SumWhereIsTotal(rows[i := t], c);
  }

  /** A soft-deleted row is invisible to every query: neither id lookup finds
      it, no list contains it, and it leaves every count and sum it was part of. */
  lemma SoftDeleteHides(rows: seq<Transaction>, i: nat, c: Criteria)
    requires TableValid(rows) && i < |rows|
    ensures FindById(MarkDeleted(rows, i), rows[i].id).None?
    ensures forall userId :: FindByIdAndUser(MarkDeleted(rows, i), rows[i].id, userId).None?
    ensures forall t :: t in SortNewestFirst(Select(MarkDeleted(rows, i), c)) ==> t.id != rows[i].id
    ensures CountWhere(MarkDeleted(rows, i), c) == CountWhere(rows, c) - (if Matches(rows[i], c) then 1 else 0)
    ensures SumWhere(MarkDeleted(rows, i), c) == SumWhere(rows, c) - (if Matches(rows[i], c) then rows[i].amount else 0)
  {
    var d := MarkDeleted(rows, i);
    assert forall t :: t in d ==> t.id != rows[i].id || t.isDeleted by {
      forall t | t in d ensures t.id != rows[i].id || t.isDeleted {
        var k :| 0 <= k < |d| && d[k] == t;
      }
    }
    ListQueryContents(d, c);
    ReplaceRowEffect(rows, i, rows[i].(isDeleted := true), c);
  }

  /** The BETWEEN filter is inclusive at both ends, so for any day b in
      [a, e] the rows of [a, e] are those of [a, b] followed by those of
      [b + 1 day, e]: counts and sums add up. */
  lemma {:induction false} RangeSplit(rows: seq<Transaction>, c: Criteria, a: LocalDate, b: LocalDate, e: LocalDate)
    requires NotAfter(a, b) && NotAfter(b, e) && IsValidDate(NextDay(b))
    ensures CountWhere(rows, c.(between := Some(DateRange(a, e)))) ==
      CountWhere(rows, c.(between := Some(DateRange(a, b)))) + CountWhere(rows, c.(between := Some(DateRange(NextDay(b), e))))
    ensures SumWhere(rows, c.(between := Some(DateRange(a, e)))) ==
      SumWhere(rows, c.(between := Some(DateRange(a, b)))) + SumWhere(rows, c.(between := Some(DateRange(NextDay(b), e))))
  {
    var whole := c.(between := Some(DateRange(a, e)));
    var left := c.(between := Some(DateRange(a, b)));
    var right := c.(between := Some(DateRange(NextDay(b), e)));
    SplitSelect(rows, whole, left, right, a, b, e);
    SumWhereIsTotal(rows, whole);
    SumWhereIsTotal(rows, left);
    SumWhereIsTotal(rows, right);
  }

  lemma {:induction false} SplitSelect(rows: seq<Transaction>, whole: Criteria, left: Criteria, right: Criteria,
                                       a: LocalDate, b: LocalDate, e: LocalDate)
    requires NotAfter(a, b) && NotAfter(b, e) && IsValidDate(NextDay(b))
    requires whole.between == Some(DateRange(a, e)) && left.between == Some(DateRange(a, b))
    requires right.between == Some(DateRange(NextDay(b), e))
    requires left == whole.(between := left.between) && right == whole.(between := right.between)
    ensures |Select(rows, whole)| == |Select(rows, left)| + |Select(rows, right)|
    ensures Total(Select(rows, whole)) == Total(Select(rows, left)) + Total(Select(rows, right))
  {
    if rows != [] {
      SplitSelect(rows[1..], whole, left, right, a, b, e);
      RangeSplitsAtDay(rows[0].transactionDate, a, b, e);
      var x := rows[0];
      var w, l, r := Select(rows[1..], whole), Select(rows[1..], left), Select(rows[1..], right);
      if Matches(x, left) {
        assert Select(rows, left) == [x] + l;
        assert Select(rows, whole) == [x] + w;
        assert Select(rows, right) == r;
      } else if Matches(x, right) {
        assert Select(rows, right) == [x] + r;
        assert Select(rows, whole) == [x] + w;
        assert Select(rows, left) == l;
      } else {
        assert Select(rows, whole) == w;
        assert Select(rows, left) == l;
        assert Select(rows, right) == r;
      }
    }
  }

  /** A range whose start is after its end selects nothing. */
  lemma EmptyRange(rows: seq<Transaction>, c: Criteria, start: LocalDate, end: LocalDate)
    requires Before(end, start)
    ensures Select(rows, c.(between := Some(DateRange(start, end)))) == []
  {
  }
}
