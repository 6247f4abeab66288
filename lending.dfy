/** The lending engine: borrow, return, the overdue sweep and fine payment,
    each one atomic step from one store to the next.  "Today" is a day
    number supplied by the caller, and so is the random transaction token
    of a new loan. */
module Lending {
  import opened Results
  import opened Records
  import opened Membership

  const FinePerDay: int := 5
  const MaxBorrowDays: int := 14

  // ---------------------------------------------------------- invariants

  /** What every transaction the engine writes satisfies. */
  predicate LoanWellFormed(t: Transaction) {
    && t.kind == BorrowType
    && t.dueDate == t.borrowDate + MaxBorrowDays
    && t.fineAmount >= 0
    && (t.finePaid ==> t.fineAmount > 0)
    && (t.status == Returned <==> t.returnDate.Some?)
    && (t.status != Returned ==> t.fineAmount == 0 && !t.finePaid)
  }

  predicate LoansWellFormed(txns: map<nat, Transaction>) {
    CodesUnique(txns) && forall k :: k in txns ==> LoanWellFormed(txns[k])
  }

  /** The loans of a book that still hold a copy: Active or Overdue. */
  function OpenLoans(txns: map<nat, Transaction>, bookId: nat): (r: set<nat>)
    ensures forall k :: k in r <==> k in txns && txns[k].bookId == bookId && txns[k].status != Returned
  {
    set k | k in txns && txns[k].bookId == bookId && txns[k].status != Returned
  }

  /** Copies of a catalogued book on the shelf plus copies out on loan. */
  function Holdings(s: Store, bookId: nat): int
    requires bookId in s.books
  {
    s.books[bookId].availableCopies + |OpenLoans(s.txns, bookId)|
  }

  // -------------------------------------------------------------- borrow

  /** The borrow route's guards, in the order it checks them.  The limit
      counts only the member's Active transactions. */
  function BorrowRefusal(s: Store, bookId: nat, memberId: nat): (r: Option<Error>)
    ensures bookId !in s.books ==> r == Some(NotFound)
    ensures bookId in s.books && s.books[bookId].availableCopies <= 0 ==> r == Some(Rejected(NoCopiesAvailable))
    ensures bookId in s.books && s.books[bookId].availableCopies > 0 ==>
              (memberId !in s.members ==> r == Some(NotFound)) &&
              (memberId in s.members && s.members[memberId].status != "active" ==>
                 r == Some(Rejected(MemberNotActive))) &&
              (memberId in s.members && s.members[memberId].status == "active" &&
               |ActiveLoans(s.txns, memberId)| >= s.members[memberId].maxBooksAllowed ==>
                 r == Some(Rejected(BorrowLimitReached(s.members[memberId].maxBooksAllowed))))
    ensures r.None? <==>
              && bookId in s.books && s.books[bookId].availableCopies > 0
              && memberId in s.members && s.members[memberId].status == "active"
              && |ActiveLoans(s.txns, memberId)| < s.members[memberId].maxBooksAllowed
  {
    if bookId !in s.books then Some(NotFound)
    else if s.books[bookId].availableCopies <= 0 then Some(Rejected(NoCopiesAvailable))
    else if memberId !in s.members then Some(NotFound)
    else if s.members[memberId].status != "active" then Some(Rejected(MemberNotActive))
    else if |ActiveLoans(s.txns, memberId)| >= s.members[memberId].maxBooksAllowed then
      Some(Rejected(BorrowLimitReached(s.members[memberId].maxBooksAllowed)))
    else None
  }

  /** The transaction a borrow on day `today` inserts. */
  function NewLoan(code: string, bookId: nat, memberId: nat, today: int): (t: Transaction)
    ensures LoanWellFormed(t)
    ensures t.status == Active && t.fineAmount == 0 && t.borrowDate == today
    ensures t.dueDate - t.borrowDate == MaxBorrowDays
  {
    NewTransaction(code, bookId, memberId, BorrowType, today, today + MaxBorrowDays)
  }

  /** `borrow_book`.  After the guards, a token already in use makes the
      commit fail on the unique `transaction_id` column. */
  function Borrow(s: Store, bookId: nat, memberId: nat, today: int, code: string): (r: (Result<nat>, Store))
    ensures r.0.Err? ==> r.1 == s
    ensures BorrowRefusal(s, bookId, memberId).Some? ==> r.0 == Err(BorrowRefusal(s, bookId, memberId).value)
    ensures BorrowRefusal(s, bookId, memberId).None? && CodeTaken(s.txns, code) ==>
              r.0 == Err(Rejected(UniqueConstraint))
    ensures r.0.Ok? <==> BorrowRefusal(s, bookId, memberId).None? && !CodeTaken(s.txns, code)
    ensures r.0.Ok? ==>
              var id := r.0.value;
              var b := s.books[bookId];
              && id !in s.txns
              && r.1.txns == s.txns[id := NewLoan(code, bookId, memberId, today)]
              && r.1.books == s.books[bookId := b.(availableCopies := b.availableCopies - 1)]
              && r.1.books[bookId].availableCopies >= 0
              && r.1.members == s.members
  {
    var refusal := BorrowRefusal(s, bookId, memberId);
    if refusal.Some? then (Err(refusal.value), s)
    else if CodeTaken(s.txns, code) then (Err(Rejected(UniqueConstraint)), s)
    else
      var id := NextId(s.txns.Keys);
      var b := s.books[bookId];
      (Ok(id), Store(s.books[bookId := b.(availableCopies := b.availableCopies - 1)],
                     s.members,
                     s.txns[id := NewLoan(code, bookId, memberId, today)]))
  }

  // -------------------------------------------------------------- return

  /** The transaction carrying a token; tokens are unique. */
  function FindByCode(txns: map<nat, Transaction>, code: string): (r: Option<nat>)
    requires CodesUnique(txns)
    ensures r.Some? <==> CodeTaken(txns, code)
    ensures r.Some? ==> r.value in txns && txns[r.value].code == code
  {
    if CodeTaken(txns, code) then
      var k :| k in txns && txns[k].code == code;
      Some(k)
    else None
  }

  /** The fine a return on day `today` leaves on the transaction: five per
      whole day past the due date, or the previous amount when on time. */
  function FineOnReturn(t: Transaction, today: int): (fine: int)
    ensures today > t.dueDate ==> fine == (today - t.dueDate) * FinePerDay && fine > 0
    ensures today <= t.dueDate ==> fine == t.fineAmount
  {
    if today > t.dueDate then (today - t.dueDate) * FinePerDay else t.fineAmount
  }

  function Close(t: Transaction, today: int): (c: Transaction)
    ensures c.status == Returned && c.returnDate == Some(today)
    ensures c.fineAmount == FineOnReturn(t, today)
    ensures c == t.(status := Returned, returnDate := Some(today), fineAmount := c.fineAmount)
  {
    t.(returnDate := Some(today), status := Returned, fineAmount := FineOnReturn(t, today))
  }

  /** `return_book`: only an Active transaction can be returned (an Overdue
      one is refused like a returned one); the book, if it still exists, gets
      its copy back with no upper bound. */
  function Return(s: Store, code: string, today: int): (r: (Result<nat>, Store))
    requires CodesUnique(s.txns)
    ensures r.0.Err? ==> r.1 == s
    ensures !CodeTaken(s.txns, code) ==> r.0 == Err(NotFound)
    ensures CodeTaken(s.txns, code) ==>
              var id := FindByCode(s.txns, code).value;
              (s.txns[id].status != Active ==> r.0 == Err(Rejected(AlreadyReturned))) &&
              (s.txns[id].status == Active ==> r.0 == Ok(id))
    ensures r.0.Ok? ==>
              var id := r.0.value;
              var t := s.txns[id];
              && id in s.txns && t.code == code && t.status == Active
              && r.1.txns == s.txns[id := Close(t, today)]
              && r.1.members == s.members
              && (t.bookId in s.books ==>
                    r.1.books == s.books[t.bookId := s.books[t.bookId].(availableCopies := s.books[t.bookId].availableCopies + 1)])
              && (t.bookId !in s.books ==> r.1.books == s.books)
  {
    match FindByCode(s.txns, code)
    case None => (Err(NotFound), s)
    case Some(id) =>
      var t := s.txns[id];
      if t.status != Active then (Err(Rejected(AlreadyReturned)), s)
      else
        var books :=
          if t.bookId in s.books
          then s.books[t.bookId := s.books[t.bookId].(availableCopies := s.books[t.bookId].availableCopies + 1)]
          else s.books;
        (Ok(id), Store(books, s.members, s.txns[id := Close(t, today)]))
  }

  // --------------------------------------------------------------- sweep

  /** Active transactions whose due date lies before `today`. */
  function LateLoans(txns: map<nat, Transaction>, today: int): (r: set<nat>)
    ensures forall k :: k in r <==> k in txns && txns[k].status == Active && txns[k].dueDate < today
  {
    set k | k in txns && txns[k].status == Active && txns[k].dueDate < today
  }

  function MarkOverdue(txns: map<nat, Transaction>, late: set<nat>): (r: map<nat, Transaction>)
    ensures r.Keys == txns.Keys
    ensures forall k :: k in r ==> r[k] == if k in late then txns[k].(status := Overdue) else txns[k]
  {
    map k | k in txns :: if k in late then txns[k].(status := Overdue) else txns[k]
  }

  /** `get_overdue_books`: every late Active transaction becomes Overdue and
      is reported; nothing else changes. */
  function Sweep(s: Store, today: int): (r: (set<nat>, Store))
    ensures r.0 == LateLoans(s.txns, today)
    ensures r.1.books == s.books && r.1.members == s.members
    ensures r.1.txns.Keys == s.txns.Keys
    ensures forall k :: k in s.txns ==>
              r.1.txns[k] == if k in r.0 then s.txns[k].(status := Overdue) else s.txns[k]
  {
    var late := LateLoans(s.txns, today);
    (late, Store(s.books, s.members, MarkOverdue(s.txns, late)))
  }

  // ------------------------------------------------------------ pay fine

  /** `pay_fine` (by row id): refused when there is no fine or it is already
      paid; otherwise only the paid flag changes. */
  function PayFine(s: Store, id: nat): (r: (Result<nat>, Store))
    ensures r.0.Err? ==> r.1 == s
    ensures id !in s.txns ==> r.0 == Err(NotFound)
    ensures id in s.txns && s.txns[id].fineAmount <= 0 ==> r.0 == Err(Rejected(NoFineToPay))
    ensures id in s.txns && s.txns[id].fineAmount > 0 && s.txns[id].finePaid ==>
              r.0 == Err(Rejected(FineAlreadyPaid))
    ensures r.0.Ok? <==> id in s.txns && s.txns[id].fineAmount > 0 && !s.txns[id].finePaid
    ensures r.0.Ok? ==> r.0.value == id && r.1 == s.(txns := s.txns[id := s.txns[id].(finePaid := true)])
  {
    if id !in s.txns then (Err(NotFound), s)
    else if s.txns[id].fineAmount <= 0 then (Err(Rejected(NoFineToPay)), s)
    else if s.txns[id].finePaid then (Err(Rejected(FineAlreadyPaid)), s)
    else (Ok(id), s.(txns := s.txns[id := s.txns[id].(finePaid := true)]))
  }

  // ------------------------------------------- the lifecycle invariant

  lemma BorrowKeepsLoansWellFormed(s: Store, bookId: nat, memberId: nat, today: int, code: string)
    requires LoansWellFormed(s.txns)
    ensures LoansWellFormed(Borrow(s, bookId, memberId, today, code).1.txns)
  {
  }

  lemma ReturnKeepsLoansWellFormed(s: Store, code: string, today: int)
    requires LoansWellFormed(s.txns)
    ensures LoansWellFormed(Return(s, code, today).1.txns)
  {
  }

  lemma SweepKeepsLoansWellFormed(s: Store, today: int)
    requires LoansWellFormed(s.txns)
    ensures LoansWellFormed(Sweep(s, today).1.txns)
  {
    var t' := Sweep(s, today).1.txns;
    forall i, j | i in t' && j in t' && t'[i].code == t'[j].code ensures i == j {
      assert s.txns[i].code == s.txns[j].code;
    }
  }

  lemma PayFineKeepsLoansWellFormed(s: Store, id: nat)
    requires LoansWellFormed(s.txns)
    ensures LoansWellFormed(PayFine(s, id).1.txns)
  {
  }

  // -------------------------------------------------------- conservation

  /** Writing one transaction changes a book's open loans by at most that transaction. */
  lemma OpenLoansAfterWrite(txns: map<nat, Transaction>, id: nat, t: Transaction, b: nat)
    ensures OpenLoans(txns[id := t], b) ==
              (OpenLoans(txns, b) - {id}) + (if t.bookId == b && t.status != Returned then {id} else {})
  {
  }

  lemma BorrowConservesCopies(s: Store, bookId: nat, memberId: nat, today: int, code: string, b: nat)
    requires b in s.books
    ensures b in Borrow(s, bookId, memberId, today, code).1.books
    ensures Holdings(Borrow(s, bookId, memberId, today, code).1, b) == Holdings(s, b)
  {
    var r := Borrow(s, bookId, memberId, today, code);
    if r.0.Ok? {
      var id := r.0.value;
      var loan := NewLoan(code, bookId, memberId, today);
      OpenLoansAfterWrite(s.txns, id, loan, b);
      assert id !in OpenLoans(s.txns, b);
      if b == bookId {
        assert OpenLoans(r.1.txns, b) == OpenLoans(s.txns, b) + {id};
        assert r.1.books[b].availableCopies == s.books[b].availableCopies - 1;
      } else {
        assert OpenLoans(r.1.txns, b) == OpenLoans(s.txns, b);
        assert r.1.books[b] == s.books[b];
      }
    }
  }

  lemma ReturnConservesCopies(s: Store, code: string, today: int, b: nat)
    requires CodesUnique(s.txns)
    requires b in s.books
    ensures b in Return(s, code, today).1.books
    ensures Holdings(Return(s, code, today).1, b) == Holdings(s, b)
  {
    var r := Return(s, code, today);
    if r.0.Ok? {
      var id := r.0.value;
      var t := s.txns[id];
      OpenLoansAfterWrite(s.txns, id, Close(t, today), b);
      if b == t.bookId {
        assert id in OpenLoans(s.txns, b);
        assert OpenLoans(r.1.txns, b) == OpenLoans(s.txns, b) - {id};
        assert r.1.books[b].availableCopies == s.books[b].availableCopies + 1;
      } else {
        assert id !in OpenLoans(s.txns, b);
        assert OpenLoans(r.1.txns, b) == OpenLoans(s.txns, b);
        assert r.1.books[b] == s.books[b];
      }
    }
  }

  lemma SweepConservesCopies(s: Store, today: int, b: nat)
    requires b in s.books
    ensures Holdings(Sweep(s, today).1, b) == Holdings(s, b)
  {
    assert OpenLoans(Sweep(s, today).1.txns, b) == OpenLoans(s.txns, b);
  }

  lemma PayFineConservesCopies(s: Store, id: nat, b: nat)
    requires b in s.books
    ensures Holdings(PayFine(s, id).1, b) == Holdings(s, b)
  {
    assert OpenLoans(PayFine(s, id).1.txns, b) == OpenLoans(s.txns, b);
  }

  // ------------------------------------------------ one-shot operations

  /** A transaction returns once: the same token is refused the second time,
      whatever the day. */
  lemma ReturnTwiceFails(s: Store, code: string, today: int, later: int)
    requires CodesUnique(s.txns)
    requires Return(s, code, today).0.Ok?
    ensures CodesUnique(Return(s, code, today).1.txns)
    ensures var s' := Return(s, code, today).1;
            Return(s', code, later) == (Err(Rejected(AlreadyReturned)), s')
  {
    var r := Return(s, code, today);
    var id := r.0.value;
    var s' := r.1;
    forall i, j | i in s'.txns && j in s'.txns && s'.txns[i].code == s'.txns[j].code ensures i == j {
      assert s.txns[i].code == s'.txns[i].code && s.txns[j].code == s'.txns[j].code;
    }
    assert s'.txns[id].code == code;
    assert FindByCode(s'.txns, code) == Some(id);
  }

  /** Once swept, a transaction can never be returned. */
  lemma OverdueCannotBeReturned(s: Store, code: string, today: int)
    requires CodesUnique(s.txns)
    requires CodeTaken(s.txns, code) && s.txns[FindByCode(s.txns, code).value].status == Overdue
    ensures Return(s, code, today) == (Err(Rejected(AlreadyReturned)), s)
  {
  }

  /** A second sweep on the same day finds nothing and changes nothing. */
  lemma SweepIdempotent(s: Store, today: int)
    ensures Sweep(Sweep(s, today).1, today) == ({}, Sweep(s, today).1)
  {
    var s1 := Sweep(s, today).1;
    assert LateLoans(s1.txns, today) == {};
    assert MarkOverdue(s1.txns, {}) == s1.txns;
  }

  /** A fine is paid once. */
  lemma PayFineTwiceFails(s: Store, id: nat)
    requires PayFine(s, id).0.Ok?
    ensures var s' := PayFine(s, id).1;
            PayFine(s', id) == (Err(Rejected(FineAlreadyPaid)), s')
  {
  }

  // ---------------------------------------------------------- scenarios

  /** One copy, a member allowed one book: the borrow takes the copy, a
      second borrow of the book is refused for want of copies, and the return
      puts the copy back and closes the loan. */
  lemma SingleCopyScenario(s: Store, bookId: nat, memberId: nat, code: string, other: string,
                           day: int, later: int)
    requires LoansWellFormed(s.txns)
    requires bookId in s.books && s.books[bookId].availableCopies == 1
    requires memberId in s.members && s.members[memberId].status == "active"
    requires s.members[memberId].maxBooksAllowed == 1 && ActiveLoans(s.txns, memberId) == {}
    requires !CodeTaken(s.txns, code)
    ensures var (r1, s1) := Borrow(s, bookId, memberId, day, code);
            && r1.Ok? && s1.books[bookId].availableCopies == 0
            && Borrow(s1, bookId, memberId, day, other) == (Err(Rejected(NoCopiesAvailable)), s1)
            && CodesUnique(s1.txns)
            && var (r2, s2) := Return(s1, code, later);
               && r2 == Ok(r1.value)
               && s2.books[bookId].availableCopies == 1
               && s2.txns[r1.value].status == Returned
  {
    var (r1, s1) := Borrow(s, bookId, memberId, day, code);
    var id := r1.value;
    assert s1.txns[id].code == code;
    assert FindByCode(s1.txns, code) == Some(id);
  }

  /** The open loans of a member: Active or Overdue.  The member-keyed
      counterpart of OpenLoans. */
  function MemberOpenLoans(txns: map<nat, Transaction>, memberId: nat): (r: set<nat>)
    ensures forall k :: k in r <==> k in txns && txns[k].memberId == memberId && txns[k].status != Returned
  {
    set k | k in txns && txns[k].memberId == memberId && txns[k].status != Returned
  }

  /** A successful borrow adds exactly the new loan to the member's open loans. */
  lemma BorrowOpensLoan(s: Store, bookId: nat, memberId: nat, day: int, code: string)
    requires Borrow(s, bookId, memberId, day, code).0.Ok?
    ensures var (r, s') := Borrow(s, bookId, memberId, day, code);
            MemberOpenLoans(s'.txns, memberId) == MemberOpenLoans(s.txns, memberId) + {r.value}
  {
    var (r, s') := Borrow(s, bookId, memberId, day, code);
    var loan := NewLoan(code, bookId, memberId, day);
    assert s'.txns == s.txns[r.value := loan];
  }

  /** After a sweep on day `late`, a member whose open loans all fell due
      before `late` has no Active loan left, and still the same open loans. */
  lemma SweepLeavesNoActive(s: Store, memberId: nat, late: int)
    requires forall k :: k in MemberOpenLoans(s.txns, memberId) ==> s.txns[k].dueDate < late
    ensures ActiveLoans(Sweep(s, late).1.txns, memberId) == {}
    ensures MemberOpenLoans(Sweep(s, late).1.txns, memberId) == MemberOpenLoans(s.txns, memberId)
  {
    var s' := Sweep(s, late).1;
    forall k | k in s'.txns && s'.txns[k].memberId == memberId ensures s'.txns[k].status != Active {
      if s.txns[k].status != Returned {
        assert k in MemberOpenLoans(s.txns, memberId);
      }
    }
  }

  lemma SweepKeepsCodes(s: Store, late: int, code: string)
    ensures CodeTaken(Sweep(s, late).1.txns, code) == CodeTaken(s.txns, code)
  {
    var s' := Sweep(s, late).1;
    if CodeTaken(s.txns, code) {
      var k :| k in s.txns && s.txns[k].code == code;
      assert s'.txns[k].code == code;
    }
  }

  /** The limit counts only Active loans: a member allowed one book whose loan
      the sweep marked Overdue can borrow again, and then holds two books. */
  lemma OverdueLoansEscapeTheLimit(s: Store, bookId: nat, memberId: nat, code: string, other: string, day: int)
    requires bookId in s.books && s.books[bookId].availableCopies >= 2
    requires memberId in s.members && s.members[memberId].status == "active"
    requires s.members[memberId].maxBooksAllowed == 1
    requires MemberOpenLoans(s.txns, memberId) == {}
    requires !CodeTaken(s.txns, code) && !CodeTaken(s.txns, other) && code != other
    ensures var (r1, s1) := Borrow(s, bookId, memberId, day, code);
            var (_, s2) := Sweep(s1, day + MaxBorrowDays + 1);
            var (r3, s3) := Borrow(s2, bookId, memberId, day + MaxBorrowDays + 1, other);
            && r1.Ok? && r3.Ok?
            && |MemberOpenLoans(s3.txns, memberId)| == 2 > s3.members[memberId].maxBooksAllowed
  {
    assert ActiveLoans(s.txns, memberId) == {};
    var (r1, s1) := Borrow(s, bookId, memberId, day, code);
    var id1 := r1.value;
    BorrowOpensLoan(s, bookId, memberId, day, code);
    assert MemberOpenLoans(s1.txns, memberId) == {id1};
    assert !CodeTaken(s1.txns, other);
    var late := day + MaxBorrowDays + 1;
    var s2 := Sweep(s1, late).1;
    SweepLeavesNoActive(s1, memberId, late);
    SweepKeepsCodes(s1, late, other);
    assert s2.books == s1.books && s2.members == s1.members;
    var (r3, s3) := Borrow(s2, bookId, memberId, late, other);
    BorrowOpensLoan(s2, bookId, memberId, late, other);
    assert r3.value != id1;
  }

  // ------------------------------------------------------------- fines

  /** Borrowed on day 0 (due on day 14): returned on day 20 the fine is 30,
      returned on day 10 it is 0. */
  lemma FineExamples(code: string, bookId: nat, memberId: nat)
    ensures FineOnReturn(NewLoan(code, bookId, memberId, 0), 20) == 30
    ensures FineOnReturn(NewLoan(code, bookId, memberId, 0), 10) == 0
  {
  }

  /** A returned loan's fine is five per day late, and nothing when on time. */
  lemma ReturnedFine(s: Store, code: string, today: int)
    requires LoansWellFormed(s.txns)
    requires Return(s, code, today).0.Ok?
    ensures var id := Return(s, code, today).0.value;
            var t := s.txns[id];
            var fine := Return(s, code, today).1.txns[id].fineAmount;
            (today > t.dueDate ==> fine == (today - t.borrowDate - MaxBorrowDays) * FinePerDay) &&
            (today <= t.dueDate ==> fine == 0)
  {
  }

  // ---------------------------------------------------- total of fines

  function Unpaid(t: Transaction): int {
    if t.finePaid then 0 else t.fineAmount
  }

  /** The sum of the fines not yet paid (the `total_unpaid_fines` statistic). */
  function UnpaidFines(txns: map<nat, Transaction>): int
    decreases |txns|
  {
    if txns == map[] then 0
    else
      var k := MaxKey(txns.Keys);
      Unpaid(txns[k]) + UnpaidFines(txns - {k})
  }

  /** The sum does not depend on which transaction is taken out first. */
  lemma {:induction false} UnpaidFinesWithout(txns: map<nat, Transaction>, k: nat)
    requires k in txns
    ensures UnpaidFines(txns) == Unpaid(txns[k]) + UnpaidFines(txns - {k})
    decreases |txns|
  {
    var m := MaxKey(txns.Keys);
    if k != m {
      var rest := txns - {m};
      assert |rest| < |txns| by { assert rest.Keys < txns.Keys; }
      UnpaidFinesWithout(rest, k);
      var without := txns - {k};
      assert m in without.Keys;
      assert MaxKey(without.Keys) in txns.Keys;
      assert MaxKey(without.Keys) == m;
      assert without - {m} == rest - {k};
    }
  }

  lemma UnpaidFinesUpdate(txns: map<nat, Transaction>, k: nat, t: Transaction)
    ensures UnpaidFines(txns[k := t]) ==
              UnpaidFines(txns) + Unpaid(t) - (if k in txns then Unpaid(txns[k]) else 0)
  {
    UnpaidFinesWithout(txns[k := t], k);
    assert txns[k := t] - {k} == txns - {k};
    if k in txns {
      UnpaidFinesWithout(txns, k);
    } else {
      assert txns - {k} == txns;
    }
  }

  /** Maps that agree on every unpaid amount have the same total. */
  lemma {:induction false} UnpaidFinesSame(a: map<nat, Transaction>, b: map<nat, Transaction>)
    requires a.Keys == b.Keys
    requires forall k :: k in a ==> Unpaid(a[k]) == Unpaid(b[k])
    ensures UnpaidFines(a) == UnpaidFines(b)
    decreases |a|
  {
    if a != map[] {
      var m := MaxKey(a.Keys);
      assert MaxKey(b.Keys) == m;
      UnpaidFinesSame(a - {m}, b - {m});
    }
  }

  lemma {:induction false} UnpaidFinesNonNegative(txns: map<nat, Transaction>)
    ensures (forall k :: k in txns ==> txns[k].fineAmount >= 0) ==> UnpaidFines(txns) >= 0
    decreases |txns|
  {
    if txns != map[] {
      UnpaidFinesNonNegative(txns - {MaxKey(txns.Keys)});
    }
  }

  /** Paying a fine takes exactly that fine off the unpaid total. */
  lemma PayFineReducesUnpaid(s: Store, id: nat)
    requires PayFine(s, id).0.Ok?
    ensures UnpaidFines(PayFine(s, id).1.txns) == UnpaidFines(s.txns) - s.txns[id].fineAmount
  {
    UnpaidFinesUpdate(s.txns, id, s.txns[id].(finePaid := true));
  }

  /** A return adds the fine it assesses to the unpaid total. */
  lemma ReturnAddsFine(s: Store, code: string, today: int)
    requires LoansWellFormed(s.txns)
    requires Return(s, code, today).0.Ok?
    ensures var r := Return(s, code, today);
            UnpaidFines(r.1.txns) == UnpaidFines(s.txns) + r.1.txns[r.0.value].fineAmount
  {
    var id := Return(s, code, today).0.value;
    UnpaidFinesUpdate(s.txns, id, Close(s.txns[id], today));
  }

  /** Borrowing and sweeping leave the unpaid total as it is. */
  lemma BorrowAndSweepKeepUnpaid(s: Store, bookId: nat, memberId: nat, today: int, code: string)
    ensures UnpaidFines(Borrow(s, bookId, memberId, today, code).1.txns) == UnpaidFines(s.txns)
    ensures UnpaidFines(Sweep(s, today).1.txns) == UnpaidFines(s.txns)
  {
    var r := Borrow(s, bookId, memberId, today, code);
    if r.0.Ok? {
      UnpaidFinesUpdate(s.txns, r.0.value, NewLoan(code, bookId, memberId, today));
    }
    UnpaidFinesSame(Sweep(s, today).1.txns, s.txns);
  }

  // --------------------------------------------------------- statistics

  datatype Stats = Stats(totalBooks: nat, totalMembers: nat, activeBorrows: nat, overdueBooks: nat,
                         totalUnpaidFines: int)

  function WithStatus(txns: map<nat, Transaction>, status: TxStatus): (r: set<nat>)
    ensures forall k :: k in r <==> k in txns && txns[k].status == status
  {
    set k | k in txns && txns[k].status == status
  }

  /** `get_stats`: the counts of books, members, Active and Overdue
      transactions, and the unpaid fines. */
  function GetStats(s: Store): (r: Stats)
    ensures r.activeBorrows + r.overdueBooks <= |s.txns|
    ensures LoansWellFormed(s.txns) ==> r.totalUnpaidFines >= 0
  {
    var active := WithStatus(s.txns, Active);
    var overdue := WithStatus(s.txns, Overdue);
    assert active !! overdue && active + overdue <= s.txns.Keys;
    CardinalityBound(active + overdue, s.txns.Keys);
    UnpaidFinesNonNegative(s.txns);
    Stats(|s.books|, |s.members|, |active|, |overdue|, UnpaidFines(s.txns))
  }

  lemma CardinalityBound(a: set<nat>, b: set<nat>)
    requires a <= b
    ensures |a| <= |b|
  {
    assert b == a + (b - a);
  }
}
