# Library lending back end in Dafny

This project models the core of a small library-management back end. It
has three tables: books, members and lending transactions. Around them sit
the HTTP routes that change them:

- Catalog: create, update and delete a book; list the books with a copy on
  the shelf; list the distinct categories.
- Membership: enrol a member under a sequential "LIB" token such as
  `LIB00001`; update a member; delete a member (the route refuses one with an
  Active loan); list a member's current loans.
- Lending:
  - Borrow a book for 14 days, refused without a free copy, for an inactive
    member, or at the member's borrow limit.
  - Return it. A late return costs 5 per day past the due date.
  - The overdue sweep turns late Active loans into Overdue ones.
  - Pay a fine once.
  - The statistics counts.

Layout, one module per file:

- `results.dfy` (Results): the `Option`, `Result` and `Outcome` wrappers.
  It also holds the reasons a request is refused.
- `records.dfy` (Records):
  - the record types and their column defaults;
  - the unique columns;
  - the `to_dict` projections;
  - row-id assignment (one more than the largest id in use).
- `member_ids.dfy` (MemberIds): the `LIB{n:05d}` token, and its parse
  round trip.
- `catalog.dfy`, `membership.dfy`, `lending.dfy`: each route is a pure
  function from the store to a result and a new store. The properties are
  proved about those functions.
- `engine.dfy` (Engine): class `Library`.
  - It holds the three tables as fields that the routes update in place.
  - Each method is one request. It is proved to leave the tables exactly as
    the matching function describes, and to keep the store invariant
    `Valid`. Update keys are applied one at a time in a loop. The overdue
    sweep marks loans one at a time in a loop.

Conventions:

- Dates are day numbers.
- "Today" is a parameter, and so is the creation timestamp.
- The random `TXN…` token of a new loan is a parameter.
- Row ids are the keys of the tables' maps.

In several places the code behaves otherwise than its names and messages
suggest. For example, an overdue loan is refused as "already returned", and
the borrow limit counts only active loans. The model follows the code:

- Only an `active` transaction can be returned. An `overdue` one is refused
  with "already returned" and its copy is never put back.
  `Lending.OverdueCannotBeReturned` states this.
- The borrow limit counts only `active` transactions. A member whose loans
  were swept to `overdue` can borrow beyond the limit.
  `Lending.OverdueLoansEscapeTheLimit` shows this.
- A return increments `available_copies` with no upper clamp. Neither a
  create nor an update keeps `0 <= available_copies <= total_copies`.
  The invariant that does hold is conservation, in
  `Lending.*ConservesCopies`: shelf copies plus open loans (Active or
  Overdue) are unchanged by every lending operation.
- The book delete route itself has no guard.

## Model

| member | source | states |
|---|---|---|
| Records.NextId | backend/routes/members.py:52-53 | the next row id is fresh, larger than every id in use, 1 for an empty table, and one more than an id in use otherwise |
| Records.BookToDict | backend/models/__init__.py:22-34 | the book dictionary carries the row id and every column except the timestamps; the record can be rebuilt from it |
| Records.MemberToDict | backend/models/__init__.py:54-68 | the member dictionary carries the row id and the join date; the expiry date is absent exactly when it is null; the record can be rebuilt from it |
| Records.NewTransaction | backend/models/__init__.py:81-84 | a new transaction takes the column defaults: fine 0, not paid, status active, no return date |
| Records.TransactionToDict | backend/models/__init__.py:91-107 | the book title is present exactly when the book row exists; the member name is present exactly when the member row exists, as first name, one space, last name; the return date is absent exactly when null; the transaction can be rebuilt from the dictionary |
| MemberIds.MemberIdRoundTrip | backend/routes/members.py:54 | the token formatted from a member number parses back to that number |
| MemberIds.MemberIdInjective | backend/routes/members.py:54 | two different member numbers never get the same token |
| MemberIds.MemberIdShape | backend/routes/members.py:54 | a token is "LIB" plus at least five digits, exactly eight characters below 100000 |
| MemberIds.MemberIdExamples | backend/routes/members.py:54 | number 1 gives "LIB00001"; number 123456 keeps all six digits |
| MemberIds.DecimalRoundTrip | backend/routes/members.py:54 | the decimal digits of a number read back as that number |
| MemberIds.LeadingZerosValue | backend/routes/members.py:54 | zero padding on the left does not change the value of a digit string |
| Catalog.NewBook | backend/routes/books.py:54-64 | a created book carries the request's fields; total copies default to 1; available copies default to the total (so to 1 when neither is given) |
| Catalog.CreateBook | backend/routes/books.py:50-67 | refused with a duplicate-ISBN error exactly when the ISBN is taken, leaving the catalog as it was; otherwise the book is stored under a fresh id; ISBN uniqueness is preserved |
| Catalog.UpdatedFields | backend/routes/books.py:78-80 | after an update each attribute holds the value of the last key naming it, unless it is `created_at` or not named, in which case it keeps its old value |
| Catalog.UpdateKeepsCreatedAt | backend/routes/books.py:79 | an update never changes a book's creation time |
| Catalog.UpdateWithoutWritableKeys | backend/routes/books.py:78-80 | a request with only unknown or protected keys leaves the book unchanged |
| Catalog.UpdateSetsAvailableFreely | backend/routes/books.py:78-80 | an update may set available copies to any value without touching the total |
| Catalog.UpdateBook | backend/routes/books.py:75-83 | a missing book gives not-found; an ISBN already used by another book fails the commit and leaves the catalog unchanged; otherwise exactly that book is replaced by the updated one; ISBN uniqueness is preserved |
| Catalog.DeleteBook | backend/routes/books.py:89-91 | fails exactly when the book is missing; otherwise exactly that key leaves the catalog and the other books are unchanged. This is the route's logic; the commit failure on referencing transactions is under Left out |
| Catalog.AvailableBooks | backend/routes/books.py:105 | a book is listed exactly when its available copies are positive |
| Catalog.Categories | backend/routes/books.py:98-99 | a category is listed exactly when it is non-empty and some book has it |
| Membership.NewMember | backend/routes/members.py:60-74 | the new member has the formatted token, joins today, expires 365 days later, is active, and takes the request's fields with defaults "standard" and 3 |
| Membership.TokensUnique | backend/models/__init__.py:41 | when tokens follow row ids, no two members share a token |
| Membership.CreateMember | backend/routes/members.py:51-77 | refused with duplicate-email exactly when the email is taken, leaving the members unchanged; otherwise stored under the next row id and carrying that id's token ("LIB00001" in an empty table); email uniqueness and the token invariant are preserved |
| Membership.UpdatedFields | backend/routes/members.py:88-90 | after an update each attribute holds the value of the last key naming it, except `member_id` and `created_at`, which keep their values |
| Membership.UpdateKeepsIdentity | backend/routes/members.py:89 | an update never changes a member's token or creation time |
| Membership.UpdateWithoutWritableKeys | backend/routes/members.py:88-90 | a request with only unknown or protected keys leaves the member unchanged |
| Membership.UpdateMember | backend/routes/members.py:85-93 | a missing member gives not-found; an email used by another member fails the commit and leaves everything unchanged; otherwise exactly that member is replaced; both invariants are preserved |
| Membership.ActiveLoans | backend/routes/members.py:117-120 | a transaction is among a member's current loans exactly when it belongs to the member and is Active |
| Membership.BorrowedBooks | backend/routes/members.py:114-125 | not-found exactly when the member is missing; otherwise exactly the member's Active transactions, unchanged |
| Membership.DeleteMember | backend/routes/members.py:99-107 | not-found for a missing member; refused exactly when the member has an Active transaction; deleted exactly when the member exists and has no Active transaction (overdue and returned ones do not block it), and then exactly that member is removed; the invariants are preserved. This is the route's logic; the commit failure on referencing transactions is under Left out |
| Lending.BorrowRefusal | backend/routes/transactions.py:47-63 | the guards in order: missing book, no copy, missing member, inactive member, limit reached counting only Active loans; none applies exactly when all pass |
| Lending.NewLoan | backend/routes/transactions.py:66-77 | a loan is Active, fine-free, borrowed today and due 14 days later |
| Lending.Borrow | backend/routes/transactions.py:39-85 | every refusal leaves the store unchanged with that error; a token already in use fails the commit; otherwise the new loan is stored under a fresh id and the book loses exactly one free copy, which leaves a non-negative count |
| Lending.FindByCode | backend/routes/transactions.py:94 | with unique tokens, the transaction carrying a token is found exactly when one exists |
| Lending.FineOnReturn | backend/routes/transactions.py:105-109 | a late return costs 5 per day past the due date, a positive amount; an on-time return keeps the previous amount |
| Lending.Return | backend/routes/transactions.py:88-118 | an unknown token gives not-found; a non-Active transaction (returned or overdue) is refused; otherwise the transaction is closed today with its fine, and the book, if it still exists, gets one copy back without any clamp |
| Lending.LateLoans | backend/routes/transactions.py:126-129 | a transaction is late exactly when it is Active and due before today |
| Lending.Sweep | backend/routes/transactions.py:121-139 | the reported set is exactly the late loans; exactly they become Overdue; books, members and all other transactions are unchanged |
| Lending.PayFine | backend/routes/transactions.py:142-156 | not-found, no fine, and already paid are refused in that order with the store unchanged; otherwise only the paid flag of that transaction changes |
| Lending.BorrowKeepsLoansWellFormed | backend/routes/transactions.py:66-83 | a borrow keeps every transaction in a consistent lifecycle state, with tokens unique |
| Lending.ReturnKeepsLoansWellFormed | backend/routes/transactions.py:101-116 | a return keeps the lifecycle invariant |
| Lending.SweepKeepsLoansWellFormed | backend/routes/transactions.py:132-134 | the sweep keeps the lifecycle invariant |
| Lending.PayFineKeepsLoansWellFormed | backend/routes/transactions.py:153-154 | paying a fine keeps the lifecycle invariant |
| Lending.BorrowConservesCopies | backend/routes/transactions.py:80 | a borrow leaves free copies plus open loans of every book unchanged |
| Lending.ReturnConservesCopies | backend/routes/transactions.py:112-114 | a return leaves free copies plus open loans of every book unchanged |
| Lending.SweepConservesCopies | backend/routes/transactions.py:132-133 | the sweep leaves free copies plus open loans unchanged |
| Lending.PayFineConservesCopies | backend/routes/transactions.py:153 | paying a fine leaves free copies plus open loans unchanged |
| Lending.ReturnTwiceFails | backend/routes/transactions.py:98-99 | a second return of the same token is refused as already returned, on any day |
| Lending.OverdueCannotBeReturned | backend/routes/transactions.py:98-99 | an Overdue transaction can never be returned and the store stays unchanged |
| Lending.SweepIdempotent | backend/routes/transactions.py:126-134 | a second sweep on the same day reports nothing and changes nothing |
| Lending.PayFineTwiceFails | backend/routes/transactions.py:150-151 | a fine is paid only once |
| Lending.SingleCopyScenario | backend/routes/transactions.py:47-114 | with one copy: the borrow succeeds and takes the copy, a second borrow is refused for want of copies, and the return closes the loan and restores the copy |
| Lending.BorrowOpensLoan | backend/routes/transactions.py:69-82 | a successful borrow adds exactly the new loan to the member's open loans |
| Lending.SweepLeavesNoActive | backend/routes/transactions.py:126-133 | after a sweep past all their due dates, a member has no Active loan and the same open loans |
| Lending.OverdueLoansEscapeTheLimit | backend/routes/transactions.py:57-63 | a member allowed one book borrows, is swept to Overdue, borrows again and then holds two open loans |
| Lending.FineExamples | backend/routes/transactions.py:8-9 | borrowed on day 0, a return on day 20 costs 30 and a return on day 10 costs nothing |
| Lending.ReturnedFine | backend/routes/transactions.py:105-109 | the fine on a returned loan is 5 per day beyond borrow date plus 14, and zero when on time |
| Lending.UnpaidFinesWithout | backend/routes/transactions.py:168-170 | the unpaid total is the same whichever transaction is taken out first |
| Lending.UnpaidFinesUpdate | backend/routes/transactions.py:168-170 | writing one transaction changes the unpaid total by exactly its own unpaid amount |
| Lending.UnpaidFinesNonNegative | backend/routes/transactions.py:168-170 | with no negative fine, the unpaid total is non-negative |
| Lending.PayFineReducesUnpaid | backend/routes/transactions.py:153 | paying a fine lowers the unpaid total by exactly that fine |
| Lending.ReturnAddsFine | backend/routes/transactions.py:105-109 | a return raises the unpaid total by exactly the fine it assesses |
| Lending.BorrowAndSweepKeepUnpaid | backend/routes/transactions.py:80-83 | borrowing and sweeping leave the unpaid total unchanged |
| Lending.GetStats | backend/routes/transactions.py:159-178 | the Active and Overdue counts together never exceed the number of transactions; the unpaid total is non-negative under the lifecycle invariant |
| Engine.Library.CreateBook | backend/routes/books.py:45-69 | the catalog becomes exactly what Catalog.CreateBook gives; members and transactions are unchanged; the invariant is kept |
| Engine.Library.UpdateBook | backend/routes/books.py:72-83 | the keys are applied one by one and the result is exactly Catalog.UpdateBook |
| Engine.Library.DeleteBook | backend/routes/books.py:86-92 | exactly Catalog.DeleteBook |
| Engine.Library.CreateMember | backend/routes/members.py:46-79 | exactly Membership.CreateMember, with the next number taken from the largest row id |
| Engine.Library.NextMemberNumber | backend/routes/members.py:52-53 | the last member's id plus one, or 1 for an empty table |
| Engine.Library.UpdateMember | backend/routes/members.py:82-93 | the keys are applied one by one and the result is exactly Membership.UpdateMember |
| Engine.Library.DeleteMember | backend/routes/members.py:96-108 | exactly Membership.DeleteMember |
| Engine.Library.Borrow | backend/routes/transactions.py:39-85 | the tables become exactly what Lending.Borrow gives, and the invariant is kept |
| Engine.Library.Return | backend/routes/transactions.py:88-118 | exactly Lending.Return, with the invariant kept |
| Engine.Library.SweepOverdue | backend/routes/transactions.py:121-139 | marks the late loans one by one; the result is exactly Lending.Sweep, with the invariant kept |
| Engine.Library.PayFine | backend/routes/transactions.py:142-156 | exactly Lending.PayFine, with the invariant kept |

## Left out

- HTTP: request parsing, status codes and JSON rendering are not modelled.
  `get_or_404` becomes a `NotFound` error. Route registration
  (`backend/routes/__init__.py`), `backend/app.py` and the front end's
  `api.js` are not part of this model.
- Persistence and sessions are not modelled. Each request is one atomic
  step, and a failed commit leaves the store unchanged. Concurrent requests
  are not modelled.
- A failed unique column rejects the whole commit. This covers ISBN and
  email on update, and the transaction token on borrow.
- Fines are whole numbers. The source stores them as floats, and every fine
  it computes is a multiple of 5.
- Dates are day numbers. `isoformat` rendering is not modelled.
- `date.today()`, `datetime.utcnow()` and `uuid4` are parameters.
- The `updated_at` column and its `onupdate` hook are not modelled.
- The paged, searched and filtered listings are not modelled:
  `get_books`, `get_book`, `get_members`, `get_member` and
  `get_transactions`. They only read.
- The `Fine` table is not modelled. No route writes it.
- Catalog.DeleteBook, Membership.DeleteMember: these model the route
  logic only. Deleting a book or member that transactions still reference
  is modelled as a plain removal. In the source the relationship has no
  delete cascade, so the ORM sets the `NOT NULL` foreign key of those
  transactions to null.
  - The commit then fails on that `NOT NULL` column. So in the source such
    a delete raises a server error and removes nothing.
  - The effect is that a book that has ever been lent, or a member with any
    transaction, is never deleted. This includes a member whose loans are
    all returned, which the model deletes.
  - The model's missing-row branches (the return skipping the copy,
    `to_dict` omitting the title or name) are therefore not reachable this
    way in the source.
- Missing and null values are not modelled. `BookInput` and `MemberInput`
  make `isbn`, `title`, `author`, `first_name`, `last_name` and `email`
  plain strings. So a create request that omits one of them cannot be
  expressed. In the source, such a request passes the duplicate check and
  then fails its commit on the NOT NULL column.
- `total_copies`, `available_copies` and `max_books_allowed` are nullable
  columns but are modelled as integers. So an update that writes `null` to
  one of them cannot be expressed. In the source:
  - a null `available_copies` makes the next borrow's `<= 0` comparison
    raise an error (transactions.py line 48);
  - it also makes the next return's `+= 1` raise (line 114);
  - a null `max_books_allowed` makes the next borrow's limit comparison
    raise (line 62);
  - a null `total_copies` is read by no lending route, and only shows up as
    `null` in the dictionary.
- Update values are typed per column. A JSON value of the wrong type, a
  `null` for a non-null column, and keys naming relationships or methods
  (which `hasattr` accepts) are not modelled. Unknown keys are ignored.
- Row ids are assigned as one more than the largest id in use. This is how
  SQLite numbers an integer primary key declared without AUTOINCREMENT.
  Another database could number rows differently.
- Lending.GetStats: its contract states only the count bound and the sign
  of the unpaid total. The counts themselves are the definition.
