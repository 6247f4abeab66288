/** The three tables of the library (books, members, transactions): their
    columns, column defaults, unique columns, and the dictionaries the
    records are rendered as.  Dates are day numbers; fines are whole
    currency units.  The surrogate `id` of a row is the key under which the
    store keeps it, not a field of the record. */
module Records {
  import opened Results

  // ------------------------------------------------------------ Row ids

  lemma {:induction false} MaxExists(keys: set<nat>)
    requires keys != {}
    ensures exists m :: m in keys && forall k :: k in keys ==> k <= m
  {
    var x :| x in keys;
    var rest := keys - {x};
    if rest != {} {
      MaxExists(rest);
      var m :| m in rest && forall k :: k in rest ==> k <= m;
      if x <= m {
        assert forall k :: k in keys ==> k <= m by {
          forall k | k in keys ensures k <= m {
            if k != x { assert k in rest; }
          }
        }
      } else {
        assert forall k :: k in keys ==> k <= x by {
          forall k | k in keys ensures k <= x {
            if k != x { assert k in rest; }
          }
        }
      }
    } else {
      assert keys == {x};
    }
  }

  /** The largest row id in use (`order_by(id.desc()).first()`). */
  function MaxKey(keys: set<nat>): (m: nat)
    requires keys != {}
    ensures m in keys && forall k :: k in keys ==> k <= m
  {
    MaxExists(keys);
    var m :| m in keys && forall k :: k in keys ==> k <= m;
    m
  }

  /** The id the next inserted row receives: the database hands out one more
      than the largest id in use, and the member route computes the same number
      for its token. */
  function NextId(keys: set<nat>): (n: nat)
    ensures n >= 1 && n !in keys
    ensures forall k :: k in keys ==> k < n
    ensures keys == {} ==> n == 1
    ensures keys != {} ==> n - 1 in keys
  {
    if keys == {} then 1 else MaxKey(keys) + 1
  }

  // ---------------------------------------------------------------- Book

  datatype Book = Book(
    isbn: string,
    title: string,
    author: string,
    publisher: Option<string>,
    publicationYear: Option<int>,
    category: Option<string>,
    totalCopies: int,
    availableCopies: int,
    location: Option<string>,
    createdAt: int)

  const DefaultTotalCopies: int := 1
  const DefaultAvailableCopies: int := 1

  /** `isbn` is a unique column. */
  predicate IsbnsUnique(books: map<nat, Book>) {
    forall i, j :: i in books && j in books && books[i].isbn == books[j].isbn ==> i == j
  }

  predicate IsbnTaken(books: map<nat, Book>, isbn: string) {
    exists k :: k in books && books[k].isbn == isbn
  }

  /** `Book.to_dict`: every column but the timestamps, plus the row id. */
  datatype BookView = BookView(
    id: nat,
    isbn: string,
    title: string,
    author: string,
    publisher: Option<string>,
    publicationYear: Option<int>,
    category: Option<string>,
    totalCopies: int,
    availableCopies: int,
    location: Option<string>)

  function BookFromView(v: BookView, createdAt: int): Book {
    Book(v.isbn, v.title, v.author, v.publisher, v.publicationYear, v.category,
         v.totalCopies, v.availableCopies, v.location, createdAt)
  }

  /** The dictionary keeps the id and loses nothing of the record but its creation time. */
  function BookToDict(id: nat, b: Book): (v: BookView)
    ensures v.id == id
    ensures BookFromView(v, b.createdAt) == b
  {
    BookView(id, b.isbn, b.title, b.author, b.publisher, b.publicationYear, b.category,
             b.totalCopies, b.availableCopies, b.location)
  }

  // -------------------------------------------------------------- Member

  datatype Member = Member(
    memberId: string,
    firstName: string,
    lastName: string,
    email: string,
    phone: Option<string>,
    address: Option<string>,
    membershipType: string,
    joinDate: int,              // a non-null column
    expiryDate: Option<int>,
    status: string,             // "active", "suspended", "expired", or whatever an update wrote
    maxBooksAllowed: int,
    createdAt: int)

  const DefaultMembershipType: string := "standard"
  const DefaultMemberStatus: string := "active"
  const DefaultMaxBooksAllowed: int := 3

  /** `email` is a unique column. */
  predicate EmailsUnique(members: map<nat, Member>) {
    forall i, j :: i in members && j in members && members[i].email == members[j].email ==> i == j
  }

  predicate EmailTaken(members: map<nat, Member>, email: string) {
    exists k :: k in members && members[k].email == email
  }

  /** `member_id` is a unique column. */
  predicate MemberIdsUnique(members: map<nat, Member>) {
    forall i, j :: i in members && j in members && members[i].memberId == members[j].memberId ==> i == j
  }

  /** `Member.to_dict`: the dates are rendered only when present. */
  datatype MemberView = MemberView(
    id: nat,
    memberId: string,
    firstName: string,
    lastName: string,
    email: string,
    phone: Option<string>,
    address: Option<string>,
    membershipType: string,
    joinDate: Option<int>,
    expiryDate: Option<int>,
    status: string,
    maxBooksAllowed: int)

  function MemberFromView(v: MemberView, createdAt: int): Member
    requires v.joinDate.Some?
  {
    Member(v.memberId, v.firstName, v.lastName, v.email, v.phone, v.address, v.membershipType,
           v.joinDate.value, v.expiryDate, v.status, v.maxBooksAllowed, createdAt)
  }

  function MemberToDict(id: nat, m: Member): (v: MemberView)
    ensures v.id == id
    ensures v.joinDate == Some(m.joinDate)
    ensures v.expiryDate.None? <==> m.expiryDate.None?
    ensures MemberFromView(v, m.createdAt) == m
  {
    MemberView(id, m.memberId, m.firstName, m.lastName, m.email, m.phone, m.address,
               m.membershipType, Some(m.joinDate), m.expiryDate, m.status, m.maxBooksAllowed)
  }

  // --------------------------------------------------------- Transaction

  datatype TxStatus = Active | Returned | Overdue

  /** `transaction_type`; the routes only ever write "borrow". */
  datatype TxType = BorrowType | ReturnType

  datatype Transaction = Transaction(
    code: string,               // the `transaction_id` column, e.g. "TXN1A2B3C4D"
    bookId: nat,
    memberId: nat,              // the member's row id, not its "LIB....." token
    kind: TxType,
    borrowDate: int,
    dueDate: int,
    returnDate: Option<int>,
    fineAmount: int,
    finePaid: bool,
    status: TxStatus,
    notes: Option<string>)

  /** A transaction row as inserted with only the columns a borrow supplies:
      `fine_amount`, `fine_paid` and `status` take their column defaults. */
  function NewTransaction(code: string, bookId: nat, memberId: nat, kind: TxType,
                          borrowDate: int, dueDate: int): (t: Transaction)
    ensures t.fineAmount == 0 && !t.finePaid && t.status == Active
    ensures t.returnDate.None? && t.notes.None?
    ensures t.code == code && t.bookId == bookId && t.memberId == memberId && t.kind == kind
    ensures t.borrowDate == borrowDate && t.dueDate == dueDate
  {
    Transaction(code, bookId, memberId, kind, borrowDate, dueDate, None, 0, false, Active, None)
  }

  /** `transaction_id` is a unique column. */
  predicate CodesUnique(txns: map<nat, Transaction>) {
    forall i, j :: i in txns && j in txns && txns[i].code == txns[j].code ==> i == j
  }

  predicate CodeTaken(txns: map<nat, Transaction>, code: string) {
    exists k :: k in txns && txns[k].code == code
  }

  /** `Transaction.to_dict`: book title and member name come from the
      referenced rows when they still exist. */
  datatype TransactionView = TransactionView(
    id: nat,
    code: string,
    bookId: nat,
    bookTitle: Option<string>,
    memberId: nat,
    memberName: Option<string>,
    kind: TxType,
    borrowDate: int,
    dueDate: int,
    returnDate: Option<int>,
    fineAmount: int,
    finePaid: bool,
    status: TxStatus,
    notes: Option<string>)

  function TransactionFromView(v: TransactionView): Transaction {
    Transaction(v.code, v.bookId, v.memberId, v.kind, v.borrowDate, v.dueDate, v.returnDate,
                v.fineAmount, v.finePaid, v.status, v.notes)
  }

  function FullName(m: Member): string {
    m.firstName + " " + m.lastName
  }

  function TransactionToDict(id: nat, t: Transaction, books: map<nat, Book>,
                             members: map<nat, Member>): (v: TransactionView)
    ensures v.id == id && TransactionFromView(v) == t
    ensures v.bookTitle.Some? <==> t.bookId in books
    ensures t.bookId in books ==> v.bookTitle.value == books[t.bookId].title
    ensures v.memberName.Some? <==> t.memberId in members
    ensures t.memberId in members ==>
              var m := members[t.memberId];
              |v.memberName.value| == |m.firstName| + 1 + |m.lastName| &&
              v.memberName.value[..|m.firstName|] == m.firstName &&
              v.memberName.value[|m.firstName|] == ' ' &&
              v.memberName.value[|m.firstName| + 1..] == m.lastName
    ensures v.returnDate.None? <==> t.returnDate.None?
  {
    TransactionView(
      id, t.code, t.bookId,
      if t.bookId in books then Some(books[t.bookId].title) else None,
      t.memberId,
      if t.memberId in members then Some(FullName(members[t.memberId])) else None,
      t.kind, t.borrowDate, t.dueDate, t.returnDate, t.fineAmount, t.finePaid, t.status, t.notes)
  }

  // --------------------------------------------------------------- Store

  /** The database: each table maps row ids to records. */
  datatype Store = Store(
    books: map<nat, Book>,
    members: map<nat, Member>,
    txns: map<nat, Transaction>)
}
