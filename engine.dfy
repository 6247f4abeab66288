/** The library back end as one object whose three tables the routes update
    in place.  Each method is one request, applied atomically; each is proved
    to leave the tables exactly as the corresponding function of Catalog,
    Membership or Lending describes, and to keep the store's invariant. */
module Engine {
  import opened Results
  import opened Records
  import opened MemberIds
  import Catalog
  import Membership
  import Lending

  class Library {
    var books: map<nat, Book>
    var members: map<nat, Member>
    var txns: map<nat, Transaction>

    /** Unique columns hold, member tokens follow row ids, and every
        transaction is in a consistent lifecycle state. */
    ghost predicate Valid()
      reads this
    {
      && IsbnsUnique(books)
      && EmailsUnique(members)
      && Membership.TokensFollowIds(members)
      && Lending.LoansWellFormed(txns)
    }

    function State(): Store
      reads this
    {
      Store(books, members, txns)
    }

    constructor ()
      ensures Valid()
      ensures books == map[] && members == map[] && txns == map[]
    {
      books, members, txns := map[], map[], map[];
    }

    // -------------------------------------------------------------- books

    method CreateBook(input: Catalog.BookInput, now: int) returns (r: Result<nat>)
      requires Valid()
      modifies this
      ensures Valid()
      ensures (r, books) == Catalog.CreateBook(old(books), input, now)
      ensures members == old(members) && txns == old(txns)
    {
      if exists k :: k in books && books[k].isbn == input.isbn {
        return Err(Rejected(DuplicateIsbn));
      }
      var id := NextId(books.Keys);
      books := books[id := Catalog.NewBook(input, now)];
      r := Ok(id);
    }

    /** Applies the request's keys one `setattr` at a time, then commits. */
    method UpdateBook(id: nat, us: seq<Catalog.BookUpdate>) returns (r: Result<Book>)
      requires Valid()
      modifies this
      ensures Valid()
      ensures (r, books) == Catalog.UpdateBook(old(books), id, us)
      ensures members == old(members) && txns == old(txns)
    {
      if id !in books {
        return Err(NotFound);
      }
      var b := books[id];
      var i := 0;
      while i < |us|
        invariant 0 <= i <= |us|
        invariant b == Catalog.ApplyUpdates(books[id], us[..i])
      {
        assert us[..i + 1][..i] == us[..i];
        b := Catalog.Assign(b, us[i]);
        i := i + 1;
      }
      assert us[..|us|] == us;
      if exists k :: k in books && k != id && books[k].isbn == b.isbn {
        return Err(Rejected(UniqueConstraint));
      }
      books := books[id := b];
      r := Ok(b);
    }

    method DeleteBook(id: nat) returns (r: Outcome)
      requires Valid()
      modifies this
      ensures Valid()
      ensures (r, books) == Catalog.DeleteBook(old(books), id)
      ensures members == old(members) && txns == old(txns)
    {
      if id !in books {
        return Failed(NotFound);
      }
      books := books - {id};
      r := Done;
    }

    // ------------------------------------------------------------ members

    method CreateMember(input: Membership.MemberInput, today: int, now: int) returns (r: Result<nat>)
      requires Valid()
      modifies this
      ensures Valid()
      ensures (r, members) == Membership.CreateMember(old(members), input, today, now)
      ensures books == old(books) && txns == old(txns)
    {
      var nextId := NextMemberNumber();
      var memberId := FormatMemberId(nextId);
      if exists k :: k in members && members[k].email == input.email {
        return Err(Rejected(DuplicateEmail));
      }
      var member := Member(memberId, input.firstName, input.lastName, input.email, input.phone,
                           input.address, input.membershipType.GetOr(DefaultMembershipType), today,
                           Some(today + Membership.MembershipDays), DefaultMemberStatus,
                           input.maxBooksAllowed.GetOr(DefaultMaxBooksAllowed), now);
      assert member == Membership.NewMember(nextId, input, today, now);
      members := members[nextId := member];
      r := Ok(nextId);
    }

    /** The number of the next member: the last member's id plus one, or 1
        for an empty table. */
    method NextMemberNumber() returns (n: nat)
      ensures n == NextId(members.Keys)
    {
      n := 1;
      if members != map[] {
        assert MaxKey(members.Keys) in members;
        var last :| last in members && forall k :: k in members ==> k <= last;
        assert last <= MaxKey(members.Keys);
        n := last + 1;
      }
    }

    /** Applies the request's keys one `setattr` at a time, then commits. */
    method UpdateMember(id: nat, us: seq<Membership.MemberUpdate>) returns (r: Result<Member>)
      requires Valid()
      modifies this
      ensures Valid()
      ensures (r, members) == Membership.UpdateMember(old(members), id, us)
      ensures books == old(books) && txns == old(txns)
    {
      if id !in members {
        return Err(NotFound);
      }
      var m := members[id];
      var i := 0;
      while i < |us|
        invariant 0 <= i <= |us|
        invariant m == Membership.ApplyUpdates(members[id], us[..i])
      {
        assert us[..i + 1][..i] == us[..i];
        m := Membership.Assign(m, us[i]);
        i := i + 1;
      }
      assert us[..|us|] == us;
      Membership.UpdateKeepsIdentity(members[id], us);
      if exists k :: k in members && k != id && members[k].email == m.email {
        return Err(Rejected(UniqueConstraint));
      }
      members := members[id := m];
      r := Ok(m);
    }

    method DeleteMember(id: nat) returns (r: Outcome)
      requires Valid()
      modifies this
      ensures Valid()
      ensures (r, members) == Membership.DeleteMember(old(members), old(txns), id)
      ensures books == old(books) && txns == old(txns)
    {
      if id !in members {
        return Failed(NotFound);
      }
      if exists k :: k in txns && txns[k].memberId == id && txns[k].status == Active {
        return Failed(Rejected(HasActiveBorrows));
      }
      members := members - {id};
      r := Done;
    }

    // ------------------------------------------------------------ lending

    method Borrow(bookId: nat, memberId: nat, today: int, code: string) returns (r: Result<nat>)
      requires Valid()
      modifies this
      ensures Valid()
      ensures (r, State()) == Lending.Borrow(old(State()), bookId, memberId, today, code)
    {
      if bookId !in books {
        return Err(NotFound);
      }
      var book := books[bookId];
      if book.availableCopies <= 0 {
        return Err(Rejected(NoCopiesAvailable));
      }
      if memberId !in members {
        return Err(NotFound);
      }
      var member := members[memberId];
      if member.status != "active" {
        return Err(Rejected(MemberNotActive));
      }
      var borrowed := set k | k in txns && txns[k].memberId == memberId && txns[k].status == Active;
      assert borrowed == Membership.ActiveLoans(txns, memberId);
      var activeBorrows := |borrowed|;
      if activeBorrows >= member.maxBooksAllowed {
        return Err(Rejected(BorrowLimitReached(member.maxBooksAllowed)));
      }
      if exists k :: k in txns && txns[k].code == code {
        return Err(Rejected(UniqueConstraint));
      }
      ghost var before := State();
      var id := NextId(txns.Keys);
      txns := txns[id := NewTransaction(code, bookId, memberId, BorrowType, today, today + Lending.MaxBorrowDays)];
      books := books[bookId := book.(availableCopies := book.availableCopies - 1)];
      r := Ok(id);
      Lending.BorrowKeepsLoansWellFormed(before, bookId, memberId, today, code);
    }

    method Return(code: string, today: int) returns (r: Result<nat>)
      requires Valid()
      modifies this
      ensures Valid()
      ensures (r, State()) == Lending.Return(old(State()), code, today)
    {
      if !exists k :: k in txns && txns[k].code == code {
        return Err(NotFound);
      }
      var id :| id in txns && txns[id].code == code;
      assert Lending.FindByCode(txns, code) == Some(id);
      var t := txns[id];
      if t.status != Active {
        return Err(Rejected(AlreadyReturned));
      }
      ghost var before := State();
      t := t.(returnDate := Some(today), status := Returned);
      if today > t.dueDate {
        var daysOverdue := today - t.dueDate;
        t := t.(fineAmount := daysOverdue * Lending.FinePerDay);
      }
      txns := txns[id := t];
      if t.bookId in books {
        var book := books[t.bookId];
        books := books[t.bookId := book.(availableCopies := book.availableCopies + 1)];
      }
      r := Ok(id);
      Lending.ReturnKeepsLoansWellFormed(before, code, today);
    }

    /** Selects the late Active loans, then marks them Overdue one by one. */
    method SweepOverdue(today: int) returns (swept: set<nat>)
      requires Valid()
      modifies this
      ensures Valid()
      ensures (swept, State()) == Lending.Sweep(old(State()), today)
    {
      swept := set k | k in txns && txns[k].status == Active && txns[k].dueDate < today;
      ghost var before := txns;
      var todo := swept;
      while todo != {}
        invariant todo <= swept <= before.Keys
        invariant txns.Keys == before.Keys
        invariant forall k :: k in txns ==>
                    txns[k] == if k in swept - todo then before[k].(status := Overdue) else before[k]
        invariant books == old(books) && members == old(members)
        decreases todo
      {
        var k :| k in todo;
        txns := txns[k := txns[k].(status := Overdue)];
        todo := todo - {k};
      }
      assert txns == Lending.MarkOverdue(before, swept);
      Lending.SweepKeepsLoansWellFormed(old(State()), today);
    }

    method PayFine(id: nat) returns (r: Result<nat>)
      requires Valid()
      modifies this
      ensures Valid()
      ensures (r, State()) == Lending.PayFine(old(State()), id)
    {
      if id !in txns {
        return Err(NotFound);
      }
      var t := txns[id];
      if t.fineAmount <= 0 {
        return Err(Rejected(NoFineToPay));
      }
      if t.finePaid {
        return Err(Rejected(FineAlreadyPaid));
      }
      ghost var before := State();
      txns := txns[id := t.(finePaid := true)];
      r := Ok(id);
      Lending.PayFineKeepsLoansWellFormed(before, id);
    }
  }
}
