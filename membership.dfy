/** The member routes: enrolment with a sequential "LIB" token, updates,
    deletion guarded by open borrows, and the list of a member's current
    borrows. */
module Membership {
  import opened Results
  import opened Records
  import opened MemberIds

  /** A membership lasts one year from the join date. */
  const MembershipDays: int := 365

  // --------------------------------------------------------------- create

  /** The fields a create request may carry; `None` is a key the request left out. */
  datatype MemberInput = MemberInput(
    firstName: string,
    lastName: string,
    email: string,
    phone: Option<string>,
    address: Option<string>,
    membershipType: Option<string>,
    maxBooksAllowed: Option<int>)

  /** The record enrolment inserts for member number `n` on day `today`. */
  function NewMember(n: nat, input: MemberInput, today: int, now: int): (m: Member)
    ensures m.memberId == FormatMemberId(n)
    ensures m.joinDate == today && m.expiryDate == Some(today + MembershipDays)
    ensures m.firstName == input.firstName && m.lastName == input.lastName && m.email == input.email
    ensures m.phone == input.phone && m.address == input.address
    ensures input.membershipType.None? ==> m.membershipType == DefaultMembershipType
    ensures input.membershipType.Some? ==> m.membershipType == input.membershipType.value
    ensures input.maxBooksAllowed.None? ==> m.maxBooksAllowed == DefaultMaxBooksAllowed
    ensures input.maxBooksAllowed.Some? ==> m.maxBooksAllowed == input.maxBooksAllowed.value
    ensures m.status == DefaultMemberStatus && m.createdAt == now
  {
    Member(FormatMemberId(n), input.firstName, input.lastName, input.email, input.phone, input.address,
           input.membershipType.GetOr(DefaultMembershipType), today, Some(today + MembershipDays),
           DefaultMemberStatus, input.maxBooksAllowed.GetOr(DefaultMaxBooksAllowed), now)
  }

  /** Every member's token is the one formatted from its own row id. */
  predicate TokensFollowIds(members: map<nat, Member>) {
    forall k :: k in members ==> members[k].memberId == FormatMemberId(k)
  }

  /** Tokens formatted from row ids are unique, as the `member_id` column demands. */
  lemma TokensUnique(members: map<nat, Member>)
    requires TokensFollowIds(members)
    ensures MemberIdsUnique(members)
  {
    forall i, j | i in members && j in members && members[i].memberId == members[j].memberId
      ensures i == j
    {
      MemberIdInjective(i, j);
    }
  }

  /** `create_member`: refused when the email is already enrolled; otherwise
      the member is stored under the next row id, whose token it carries. */
  function CreateMember(members: map<nat, Member>, input: MemberInput, today: int, now: int)
    : (r: (Result<nat>, map<nat, Member>))
    ensures r.0.Err? <==> EmailTaken(members, input.email)
    ensures r.0.Err? ==> r.0.error == Rejected(DuplicateEmail) && r.1 == members
    ensures r.0.Ok? ==> r.0.value == NextId(members.Keys) && r.0.value !in members
    ensures r.0.Ok? ==> r.1 == members[r.0.value := NewMember(r.0.value, input, today, now)]
    ensures members == map[] && r.0.Ok? ==> r.1[r.0.value].memberId == "LIB00001"
    ensures EmailsUnique(members) ==> EmailsUnique(r.1)
    ensures TokensFollowIds(members) ==> TokensFollowIds(r.1)
  {
    var n := NextId(members.Keys);
    if EmailTaken(members, input.email) then (Err(Rejected(DuplicateEmail)), members)
    else
      MemberIdExamples();
      (Ok(n), members[n := NewMember(n, input, today, now)])
  }

  // --------------------------------------------------------------- update

  /** One key of an update request.  Keys that name no attribute of a member
      are kept as `SetUnknown`. */
  datatype MemberUpdate =
    | SetFirstName(firstName: string)
    | SetLastName(lastName: string)
    | SetEmail(email: string)
    | SetPhone(phone: Option<string>)
    | SetAddress(address: Option<string>)
    | SetMembershipType(membershipType: string)
    | SetJoinDate(joinDate: int)
    | SetExpiryDate(expiryDate: Option<int>)
    | SetStatus(status: string)
    | SetMaxBooksAllowed(maxBooks: int)
    | SetMemberId(memberId: string)
    | SetCreatedAt(createdAt: int)
    | SetId(id: int)
    | SetUnknown(key: string)

  /** The attributes of a member record. */
  datatype MemberField =
    | FirstNameField | LastNameField | EmailField | PhoneField | AddressField | TypeField
    | JoinDateField | ExpiryDateField | StatusField | MaxBooksField | MemberIdField | CreatedAtField

  /** The attribute an update key names; the row id is the store's key, not a field. */
  function FieldOf(u: MemberUpdate): Option<MemberField> {
    match u
    case SetFirstName(_) => Some(FirstNameField)
    case SetLastName(_) => Some(LastNameField)
    case SetEmail(_) => Some(EmailField)
    case SetPhone(_) => Some(PhoneField)
    case SetAddress(_) => Some(AddressField)
    case SetMembershipType(_) => Some(TypeField)
    case SetJoinDate(_) => Some(JoinDateField)
    case SetExpiryDate(_) => Some(ExpiryDateField)
    case SetStatus(_) => Some(StatusField)
    case SetMaxBooksAllowed(_) => Some(MaxBooksField)
    case SetMemberId(_) => Some(MemberIdField)
    case SetCreatedAt(_) => Some(CreatedAtField)
    case SetId(_) => None
    case SetUnknown(_) => None
  }

  /** Attributes the update route never overwrites (besides `id`). */
  predicate Protected(f: MemberField) {
    f == MemberIdField || f == CreatedAtField
  }

  /** One `setattr` step: a protected or unknown key leaves the member as it is. */
  function Assign(m: Member, u: MemberUpdate): Member {
    match u
    case SetFirstName(x) => m.(firstName := x)
    case SetLastName(x) => m.(lastName := x)
    case SetEmail(x) => m.(email := x)
    case SetPhone(x) => m.(phone := x)
    case SetAddress(x) => m.(address := x)
    case SetMembershipType(x) => m.(membershipType := x)
    case SetJoinDate(x) => m.(joinDate := x)
    case SetExpiryDate(x) => m.(expiryDate := x)
    case SetStatus(x) => m.(status := x)
    case SetMaxBooksAllowed(x) => m.(maxBooksAllowed := x)
    case SetMemberId(_) => m
    case SetCreatedAt(_) => m
    case SetId(_) => m
    case SetUnknown(_) => m
  }

  /** The request's keys applied in order. */
  function ApplyUpdates(m: Member, us: seq<MemberUpdate>): Member {
    if us == [] then m else Assign(ApplyUpdates(m, us[..|us| - 1]), us[|us| - 1])
  }

  // Current, LastFor, MemberByFields, AssignField and UpdatedFields mirror
  // their Catalog namesakes, over the member's attributes.

  /** The update that would write `m`'s own value of `f` back. */
  function Current(m: Member, f: MemberField): (u: MemberUpdate)
    ensures FieldOf(u) == Some(f)
  {
    match f
    case FirstNameField => SetFirstName(m.firstName)
    case LastNameField => SetLastName(m.lastName)
    case EmailField => SetEmail(m.email)
    case PhoneField => SetPhone(m.phone)
    case AddressField => SetAddress(m.address)
    case TypeField => SetMembershipType(m.membershipType)
    case JoinDateField => SetJoinDate(m.joinDate)
    case ExpiryDateField => SetExpiryDate(m.expiryDate)
    case StatusField => SetStatus(m.status)
    case MaxBooksField => SetMaxBooksAllowed(m.maxBooksAllowed)
    case MemberIdField => SetMemberId(m.memberId)
    case CreatedAtField => SetCreatedAt(m.createdAt)
  }

  /** The last key of the request that names `f`, if any. */
  function LastFor(us: seq<MemberUpdate>, f: MemberField): (r: Option<MemberUpdate>)
    ensures r.Some? ==> r.value in us && FieldOf(r.value) == Some(f)
    ensures r.None? <==> forall i :: 0 <= i < |us| ==> FieldOf(us[i]) != Some(f)
  {
    if us == [] then None
    else if FieldOf(us[|us| - 1]) == Some(f) then Some(us[|us| - 1])
    else LastFor(us[..|us| - 1], f)
  }

  /** A member is determined by its attributes. */
  lemma MemberByFields(a: Member, b: Member)
    requires forall f :: Current(a, f) == Current(b, f)
    ensures a == b
  {
    assert Current(a, FirstNameField) == Current(b, FirstNameField);
    assert Current(a, LastNameField) == Current(b, LastNameField);
    assert Current(a, EmailField) == Current(b, EmailField);
    assert Current(a, PhoneField) == Current(b, PhoneField);
    assert Current(a, AddressField) == Current(b, AddressField);
    assert Current(a, TypeField) == Current(b, TypeField);
    assert Current(a, JoinDateField) == Current(b, JoinDateField);
    assert Current(a, ExpiryDateField) == Current(b, ExpiryDateField);
    assert Current(a, StatusField) == Current(b, StatusField);
    assert Current(a, MaxBooksField) == Current(b, MaxBooksField);
    assert Current(a, MemberIdField) == Current(b, MemberIdField);
    assert Current(a, CreatedAtField) == Current(b, CreatedAtField);
  }

  lemma AssignField(m: Member, u: MemberUpdate, f: MemberField)
    ensures Current(Assign(m, u), f) ==
              if FieldOf(u) == Some(f) && !Protected(f) then u else Current(m, f)
  {
  }

  /** After an update every attribute holds the value of the last key that
      names it, unless it is protected (the token, the creation time) or not
      named at all, in which case it is unchanged. */
  lemma {:induction false} UpdatedFields(m: Member, us: seq<MemberUpdate>, f: MemberField)
    ensures Current(ApplyUpdates(m, us), f) ==
              if !Protected(f) && LastFor(us, f).Some? then LastFor(us, f).value else Current(m, f)
  {
    if us != [] {
      var init := us[..|us| - 1];
      UpdatedFields(m, init, f);
      AssignField(ApplyUpdates(m, init), us[|us| - 1], f);
    }
  }

  /** The token and the creation time survive every update. */
  lemma UpdateKeepsIdentity(m: Member, us: seq<MemberUpdate>)
    ensures ApplyUpdates(m, us).memberId == m.memberId
    ensures ApplyUpdates(m, us).createdAt == m.createdAt
  {
    UpdatedFields(m, us, MemberIdField);
    UpdatedFields(m, us, CreatedAtField);
  }

  /** A request without any writable key leaves the member unchanged. */
  lemma UpdateWithoutWritableKeys(m: Member, us: seq<MemberUpdate>)
    requires forall i :: 0 <= i < |us| ==> FieldOf(us[i]).None? || Protected(FieldOf(us[i]).value)
    ensures ApplyUpdates(m, us) == m
  {
    forall f ensures Current(ApplyUpdates(m, us), f) == Current(m, f) {
      UpdatedFields(m, us, f);
    }
    MemberByFields(ApplyUpdates(m, us), m);
  }

  predicate EmailTakenByOther(members: map<nat, Member>, id: nat, email: string) {
    exists k :: k in members && k != id && members[k].email == email
  }

  /** `update_member`: the keys are applied to the stored member; the unique
      `email` column makes the commit fail when the new email belongs to
      another member. */
  function UpdateMember(members: map<nat, Member>, id: nat, us: seq<MemberUpdate>)
    : (r: (Result<Member>, map<nat, Member>))
    ensures id !in members ==> r == (Err(NotFound), members)
    ensures id in members && EmailTakenByOther(members, id, ApplyUpdates(members[id], us).email) ==>
              r == (Err(Rejected(UniqueConstraint)), members)
    ensures r.0.Ok? <==> id in members && !EmailTakenByOther(members, id, ApplyUpdates(members[id], us).email)
    ensures r.0.Ok? ==> r.0.value == ApplyUpdates(members[id], us) && r.1 == members[id := r.0.value]
    ensures EmailsUnique(members) ==> EmailsUnique(r.1)
    ensures TokensFollowIds(members) ==> TokensFollowIds(r.1)
  {
    if id !in members then (Err(NotFound), members)
    else
      var m := ApplyUpdates(members[id], us);
      UpdateKeepsIdentity(members[id], us);
      if EmailTakenByOther(members, id, m.email) then (Err(Rejected(UniqueConstraint)), members)
      else (Ok(m), members[id := m])
  }

  // ------------------------------------------------------ current borrows

  /** The member's transactions whose status is exactly Active; overdue ones are not among them. */
  function ActiveLoans(txns: map<nat, Transaction>, memberId: nat): (r: set<nat>)
    ensures forall k :: k in r <==> k in txns && txns[k].memberId == memberId && txns[k].status == Active
  {
    set k | k in txns && txns[k].memberId == memberId && txns[k].status == Active
  }

  /** `get_member_borrowed_books`: the member's Active transactions. */
  function BorrowedBooks(members: map<nat, Member>, txns: map<nat, Transaction>, id: nat)
    : (r: Result<map<nat, Transaction>>)
    ensures r.Err? <==> id !in members
    ensures r.Err? ==> r.error == NotFound
    ensures r.Ok? ==> r.value.Keys == ActiveLoans(txns, id)
    ensures r.Ok? ==> forall k :: k in r.value ==> r.value[k] == txns[k]
  {
    if id !in members then Err(NotFound)
    else Ok(map k | k in ActiveLoans(txns, id) :: txns[k])
  }

  // --------------------------------------------------------------- delete

  /** `delete_member`: refused exactly when the member has an Active
      transaction; overdue and returned ones do not block it.  The member's
      transactions stay in the store. */
  function DeleteMember(members: map<nat, Member>, txns: map<nat, Transaction>, id: nat)
    : (r: (Outcome, map<nat, Member>))
    ensures id !in members ==> r == (Failed(NotFound), members)
    ensures r.0 == Failed(Rejected(HasActiveBorrows)) <==>
              id in members && exists k :: k in txns && txns[k].memberId == id && txns[k].status == Active
    ensures r.0.Done? <==> id in members && ActiveLoans(txns, id) == {}
    ensures r.0.Done? ==> r.1 == members - {id}
    ensures r.0.Failed? ==> r.1 == members
    ensures EmailsUnique(members) ==> EmailsUnique(r.1)
    ensures TokensFollowIds(members) ==> TokensFollowIds(r.1)
  {
    if id !in members then (Failed(NotFound), members)
    else if ActiveLoans(txns, id) != {} then (Failed(Rejected(HasActiveBorrows)), members)
    else (Done, members - {id})
  }
}
