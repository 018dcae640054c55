/**
 * Library users: a borrowing quota fixed by the user type, and the list of document ids
 * the user currently holds. `User` is the mutable object the service keeps in its registry;
 * `UserRecord` is its value, on which the service's specification is written.
 */
module Users {
  /** The user categories and their quotas of simultaneous loans. */
  datatype UserType = STUDENT | TEACHER | EXTERNAL

  /** `getMaxLoans`. */
  function MaxLoans(t: UserType): nat
  {
    match t
    case STUDENT => 5
    case TEACHER => 10
    case EXTERNAL => 3
  }

  /** The quotas are five, ten and three: teachers may hold the most, external users the fewest. */
  lemma {:induction false} QuotaOrder()
    ensures MaxLoans(STUDENT) == 5 && MaxLoans(TEACHER) == 10 && MaxLoans(EXTERNAL) == 3
    ensures MaxLoans(EXTERNAL) < MaxLoans(STUDENT) < MaxLoans(TEACHER)
    ensures forall t: UserType :: 0 < MaxLoans(t) <= 10
  {
  }

  /** The value of a `User`: registration date as a day number, held loans as document ids. */
  datatype UserRecord = UserRecord(
    userId: string,
    name: string,
    email: string,
    phone: string,
    registrationDate: int,
    userType: UserType,
    currentLoans: seq<string>)

  /** `canBorrow`: fewer loans held than the quota allows. */
  predicate UnderQuota(u: UserRecord)
  {
    |u.currentLoans| < MaxLoans(u.userType)
  }

  /** `List.indexOf`, for an element that is present. */
  function IndexOf(s: seq<string>, x: string): (i: nat)
    requires x in s
    ensures i < |s| && s[i] == x && x !in s[..i]
  {
    if s[0] == x then 0
    else
      var j := IndexOf(s[1..], x);
      assert s[..j + 1] == [s[0]] + s[1..][..j];
      j + 1
  }

  /** `List.remove(Object)`: drops the first element equal to `x`, and nothing if there is none. */
  function RemoveFirst(s: seq<string>, x: string): (r: seq<string>)
    ensures x !in s ==> r == s
    ensures x in s ==> exists i :: 0 <= i < |s| && s[i] == x && x !in s[..i] && r == s[..i] + s[i + 1..]
  {
    if x in s then
      var i := IndexOf(s, x);
      s[..i] + s[i + 1..]
    else s
  }

  /** Exactly one copy of `x` goes, if there is one: the held-loan count drops by one or stays. */
  lemma {:induction false} RemoveFirstCount(s: seq<string>, x: string)
    ensures multiset(RemoveFirst(s, x)) == multiset(s) - multiset{x}
    ensures |RemoveFirst(s, x)| == if x in s then |s| - 1 else |s|
  {
    if x in s {
      var i := IndexOf(s, x);
      assert s == s[..i] + [x] + s[i + 1..];
      assert multiset(s) == multiset(s[..i]) + multiset{x} + multiset(s[i + 1..]);
    } else {
      assert multiset(s)[x] == 0;
    }
  }

  /** Returning what was borrowed last undoes the borrowing when the id was not already held. */
  lemma {:induction false} RemoveFirstAfterAppend(s: seq<string>, x: string)
    requires x !in s
    ensures RemoveFirst(s + [x], x) == s
  {
    var t := s + [x];
    assert t[|s|] == x;
    var i := IndexOf(t, x);
    assert t[..i] == s;
  }

  /** `equals`: users are the same user exactly when their ids agree. */
  predicate SameUser(a: UserRecord, b: UserRecord)
  {
    a.userId == b.userId
  }

  /** A library user as the service holds it: the fields are updated in place. */
  class User {
    var userId: string
    var name: string
    var email: string
    var phone: string
    var registrationDate: int
    var userType: UserType
    var currentLoans: seq<string>

    /** The value this object currently holds. */
    function Snapshot(): (r: UserRecord)
      reads this
      ensures r.userId == userId && r.currentLoans == currentLoans && r.userType == userType
    {
      UserRecord(userId, name, email, phone, registrationDate, userType, currentLoans)
    }

    /** A new user holds no loans and is registered on `today`. */
    constructor (userId: string, name: string, email: string, phone: string, userType: UserType, today: int)
      ensures Snapshot() == UserRecord(userId, name, email, phone, today, userType, [])
    {
      this.userId := userId;
      this.name := name;
      this.email := email;
      this.phone := phone;
      this.registrationDate := today;
      this.userType := userType;
      this.currentLoans := [];
    }

    /** An object holding exactly the given value, as the flat-file loader builds one. */
    constructor FromRecord(r: UserRecord)
      ensures Snapshot() == r
    {
      userId := r.userId;
      name := r.name;
      email := r.email;
      phone := r.phone;
      registrationDate := r.registrationDate;
      userType := r.userType;
      currentLoans := r.currentLoans;
    }

    /** `canBorrow`. */
    predicate CanBorrow()
      reads this
    {
      UnderQuota(Snapshot())
    }

    /** `addLoan`: the id goes to the end of the list, even when it is already there. */
    method AddLoan(documentId: string)
      modifies this
      ensures Snapshot() == old(Snapshot()).(currentLoans := old(currentLoans) + [documentId])
    {
      currentLoans := currentLoans + [documentId];
    }

    /** `removeLoan`: the first occurrence of the id goes; an id not held changes nothing. */
    method RemoveLoan(documentId: string)
      modifies this
      ensures Snapshot() == old(Snapshot()).(currentLoans := RemoveFirst(old(currentLoans), documentId))
    {
      currentLoans := RemoveFirst(currentLoans, documentId);
    }

    /** `getCurrentLoans`: a copy, so the caller cannot reach the object's list. */
    method GetCurrentLoans() returns (loans: seq<string>)
      ensures loans == currentLoans
    {
      loans := currentLoans;
    }

    /** `setCurrentLoans`: the object keeps a copy of the given list. */
    method SetCurrentLoans(loans: seq<string>)
      modifies this
      ensures Snapshot() == old(Snapshot()).(currentLoans := loans)
    {
      currentLoans := loans;
    }
  }
}
