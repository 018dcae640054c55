/**
 * Loans: who borrowed which document, when it is due back, and whether it has come back.
 * `Loan` is the mutable object the service keeps in its registry; `LoanRecord` is its value.
 * Dates are day numbers and `today` stands for the system clock.
 */
module Loans {
  import opened Wrappers

  datatype LoanStatus = ACTIVE | RETURNED | OVERDUE

  datatype LoanRecord = LoanRecord(
    loanId: string,
    userId: string,
    documentId: string,
    loanDate: int,
    dueDate: int,
    returnDate: Option<int>,
    status: LoanStatus)

  /** The value of `new Loan(...)`: active and not yet returned. */
  function NewLoan(loanId: string, userId: string, documentId: string, loanDate: int, dueDate: int): (l: LoanRecord)
    ensures l.status == ACTIVE && l.returnDate.None?
    ensures l.loanId == loanId && l.userId == userId && l.documentId == documentId
    ensures l.loanDate == loanDate && l.dueDate == dueDate
  {
    LoanRecord(loanId, userId, documentId, loanDate, dueDate, None, ACTIVE)
  }

  /** `isOverdue`: a returned loan never is; any other one is once `today` is past the due date. */
  predicate IsOverdue(l: LoanRecord, today: int)
  {
    l.status != RETURNED && today > l.dueDate
  }

  /** `returnDocument`, which has no guard of its own: the loan is marked returned on `today`. */
  function Returned(l: LoanRecord, today: int): (r: LoanRecord)
    ensures r.status == RETURNED && r.returnDate == Some(today)
    ensures r.(status := l.status, returnDate := l.returnDate) == l
  {
    l.(status := RETURNED, returnDate := Some(today))
  }

  /** `updateStatus`: an active loan that is overdue becomes OVERDUE; nothing else changes. */
  function UpdatedStatus(l: LoanRecord, today: int): (r: LoanRecord)
    ensures r.(status := l.status) == l
    ensures r.status == (if l.status == ACTIVE && IsOverdue(l, today) then OVERDUE else l.status)
  {
    if l.status == ACTIVE && IsOverdue(l, today) then l.(status := OVERDUE) else l
  }

  /** A loan is not overdue on its due date, only from the next day, and never once returned. */
  lemma {:induction false} OverdueBoundary(l: LoanRecord, today: int)
    ensures l.status != RETURNED ==> !IsOverdue(l, l.dueDate) && IsOverdue(l, l.dueDate + 1)
    ensures !IsOverdue(Returned(l, today), today)
  {
  }

  /** Updating the status twice is updating it once, and it never undoes or causes a return. */
  lemma {:induction false} UpdatedStatusProperties(l: LoanRecord, today: int)
    ensures UpdatedStatus(UpdatedStatus(l, today), today) == UpdatedStatus(l, today)
    ensures (UpdatedStatus(l, today).status == RETURNED) <==> (l.status == RETURNED)
    ensures IsOverdue(UpdatedStatus(l, today), today) <==> IsOverdue(l, today)
  {
  }

  /** `equals`: loans are the same loan exactly when their ids agree. */
  predicate SameLoan(a: LoanRecord, b: LoanRecord)
  {
    a.loanId == b.loanId
  }

  /** A loan as the service holds it: status and return date are updated in place. */
  class Loan {
    var loanId: string
    var userId: string
    var documentId: string
    var loanDate: int
    var dueDate: int
    var returnDate: Option<int>
    var status: LoanStatus

    function Snapshot(): (r: LoanRecord)
      reads this
      ensures r.loanId == loanId && r.userId == userId && r.documentId == documentId && r.status == status
    {
      LoanRecord(loanId, userId, documentId, loanDate, dueDate, returnDate, status)
    }

    constructor (loanId: string, userId: string, documentId: string, loanDate: int, dueDate: int)
      ensures Snapshot() == NewLoan(loanId, userId, documentId, loanDate, dueDate)
    {
      this.loanId := loanId;
      this.userId := userId;
      this.documentId := documentId;
      this.loanDate := loanDate;
      this.dueDate := dueDate;
      this.returnDate := None;
      this.status := ACTIVE;
    }

    /** An object holding exactly the given value, as the flat-file loader builds one. */
    constructor FromRecord(r: LoanRecord)
      ensures Snapshot() == r
    {
      loanId := r.loanId;
      userId := r.userId;
      documentId := r.documentId;
      loanDate := r.loanDate;
      dueDate := r.dueDate;
      returnDate := r.returnDate;
      status := r.status;
    }

    method ReturnDocument(today: int)
      modifies this
      ensures Snapshot() == Returned(old(Snapshot()), today)
    {
      returnDate := Some(today);
      status := RETURNED;
    }

    predicate IsOverdueOn(today: int)
      reads this
    {
      IsOverdue(Snapshot(), today)
    }

    method UpdateStatus(today: int)
      modifies this
      ensures Snapshot() == UpdatedStatus(old(Snapshot()), today)
    {
      if status == ACTIVE && IsOverdueOn(today) {
        status := OVERDUE;
      }
    }
  }
}
