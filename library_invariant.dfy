/**
 * What the lending engine keeps true between operations: document ids are unique, the
 * registries are keyed by the ids their entries carry, every open loan names a user and a
 * document that exist, a document is on loan at most once and is unavailable exactly while it
 * is, each user's held list mirrors that user's open loans and stays within quota, and the
 * counter is above every number an id carries. Each operation preserves it.
 */
module LibraryInvariant {
  import opened Wrappers
  import opened Text
  import opened Documents
  import opened Users
  import opened Loans
  import opened CreationParams
  import opened DocumentFactory
  import opened DataPersistence
  import opened LibraryState

  /** A loan not yet returned (ACTIVE or OVERDUE). */
  predicate Open(l: LoanRecord)
  {
    l.status != RETURNED
  }

  /** Some open loan names the document. */
  predicate OnLoan(loans: map<string, LoanRecord>, documentId: string)
  {
    exists k :: k in loans && Open(loans[k]) && loans[k].documentId == documentId
  }

  /** Some open loan of this user names the document. */
  predicate Holds(loans: map<string, LoanRecord>, userId: string, documentId: string)
  {
    exists k :: k in loans && Open(loans[k]) && loans[k].userId == userId && loans[k].documentId == documentId
  }

  predicate WellKeyed(s: State)
  {
    && (forall k :: k in s.users ==> s.users[k].userId == k)
    && (forall k :: k in s.loans ==> s.loans[k].loanId == k)
  }

  predicate OpenLoansResolve(s: State)
  {
    forall k :: k in s.loans && Open(s.loans[k]) ==>
      s.loans[k].userId in s.users && FirstWithId(s.docs, s.loans[k].documentId).Some?
  }

  predicate OneOpenLoanPerDocument(s: State)
  {
    forall k1, k2 ::
      (k1 in s.loans && k2 in s.loans && Open(s.loans[k1]) && Open(s.loans[k2])
       && s.loans[k1].documentId == s.loans[k2].documentId) ==> k1 == k2
  }

  predicate AvailabilityMatchesLoans(s: State)
  {
    forall i :: 0 <= i < |s.docs| ==> (s.docs[i].available <==> !OnLoan(s.loans, s.docs[i].id))
  }

  predicate HeldListsMatchLoans(s: State)
  {
    forall u :: u in s.users ==>
      && Distinct(s.users[u].currentLoans)
      && (forall d :: d in s.users[u].currentLoans ==> Holds(s.loans, u, d))
      && (forall k :: k in s.loans && Open(s.loans[k]) && s.loans[k].userId == u ==>
            s.loans[k].documentId in s.users[u].currentLoans)
  }

  predicate WithinQuota(s: State)
  {
    forall u :: u in s.users ==> |s.users[u].currentLoans| <= MaxLoans(s.users[u].userType)
  }

  predicate IdsFresh(s: State)
  {
    && INITIAL_COUNTER <= s.counter
    && forall k :: k in s.loans && LoanNumber(k).Some? ==> LoanNumber(k).value < s.counter
  }

  predicate Inv(s: State)
  {
    && UniqueIds(s.docs)
    && WellKeyed(s)
    && OpenLoansResolve(s)
    && OneOpenLoanPerDocument(s)
    && AvailabilityMatchesLoans(s)
    && HeldListsMatchLoans(s)
    && WithinQuota(s)
    && IdsFresh(s)
  }

  /** A new service, before anything is loaded, satisfies the invariant. */
  lemma {:induction false} EmptyInv()
    ensures Inv(EmptyState())
  {
  }

  // ---------------------------------------------------------------- loan-map updates

  /** A new open loan puts its document on loan and nothing else. */
  lemma {:induction false} OnLoanAfterPut(loans: map<string, LoanRecord>, k: string, l: LoanRecord, d: string)
    requires k !in loans
    ensures OnLoan(loans[k := l], d) <==> OnLoan(loans, d) || (Open(l) && l.documentId == d)
    ensures Holds(loans[k := l], l.userId, d) <==> Holds(loans, l.userId, d) || (Open(l) && l.documentId == d)
  {
    var m := loans[k := l];
    if OnLoan(loans, d) {
      var j :| j in loans && Open(loans[j]) && loans[j].documentId == d;
      assert j in m && m[j] == loans[j];
    }
    if Holds(loans, l.userId, d) {
      var j :| j in loans && Open(loans[j]) && loans[j].userId == l.userId && loans[j].documentId == d;
      assert j in m && m[j] == loans[j];
    }
    if Open(l) && l.documentId == d {
      assert k in m && m[k] == l;
    }
    if OnLoan(m, d) {
      var j :| j in m && Open(m[j]) && m[j].documentId == d;
      if j != k {
        assert j in loans && loans[j] == m[j];
      }
    }
    if Holds(m, l.userId, d) {
      var j :| j in m && Open(m[j]) && m[j].userId == l.userId && m[j].documentId == d;
      if j != k {
        assert j in loans && loans[j] == m[j];
      }
    }
  }

  /** Someone else's holdings are not touched by a new loan. */
  lemma {:induction false} HoldsOthersAfterPut(loans: map<string, LoanRecord>, k: string, l: LoanRecord, u: string, d: string)
    requires k !in loans && u != l.userId
    ensures Holds(loans[k := l], u, d) <==> Holds(loans, u, d)
  {
    var m := loans[k := l];
    if Holds(loans, u, d) {
      var j :| j in loans && Open(loans[j]) && loans[j].userId == u && loans[j].documentId == d;
      assert j in m && m[j] == loans[j];
    }
    if Holds(m, u, d) {
      var j :| j in m && Open(m[j]) && m[j].userId == u && m[j].documentId == d;
      assert j != k;
      assert j in loans && loans[j] == m[j];
    }
  }

  /** Closing the one open loan of a document takes that document, and only it, off loan. */
  lemma {:induction false} OnLoanAfterClose(loans: map<string, LoanRecord>, k: string, closed: LoanRecord, u: string, d: string)
    requires k in loans && !Open(closed)
    requires forall j :: j in loans && j != k && Open(loans[j]) ==> loans[j].documentId != loans[k].documentId
    ensures OnLoan(loans[k := closed], d) <==> OnLoan(loans, d) && d != loans[k].documentId
    ensures Holds(loans[k := closed], u, d) <==> Holds(loans, u, d) && d != loans[k].documentId
  {
    var m := loans[k := closed];
    if OnLoan(loans, d) && d != loans[k].documentId {
      var j :| j in loans && Open(loans[j]) && loans[j].documentId == d;
      assert j in m && m[j] == loans[j];
    }
    if Holds(loans, u, d) && d != loans[k].documentId {
      var j :| j in loans && Open(loans[j]) && loans[j].userId == u && loans[j].documentId == d;
      assert j in m && m[j] == loans[j];
    }
    if OnLoan(m, d) {
      var j :| j in m && Open(m[j]) && m[j].documentId == d;
      assert j != k && loans[j] == m[j];
    }
    if Holds(m, u, d) {
      var j :| j in m && Open(m[j]) && m[j].userId == u && m[j].documentId == d;
      assert j != k && loans[j] == m[j];
    }
  }

  // ---------------------------------------------------------------- documents

  /** A lookup that succeeds in a list still succeeds once more documents follow it. */
  lemma {:induction false} FoundInExtension(a: seq<Document>, b: seq<Document>, id: string)
    requires FirstWithId(a, id).Some?
    ensures FirstWithId(a + b, id).Some?
  {
    var i := FirstWithId(a, id).value;
    assert (a + b)[i].id == id;
  }

  /** No open loan names a document id the list does not hold. */
  lemma {:induction false} UnlistedNotOnLoan(s: State, id: string)
    requires OpenLoansResolve(s) && FirstWithId(s.docs, id).None?
    ensures !OnLoan(s.loans, id)
  {
    forall k | k in s.loans && Open(s.loans[k])
      ensures s.loans[k].documentId != id
    {
      assert FirstWithId(s.docs, s.loans[k].documentId).Some?;
    }
  }

  /** `addDocument` keeps the invariant: the new document is available and named by no loan. */
  lemma {:induction false} AddDocumentPreserves(s: State, t: Option<DocumentType>, params: Option<Params>)
    requires Inv(s)
    ensures Inv(AddDocument(s, t, params).state)
  {
    if AddDocument(s, t, params).result.Success? {
      AppendPreserves(s, CreateDocument(t, params).value);
    }
  }

  /** Appending an available document with a new id keeps the invariant. */
  lemma {:induction false} AppendPreserves(s: State, d: Document)
    requires Inv(s) && d.available && FirstWithId(s.docs, d.id).None?
    ensures Inv(s.(docs := s.docs + [d]))
  {
    var docs := s.docs + [d];
    var s' := s.(docs := docs);
    assert forall j :: 0 <= j < |s.docs| ==> docs[j] == s.docs[j];
    assert docs[|s.docs|] == d;
    forall k | k in s.loans && Open(s.loans[k])
      ensures FirstWithId(docs, s.loans[k].documentId).Some?
    {
      FoundInExtension(s.docs, [d], s.loans[k].documentId);
    }
    assert OpenLoansResolve(s');
    UnlistedNotOnLoan(s, d.id);
    assert AvailabilityMatchesLoans(s');
    assert UniqueIds(docs);
  }

  /** `removeDocument` keeps the invariant: only an available document, named by no loan, goes. */
  lemma {:induction false} RemoveDocumentPreserves(s: State, id: string)
    requires Inv(s)
    ensures Inv(RemoveDocument(s, id).state)
  {
    if RemoveDocument(s, id).result.Success? {
      DropPreserves(s, FirstWithId(s.docs, id).value);
    }
  }

  /** Dropping an available document from the list keeps the invariant. */
  lemma {:induction false} DropPreserves(s: State, i: nat)
    requires Inv(s) && i < |s.docs| && s.docs[i].available
    ensures Inv(s.(docs := s.docs[..i] + s.docs[i + 1..]))
  {
    var docs := s.docs[..i] + s.docs[i + 1..];
    var s' := s.(docs := docs);
    assert forall j :: 0 <= j < i ==> docs[j] == s.docs[j];
    assert forall j :: i <= j < |docs| ==> docs[j] == s.docs[j + 1];
    assert UniqueIds(docs);
    assert AvailabilityMatchesLoans(s');
    forall k | k in s.loans && Open(s.loans[k])
      ensures FirstWithId(docs, s.loans[k].documentId).Some?
    {
      var x := s.loans[k].documentId;
      var m := FirstWithId(s.docs, x).value;
      assert OnLoan(s.loans, x);
      assert m != i;
      if m < i {
        assert docs[m].id == x;
      } else {
        assert docs[m - 1].id == x;
      }
    }
    assert OpenLoansResolve(s');
  }

  // ---------------------------------------------------------------- users

  /** `registerUser` keeps the invariant for a user who holds nothing yet, as a new `User` does. */
  lemma {:induction false} RegisterUserPreserves(s: State, u: UserRecord)
    requires Inv(s) && u.currentLoans == []
    ensures Inv(RegisterUser(s, u).state)
  {
    var o := RegisterUser(s, u);
    if o.result.Success? {
      forall k | k in s.loans && Open(s.loans[k])
        ensures s.loans[k].userId != u.userId
      {
        assert s.loans[k].userId in s.users;
      }
    }
  }

  // ---------------------------------------------------------------- loans

  /** Lists that agree on every id agree on every lookup. */
  lemma {:induction false} SameIdsSameLookup(a: seq<Document>, b: seq<Document>, id: string)
    requires |a| == |b| && forall j :: 0 <= j < |a| ==> a[j].id == b[j].id
    ensures FirstWithId(a, id) == FirstWithId(b, id)
  {
    if a != [] {
      SameIdsSameLookup(a[1..], b[1..], id);
    }
  }

  /** The id a loan gets from the counter is not yet in the registry. */
  lemma {:induction false} NextIdUnused(s: State)
    requires IdsFresh(s)
    ensures LoanId(s.counter) !in s.loans
  {
    LoanNumberOfLoanId(s.counter);
  }

  /** A document that is available is named by no open loan, and so held by nobody. */
  lemma {:induction false} AvailableNotHeld(s: State, i: nat, u: string)
    requires AvailabilityMatchesLoans(s) && HeldListsMatchLoans(s) && i < |s.docs| && s.docs[i].available
    requires u in s.users
    ensures s.docs[i].id !in s.users[u].currentLoans
  {
    forall d | d in s.users[u].currentLoans
      ensures d != s.docs[i].id
    {
      var k :| k in s.loans && Open(s.loans[k]) && s.loans[k].userId == u && s.loans[k].documentId == d;
      assert OnLoan(s.loans, d);
    }
  }

  /**
   * `createLoan` keeps the invariant, provided the counter has room for one more id (past
   * `Integer.MAX_VALUE` the increment wraps and ids could repeat).
   */
  lemma {:induction false} CreateLoanPreserves(s: State, userId: string, documentId: string, today: int)
    requires Inv(s) && s.counter < IntMax
    ensures Inv(CreateLoan(s, userId, documentId, today).state)
  {
    if CreateLoan(s, userId, documentId, today).result.Success? {
      var i := FirstWithId(s.docs, documentId).value;
      NextIdUnused(s);
      AvailableNotHeld(s, i, userId);
      UnlistedOpen(s, i);
      var l := NewLoan(LoanId(s.counter), userId, documentId, today, today + LOAN_PERIOD);
      LendKeepsDocuments(s, i, userId, l);
      LendKeepsAvailability(s, i, userId, l);
      LendKeepsHoldings(s, i, userId, l);
      LoanNumberOfLoanId(s.counter);
    }
  }

  /** No open loan names an available document. */
  lemma {:induction false} UnlistedOpen(s: State, i: nat)
    requires AvailabilityMatchesLoans(s) && i < |s.docs| && s.docs[i].available
    ensures forall k :: k in s.loans && Open(s.loans[k]) ==> s.loans[k].documentId != s.docs[i].id
  {
  }

  /** Lending keeps ids unique, open loans resolvable and at most one open loan per document. */
  lemma {:induction false} LendKeepsDocuments(s: State, i: nat, userId: string, l: LoanRecord)
    requires UniqueIds(s.docs) && OpenLoansResolve(s) && OneOpenLoanPerDocument(s) && AvailabilityMatchesLoans(s)
    requires i < |s.docs| && userId in s.users && l.loanId !in s.loans
    requires s.docs[i].available && Open(l) && l.userId == userId && l.documentId == s.docs[i].id
    ensures var s' := Lent(s, userId, i, l);
      UniqueIds(s'.docs) && OpenLoansResolve(s') && OneOpenLoanPerDocument(s')
  {
    var s' := Lent(s, userId, i, l);
    FlagKeepsLookups(s.docs, i, false);
    assert FirstWithId(s.docs, l.documentId).Some? by {
      assert s.docs[i].id == l.documentId;
    }
    UnlistedOpen(s, i);
    assert forall k :: k in s'.loans && k != l.loanId ==> k in s.loans && s'.loans[k] == s.loans[k];
  }

  /** Setting one document's flag changes no id: uniqueness and every lookup stay as they were. */
  lemma {:induction false} FlagKeepsLookups(docs: seq<Document>, i: nat, b: bool)
    requires i < |docs|
    ensures UniqueIds(docs) ==> UniqueIds(docs[i := WithAvailable(docs[i], b)])
    ensures forall x :: FirstWithId(docs[i := WithAvailable(docs[i], b)], x) == FirstWithId(docs, x)
  {
    var d1 := docs[i := WithAvailable(docs[i], b)];
    assert forall j :: 0 <= j < |docs| ==> d1[j].id == docs[j].id;
    forall x {
      SameIdsSameLookup(docs, d1, x);
    }
  }

  /** Lending makes the one document unavailable, and it is the one now on loan. */
  lemma {:induction false} LendKeepsAvailability(s: State, i: nat, userId: string, l: LoanRecord)
    requires Inv(s) && i < |s.docs| && userId in s.users && l.loanId !in s.loans
    requires s.docs[i].available && Open(l) && l.userId == userId && l.documentId == s.docs[i].id
    ensures AvailabilityMatchesLoans(Lent(s, userId, i, l))
  {
    var s' := Lent(s, userId, i, l);
    forall j | 0 <= j < |s.docs|
      ensures s'.docs[j].available <==> !OnLoan(s'.loans, s'.docs[j].id)
    {
      OnLoanAfterPut(s.loans, l.loanId, l, s.docs[j].id);
      assert s'.docs[j].id == s.docs[j].id;
      if j != i {
        assert s.docs[j].id != l.documentId;
      }
    }
  }

  /** Lending puts the document at the end of the borrower's list, and touches no other list. */
  lemma {:induction false} LendKeepsHoldings(s: State, i: nat, userId: string, l: LoanRecord)
    requires Inv(s) && i < |s.docs| && userId in s.users && l.loanId !in s.loans
    requires s.docs[i].available && Open(l) && l.userId == userId && l.documentId == s.docs[i].id
    requires UnderQuota(s.users[userId]) && s.docs[i].id !in s.users[userId].currentLoans
    ensures var s' := Lent(s, userId, i, l);
      WellKeyed(s') && HeldListsMatchLoans(s') && WithinQuota(s')
  {
    var s' := Lent(s, userId, i, l);
    forall u | u in s'.users
      ensures Distinct(s'.users[u].currentLoans)
      ensures forall d :: d in s'.users[u].currentLoans ==> Holds(s'.loans, u, d)
      ensures forall k :: k in s'.loans && Open(s'.loans[k]) && s'.loans[k].userId == u ==>
                s'.loans[k].documentId in s'.users[u].currentLoans
    {
      if u == userId {
        forall d ensures Holds(s'.loans, u, d) <==> Holds(s.loans, u, d) || d == l.documentId {
          OnLoanAfterPut(s.loans, l.loanId, l, d);
        }
      } else {
        forall d ensures Holds(s'.loans, u, d) <==> Holds(s.loans, u, d) {
          HoldsOthersAfterPut(s.loans, l.loanId, l, u, d);
        }
      }
    }
  }

  /** On a list without repeats, `remove` takes out the one copy and repeats nothing. */
  lemma {:induction false} RemoveFirstDistinct(s: seq<string>, x: string)
    requires Distinct(s)
    ensures Distinct(RemoveFirst(s, x))
    ensures forall y :: y in RemoveFirst(s, x) <==> y in s && y != x
  {
    if x in s {
      var i := IndexOf(s, x);
      var r := s[..i] + s[i + 1..];
      assert RemoveFirst(s, x) == r;
      assert forall j :: 0 <= j < i ==> r[j] == s[j];
      assert forall j :: i <= j < |r| ==> r[j] == s[j + 1];
      assert Distinct(r);
      forall y | y in s && y != x
        ensures y in r
      {
        var j :| 0 <= j < |s| && s[j] == y;
        if j < i { assert r[j] == y; } else { assert r[j - 1] == y; }
      }
    }
  }

  /** Under the invariant an open loan can always be returned: its user and document both exist. */
  lemma {:induction false} ReturnSucceeds(s: State, loanId: string, today: int)
    requires Inv(s) && loanId in s.loans && Open(s.loans[loanId])
    ensures ReturnDocument(s, loanId, today).result.Success?
  {
  }

  /** `returnDocument` keeps the invariant. */
  lemma {:induction false} ReturnDocumentPreserves(s: State, loanId: string, today: int)
    requires Inv(s)
    ensures Inv(ReturnDocument(s, loanId, today).state)
  {
    if loanId in s.loans && Open(s.loans[loanId]) {
      var i := FirstWithId(s.docs, s.loans[loanId].documentId).value;
      GiveBackKeepsDocuments(s, loanId, i, today);
      GiveBackKeepsAvailability(s, loanId, i, today);
      GiveBackKeepsHoldings(s, loanId, i, today);
      assert ReturnDocument(s, loanId, today).state == GivenBack(Closed(s, loanId, today), s.loans[loanId].userId, i, s.loans[loanId].documentId);
    }
  }

  lemma {:induction false} GiveBackKeepsDocuments(s: State, k: string, i: nat, today: int)
    requires UniqueIds(s.docs) && WellKeyed(s) && OpenLoansResolve(s) && OneOpenLoanPerDocument(s) && IdsFresh(s)
    requires k in s.loans && Open(s.loans[k])
    requires FirstWithId(s.docs, s.loans[k].documentId) == Some(i)
    ensures i < |s.docs| && s.loans[k].userId in s.users
    ensures var s' := GivenBack(Closed(s, k, today), s.loans[k].userId, i, s.loans[k].documentId);
      UniqueIds(s'.docs) && WellKeyed(s') && OpenLoansResolve(s') && OneOpenLoanPerDocument(s') && IdsFresh(s')
  {
    var s' := GivenBack(Closed(s, k, today), s.loans[k].userId, i, s.loans[k].documentId);
    FlagKeepsLookups(s.docs, i, true);
    assert s'.loans.Keys == s.loans.Keys;
    forall j | j in s'.loans && Open(s'.loans[j])
      ensures j != k && s'.loans[j] == s.loans[j]
    {
    }
  }

  lemma {:induction false} GiveBackKeepsAvailability(s: State, k: string, i: nat, today: int)
    requires Inv(s) && k in s.loans && Open(s.loans[k])
    requires FirstWithId(s.docs, s.loans[k].documentId) == Some(i)
    ensures i < |s.docs| && s.loans[k].userId in s.users
    ensures AvailabilityMatchesLoans(GivenBack(Closed(s, k, today), s.loans[k].userId, i, s.loans[k].documentId))
  {
    var s' := GivenBack(Closed(s, k, today), s.loans[k].userId, i, s.loans[k].documentId);
    var d0 := s.loans[k].documentId;
    forall j | 0 <= j < |s.docs|
      ensures s'.docs[j].available <==> !OnLoan(s'.loans, s'.docs[j].id)
    {
      OnLoanAfterClose(s.loans, k, Returned(s.loans[k], today), "", s.docs[j].id);
      assert s'.docs[j].id == s.docs[j].id;
      if j != i {
        assert s.docs[j].id != d0;
      }
    }
  }

  lemma {:induction false} GiveBackKeepsHoldings(s: State, k: string, i: nat, today: int)
    requires Inv(s) && k in s.loans && Open(s.loans[k])
    requires FirstWithId(s.docs, s.loans[k].documentId) == Some(i)
    ensures i < |s.docs| && s.loans[k].userId in s.users
    ensures var s' := GivenBack(Closed(s, k, today), s.loans[k].userId, i, s.loans[k].documentId);
      HeldListsMatchLoans(s') && WithinQuota(s')
  {
    var s' := GivenBack(Closed(s, k, today), s.loans[k].userId, i, s.loans[k].documentId);
    var l := s.loans[k];
    var owner := l.userId;
    RemoveFirstDistinct(s.users[owner].currentLoans, l.documentId);
    RemoveFirstCount(s.users[owner].currentLoans, l.documentId);
    forall u | u in s'.users
      ensures Distinct(s'.users[u].currentLoans)
      ensures forall d :: d in s'.users[u].currentLoans ==> Holds(s'.loans, u, d)
      ensures forall j :: j in s'.loans && Open(s'.loans[j]) && s'.loans[j].userId == u ==>
                s'.loans[j].documentId in s'.users[u].currentLoans
    {
      forall d ensures Holds(s'.loans, u, d) <==> Holds(s.loans, u, d) && d != l.documentId {
        OnLoanAfterClose(s.loans, k, Returned(l, today), u, d);
      }
      if u != owner {
        forall d | d in s.users[u].currentLoans
          ensures d != l.documentId
        {
          var j :| j in s.loans && Open(s.loans[j]) && s.loans[j].userId == u && s.loans[j].documentId == d;
          assert j != k;
        }
      }
    }
  }

  /**
   * Returning a loan just made undoes it: the documents and the users are as before the
   * loan, and the registry keeps the loan, now returned.
   */
  lemma {:induction false} LendThenReturn(s: State, userId: string, documentId: string, today: int, later: int)
    requires AvailabilityMatchesLoans(s) && HeldListsMatchLoans(s)
    requires CreateLoan(s, userId, documentId, today).result.Success?
    ensures var l := CreateLoan(s, userId, documentId, today).result.value;
      var r := ReturnDocument(CreateLoan(s, userId, documentId, today).state, l.loanId, later);
      && r.result.Success?
      && r.state.docs == s.docs && r.state.users == s.users
      && r.state.loans == s.loans[l.loanId := Returned(l, later)]
  {
    var o := CreateLoan(s, userId, documentId, today);
    var l := o.result.value;
    var i := FirstWithId(s.docs, documentId).value;
    AvailableNotHeld(s, i, userId);
    assert o.state == Lent(s, userId, i, l);
    ReturnAfterLend(s, i, userId, l, later);
  }

  lemma {:induction false} ReturnAfterLend(s: State, i: nat, userId: string, l: LoanRecord, later: int)
    requires i < |s.docs| && userId in s.users && s.docs[i].available
    requires FirstWithId(s.docs, s.docs[i].id) == Some(i) && s.docs[i].id !in s.users[userId].currentLoans
    requires Open(l) && l.userId == userId && l.documentId == s.docs[i].id
    ensures var r := ReturnDocument(Lent(s, userId, i, l), l.loanId, later);
      && r.result.Success?
      && r.state == s.(loans := s.loans[l.loanId := Returned(l, later)], counter := Inc32(s.counter))
  {
    var s1 := Lent(s, userId, i, l);
    FlagKeepsLookups(s.docs, i, false);
    assert s1.loans[l.loanId] == l;
    ReturnIsGivenBack(s1, l.loanId, i, later);
    GivenBackAfterLent(s, i, userId, l, later);
  }

  lemma {:induction false} GivenBackAfterLent(s: State, i: nat, userId: string, l: LoanRecord, later: int)
    requires i < |s.docs| && userId in s.users && s.docs[i].available
    requires s.docs[i].id !in s.users[userId].currentLoans
    requires l.userId == userId && l.documentId == s.docs[i].id
    ensures GivenBack(Closed(Lent(s, userId, i, l), l.loanId, later), userId, i, l.documentId)
            == s.(loans := s.loans[l.loanId := Returned(l, later)], counter := Inc32(s.counter))
  {
    var s1 := Lent(s, userId, i, l);
    FlagBack(s.docs, i);
    HeldBack(s.users, userId, l.documentId);
    assert s1.loans[l.loanId] == l;
    assert s1.loans[l.loanId := Returned(l, later)] == s.loans[l.loanId := Returned(l, later)];
  }

  /** Clearing and then setting an available document's flag restores the list. */
  lemma {:induction false} FlagBack(docs: seq<Document>, i: nat)
    requires i < |docs| && docs[i].available
    ensures var d1 := docs[i := WithAvailable(docs[i], false)];
      d1[i := WithAvailable(d1[i], true)] == docs
  {
    var d1 := docs[i := WithAvailable(docs[i], false)];
    assert WithAvailable(d1[i], true) == docs[i];
  }

  /** Appending a document id the user does not hold and removing it restores the registry. */
  lemma {:induction false} HeldBack(users: map<string, UserRecord>, userId: string, documentId: string)
    requires userId in users && documentId !in users[userId].currentLoans
    ensures var u := users[userId];
      var u1 := users[userId := u.(currentLoans := u.currentLoans + [documentId])];
      u1[userId := u1[userId].(currentLoans := RemoveFirst(u1[userId].currentLoans, documentId))] == users
  {
    RemoveFirstAfterAppend(users[userId].currentLoans, documentId);
  }

  /** A loan whose user and document are both found is returned as `GivenBack` says. */
  lemma {:induction false} ReturnIsGivenBack(s: State, k: string, i: nat, later: int)
    requires k in s.loans && Open(s.loans[k]) && s.loans[k].userId in s.users
    requires FirstWithId(s.docs, s.loans[k].documentId) == Some(i)
    ensures i < |s.docs|
    ensures ReturnDocument(s, k, later) == Outcome(GivenBack(Closed(s, k, later), s.loans[k].userId, i, s.loans[k].documentId), Success(()))
  {
  }

  /**
   * Saving a state that keeps the invariant and loading it into a new service gives the same
   * state, except that the counter is rebuilt from the ids: never above the old one and
   * still above every id's number, so the invariant holds after the reload. This needs every
   * field storable and every loan id numbered, as the ids the service makes are.
   */
  lemma {:induction false} ReloadKeepsInv(s: State, files: map<string, seq<string>>)
    requires Inv(s) && SavedAs(s, files) && Storable(s)
    requires forall k :: k in s.loans ==> LoanNumber(k).Some?
    ensures var r := LoadState(files[DOCUMENTS_FILE], files[USERS_FILE], files[LOANS_FILE]);
      && r == s.(counter := r.counter)
      && r.counter <= s.counter
      && Inv(r)
  {
    SaveThenLoad(s, files);
    var recs := Loaded(files[LOANS_FILE], DeserializeLoan);
    var load := LoadLoanRecords(recs);
    forall i | 0 <= i < |recs|
      ensures LoanNumber(recs[i].loanId) != Some(IntMax as int32)
    {
      assert recs[i].loanId in s.loans;
    }
    LoadedCounterFresh(recs);
    LoadedCounterTight(recs);
    assert load.loans == s.loans;
    CounterOnlyChange(s, load.counter);
  }

  /** The counter enters the invariant only through the freshness of ids. */
  lemma {:induction false} CounterOnlyChange(s: State, c: int32)
    requires Inv(s) && INITIAL_COUNTER <= c
    requires forall k :: k in s.loans && LoanNumber(k).Some? ==> LoanNumber(k).value < c
    ensures Inv(s.(counter := c))
  {
  }
}
