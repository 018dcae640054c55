/**
 * The lending engine as values: what the service holds (the document list, the user and
 * loan registries keyed by id, and the loan-id counter), its operations as transitions from
 * one state to the next with the outcome each reports, and the read-only queries. Every
 * operation checks in the order the service does, and a failed check leaves the state as it
 * was, with the one exception the service really has (a loan whose document has vanished is
 * marked returned before the failure).
 */
module LibraryState {
  import opened Wrappers
  import opened Text
  import opened Documents
  import opened Users
  import opened Loans
  import opened CreationParams
  import opened DocumentFactory
  import opened DataPersistence
  import opened DocumentCollections

  /** Days between a loan and its due date. */
  const LOAN_PERIOD: int := 14

  /** The counter a fresh service starts from, before anything is loaded. */
  const INITIAL_COUNTER: int32 := 1

  datatype State = State(
    docs: seq<Document>,
    users: map<string, UserRecord>,
    loans: map<string, LoanRecord>,
    counter: int32)

  /** A service with nothing in it. */
  function EmptyState(): (s: State)
    ensures s.docs == [] && s.users == map[] && s.loans == map[] && s.counter == INITIAL_COUNTER
  {
    State([], map[], map[], INITIAL_COUNTER)
  }

  /** The exceptions the service's operations end in. */
  datatype LibraryError =
    | InvalidDocument(cause: FactoryError)
    | SystemError
    | DuplicateDocument(documentId: string)
    | DocumentNotFound(documentId: string)
    | DocumentOnLoan
    | DuplicateUser(userId: string)
    | UserNotFound(userId: string)
    | LoanLimitReached
    | DocumentUnavailable
    | LoanNotFound(loanId: string)
    | AlreadyReturned
    | ReturnFailed

  /** The message each exception carries. */
  function ErrorMessage(e: LibraryError): string
  {
    match e
    case InvalidDocument(cause) => if IsInvalidDocument(cause) then DocumentFactory.Message(cause) else ""
    case SystemError => "Operation failed due to system error"
    case DuplicateDocument(id) => "Document with ID " + id + " already exists"
    case DocumentNotFound(id) => "Document not found: " + id
    case DocumentOnLoan => "Cannot remove document that is currently on loan"
    case DuplicateUser(id) => "User with ID " + id + " already exists"
    case UserNotFound(id) => "User not found: " + id
    case LoanLimitReached => "User has reached maximum loan limit"
    case DocumentUnavailable => "Document is not available for loan"
    case LoanNotFound(id) => "Loan not found: " + id
    case AlreadyReturned => "Document already returned"
    case ReturnFailed => "Failed to return document"
  }

  /** The error code: factory and lookup failures have their own, the rest the generic one. */
  function ErrorCode(e: LibraryError): string
  {
    match e
    case InvalidDocument(_) => "INVALID_DOC"
    case DocumentNotFound(_) => "DOC_NOT_FOUND"
    case _ => "LIB_ERROR"
  }

  /**
   * A factory refusal and a missing document carry their own codes and every other failure
   * the generic one; the not-found message names the id.
   */
  lemma {:induction false} ErrorCodes(e: LibraryError)
    ensures ErrorCode(e) == "INVALID_DOC" <==> e.InvalidDocument?
    ensures ErrorCode(e) == "DOC_NOT_FOUND" <==> e.DocumentNotFound?
    ensures !e.InvalidDocument? && !e.DocumentNotFound? ==> ErrorCode(e) == "LIB_ERROR"
    ensures e.DocumentNotFound? ==> ErrorMessage(e) == "Document not found: " + e.documentId
  {
  }

  /** What an operation leaves behind and what it reports. */
  datatype Outcome<T> = Outcome(state: State, result: Result<T, LibraryError>)

  // ---------------------------------------------------------------- loan ids

  /** `"L" + String.format("%04d", n)`. */
  function LoanId(n: int32): string
  {
    "L" + Pad4(n)
  }

  /**
   * The number the reload reads out of a loan id: `Integer.parseInt(id.substring(1))`, which
   * throws for the empty id and for anything that is not a decimal `int` after the first
   * character.
   */
  function LoanNumber(id: string): Option<int32>
  {
    if id == [] then None else ParseInt(Some(id[1..]))
  }

  /** Reading the number back out of a generated id gives the counter it was made from. */
  lemma {:induction false} LoanNumberOfLoanId(n: int32)
    ensures LoanNumber(LoanId(n)) == Some(n)
  {
    assert LoanId(n)[1..] == Pad4(n);
    Pad4Value(n);
  }

  /** Different counters give different ids. */
  lemma {:induction false} LoanIdInjective(m: int32, n: int32)
    ensures LoanId(m) == LoanId(n) ==> m == n
  {
    LoanNumberOfLoanId(m);
    LoanNumberOfLoanId(n);
  }

  // ---------------------------------------------------------------- documents

  /**
   * `addDocument`: the factory builds the document (its checks come first), then an id
   * already in the list is refused; otherwise the document is appended. Factory refusals
   * pass through as they are; the `NullPointerException` of a null type is wrapped.
   */
  function AddDocument(s: State, t: Option<DocumentType>, params: Option<Params>): (o: Outcome<()>)
    ensures o.result.Failure? ==> o.state == s
    ensures o.result.Success? <==> CreateDocument(t, params).Success? && FirstWithId(s.docs, CreateDocument(t, params).value.id).None?
    ensures o.result.Success? ==> o.state == s.(docs := s.docs + [CreateDocument(t, params).value])
  {
    match CreateDocument(t, params)
    case Failure(e) => Outcome(s, Failure(if IsInvalidDocument(e) then InvalidDocument(e) else SystemError))
    case Success(d) =>
      if FirstWithId(s.docs, d.id).Some? then Outcome(s, Failure(DuplicateDocument(d.id)))
      else Outcome(WithDocument(s, d), Success(()))
  }

  /** `documents.add(document)`. */
  function WithDocument(s: State, d: Document): State
  {
    s.(docs := s.docs + [d])
  }

  /** The outcome of `addDocument` once the factory has built `d`. */
  lemma {:induction false} AddBuilt(s: State, t: Option<DocumentType>, params: Option<Params>, d: Document)
    requires CreateDocument(t, params) == Success(d)
    ensures AddDocument(s, t, params) ==
              if FirstWithId(s.docs, d.id).Some? then Outcome(s, Failure(DuplicateDocument(d.id)))
              else Outcome(WithDocument(s, d), Success(()))
  {
  }

  /**
   * `removeDocument`: an unknown id and a document on loan are refused; otherwise the
   * document found (the first with the id) is removed and nothing else changes.
   */
  function RemoveDocument(s: State, id: string): (o: Outcome<bool>)
    ensures o.result.Failure? ==> o.state == s
    ensures FirstWithId(s.docs, id).None? <==> o.result == Failure(DocumentNotFound(id))
    ensures o.result.Success? <==>
              FirstWithId(s.docs, id).Some? && s.docs[FirstWithId(s.docs, id).value].available
    ensures o.result.Success? ==>
              var i := FirstWithId(s.docs, id).value;
              o.result.value && o.state == s.(docs := s.docs[..i] + s.docs[i + 1..])
  {
    match FirstWithId(s.docs, id)
    case None => Outcome(s, Failure(DocumentNotFound(id)))
    case Some(i) =>
      if !s.docs[i].available then Outcome(s, Failure(DocumentOnLoan))
      else
        FirstIdIsFirstSame(s.docs, i);
        Outcome(WithoutDocument(s, s.docs[i]), Success(true))
  }

  /** `documents.remove(document)`: the first document equal to `d` leaves the collection. */
  function WithoutDocument(s: State, d: Document): State
  {
    s.(docs := RemoveFirstSame(s.docs, d))
  }

  /** Once the document is found and on the shelf, the removal takes it out. */
  lemma {:induction false} RemovePassed(s: State, id: string)
    requires FirstDocument(s.docs, id).Some? && FirstDocument(s.docs, id).value.available
    ensures RemoveDocument(s, id) == Outcome(WithoutDocument(s, FirstDocument(s.docs, id).value), Success(true))
  {
  }

  /** The first document with an id is also the first equal to it, which `remove` takes out. */
  lemma {:induction false} FirstIdIsFirstSame(docs: seq<Document>, i: nat)
    requires FirstWithId(docs, if i < |docs| then docs[i].id else "") == Some(i)
    ensures i < |docs| && RemoveFirstSame(docs, docs[i]) == docs[..i] + docs[i + 1..]
  {
    assert forall j :: 0 <= j < i ==> !SameDocument(docs[i], docs[j]);
    assert IndexOfSame(docs, docs[i]) == Some(i);
  }

  /** The documents whose flag is set, in list order. */
  function AvailableDocuments(docs: seq<Document>): (r: seq<Document>)
    ensures forall d :: d in r <==> d in docs && d.available
    ensures |r| <= |docs|
  {
    if docs == [] then []
    else (if docs[0].available then [docs[0]] else []) + AvailableDocuments(docs[1..])
  }

  /** Filtering a concatenation filters each part, in order. */
  lemma {:induction false} AvailableDocumentsAppend(a: seq<Document>, b: seq<Document>)
    ensures AvailableDocuments(a + b) == AvailableDocuments(a) + AvailableDocuments(b)
  {
    if a == [] {
      assert a + b == b;
    } else {
      assert (a + b)[0] == a[0];
      assert (a + b)[1..] == a[1..] + b;
      AvailableDocumentsAppend(a[1..], b);
    }
  }

  // ---------------------------------------------------------------- users

  /** `registerUser`: an id already registered is refused; otherwise the user is put under its id. */
  function RegisterUser(s: State, u: UserRecord): (o: Outcome<()>)
    ensures u.userId in s.users <==> o.result == Failure(DuplicateUser(u.userId))
    ensures o.result.Failure? ==> o.state == s
    ensures o.result.Success? ==> o.state == s.(users := s.users[u.userId := u])
    ensures o.result.Success? ==> |o.state.users| == |s.users| + 1
  {
    if u.userId in s.users then Outcome(s, Failure(DuplicateUser(u.userId)))
    else Outcome(WithUser(s, u), Success(()))
  }

  /** `users.put(user.getUserId(), user)`. */
  function WithUser(s: State, u: UserRecord): State
  {
    s.(users := s.users[u.userId := u])
  }

  /** `findUserById`. */
  function FindUser(s: State, userId: string): (r: Result<UserRecord, LibraryError>)
    ensures r.Success? <==> userId in s.users
    ensures r.Success? ==> r.value == s.users[userId]
    ensures r.Failure? ==> r.error == UserNotFound(userId)
  {
    if userId in s.users then Success(s.users[userId]) else Failure(UserNotFound(userId))
  }

  // ---------------------------------------------------------------- loans

  /**
   * `createLoan`: the user must exist and be under quota, then the document must exist and
   * be available. Only then is an id drawn from the counter (which a Java `int` increment
   * advances), the document marked unavailable, its id appended to the user's list and the
   * loan, due fourteen days after `today`, put under its id.
   */
  function CreateLoan(s: State, userId: string, documentId: string, today: int): (o: Outcome<LoanRecord>)
    ensures o.result.Failure? ==> o.state == s
    ensures userId !in s.users ==> o.result == Failure(UserNotFound(userId))
    ensures userId in s.users && !UnderQuota(s.users[userId]) ==> o.result == Failure(LoanLimitReached)
    ensures userId in s.users && UnderQuota(s.users[userId]) && FirstWithId(s.docs, documentId).None?
            ==> o.result == Failure(DocumentNotFound(documentId))
    ensures o.result.Success? <==>
              && userId in s.users && UnderQuota(s.users[userId])
              && FirstWithId(s.docs, documentId).Some? && s.docs[FirstWithId(s.docs, documentId).value].available
    ensures o.result.Success? ==>
              var i := FirstWithId(s.docs, documentId).value;
              var l := o.result.value;
              && l == NewLoan(LoanId(s.counter), userId, documentId, today, today + LOAN_PERIOD)
              && o.state.docs == s.docs[i := WithAvailable(s.docs[i], false)]
              && o.state.users == s.users[userId := s.users[userId].(currentLoans := s.users[userId].currentLoans + [documentId])]
              && o.state.loans == s.loans[l.loanId := l]
              && o.state.counter == Inc32(s.counter)
  {
    if userId !in s.users then Outcome(s, Failure(UserNotFound(userId)))
    else
      var user := s.users[userId];
      if !UnderQuota(user) then Outcome(s, Failure(LoanLimitReached))
      else match FirstWithId(s.docs, documentId)
        case None => Outcome(s, Failure(DocumentNotFound(documentId)))
        case Some(i) =>
          if !s.docs[i].available then Outcome(s, Failure(DocumentUnavailable))
          else
            var loan := NewLoan(LoanId(s.counter), userId, documentId, today, today + LOAN_PERIOD);
            Outcome(Lent(s, userId, i, loan), Success(loan))
  }

  /** Once every check has passed, the loan is granted with the next id. */
  lemma {:induction false} CreateLoanGranted(s: State, userId: string, documentId: string, today: int, i: nat)
    requires userId in s.users && UnderQuota(s.users[userId])
    requires FirstWithId(s.docs, documentId) == Some(i) && s.docs[i].available
    ensures var l := NewLoan(LoanId(s.counter), userId, documentId, today, today + LOAN_PERIOD);
      CreateLoan(s, userId, documentId, today) == Outcome(Lent(s, userId, i, l), Success(l))
  {
  }

  /**
   * The changes a granted loan makes, in the order `createLoan` makes them: the counter
   * advances, the document at `i` is marked unavailable, the document's id is appended to
   * the user's list and the loan is put under its id.
   */
  function Lent(s: State, userId: string, i: nat, loan: LoanRecord): State
    requires userId in s.users && i < |s.docs|
  {
    WithLoan(CheckedOut(Advanced(s), userId, i, loan.documentId), loan)
  }

  /** `loanIdCounter++`, wrapping as a Java `int` does. */
  function Advanced(s: State): State
  {
    s.(counter := Inc32(s.counter))
  }

  /** `document.setAvailable(false)` and `user.addLoan(documentId)`. */
  function CheckedOut(s: State, userId: string, i: nat, documentId: string): State
    requires userId in s.users && i < |s.docs|
  {
    var user := s.users[userId];
    s.(docs := s.docs[i := WithAvailable(s.docs[i], false)],
       users := s.users[userId := user.(currentLoans := user.currentLoans + [documentId])])
  }

  /** `loans.put(loan.getLoanId(), loan)`. */
  function WithLoan(s: State, loan: LoanRecord): State
  {
    s.(loans := s.loans[loan.loanId := loan])
  }

  /**
   * `returnDocument`: an unknown loan and a returned one are refused. The document and the
   * user are then looked up; a user that is gone fails before anything changes. The loan is
   * marked returned on `today`; if its document is gone the service fails at that point, with
   * the loan already returned. Otherwise the document becomes available again and one copy of
   * its id leaves the user's list.
   */
  function ReturnDocument(s: State, loanId: string, today: int): (o: Outcome<()>)
    ensures loanId !in s.loans ==> o == Outcome(s, Failure(LoanNotFound(loanId)))
    ensures loanId in s.loans && s.loans[loanId].status == RETURNED ==> o == Outcome(s, Failure(AlreadyReturned))
    ensures loanId in s.loans && s.loans[loanId].status != RETURNED && s.loans[loanId].userId !in s.users
            ==> o == Outcome(s, Failure(UserNotFound(s.loans[loanId].userId)))
    ensures o.result.Failure? && o.state != s ==>
              && o.result.error == ReturnFailed
              && o.state == s.(loans := s.loans[loanId := Returned(s.loans[loanId], today)])
    ensures o.result.Success? <==>
              && loanId in s.loans && s.loans[loanId].status != RETURNED
              && s.loans[loanId].userId in s.users
              && FirstWithId(s.docs, s.loans[loanId].documentId).Some?
    ensures o.result.Success? ==>
              var l := s.loans[loanId];
              var i := FirstWithId(s.docs, l.documentId).value;
              var u := s.users[l.userId];
              && o.state.docs == s.docs[i := WithAvailable(s.docs[i], true)]
              && o.state.users == s.users[l.userId := u.(currentLoans := RemoveFirst(u.currentLoans, l.documentId))]
              && o.state.loans == s.loans[loanId := Returned(l, today)]
              && o.state.counter == s.counter
  {
    if loanId !in s.loans then Outcome(s, Failure(LoanNotFound(loanId)))
    else
      var loan := s.loans[loanId];
      if loan.status == RETURNED then Outcome(s, Failure(AlreadyReturned))
      else if loan.userId !in s.users then Outcome(s, Failure(UserNotFound(loan.userId)))
      else
        var closed := Closed(s, loanId, today);
        match FirstWithId(s.docs, loan.documentId)
        case None => Outcome(closed, Failure(ReturnFailed))
        case Some(i) => Outcome(GivenBack(closed, loan.userId, i, loan.documentId), Success(()))
  }

  /** `loan.returnDocument()` on the loan under `loanId`. */
  function Closed(s: State, loanId: string, today: int): State
    requires loanId in s.loans
  {
    s.(loans := s.loans[loanId := Returned(s.loans[loanId], today)])
  }

  /** Once the loan is known to be open and its user registered, the return closes it. */
  lemma {:induction false} ReturnDocumentPassed(s: State, loanId: string, today: int, index: Option<nat>)
    requires loanId in s.loans && s.loans[loanId].status != RETURNED && s.loans[loanId].userId in s.users
    requires index == FirstWithId(s.docs, s.loans[loanId].documentId)
    ensures ReturnDocument(s, loanId, today) ==
      if index.None? then Outcome(Closed(s, loanId, today), Failure(ReturnFailed))
      else Outcome(GivenBack(Closed(s, loanId, today), s.loans[loanId].userId, index.value, s.loans[loanId].documentId), Success(()))
  {
  }

  /**
   * The changes a completed return makes besides closing the loan: the document at `i` is
   * available again and one copy of its id leaves the user's list.
   */
  function GivenBack(s: State, userId: string, i: nat, documentId: string): State
    requires userId in s.users && i < |s.docs|
  {
    var user := s.users[userId];
    s.(docs := s.docs[i := WithAvailable(s.docs[i], true)],
       users := s.users[userId := user.(currentLoans := RemoveFirst(user.currentLoans, documentId))])
  }

  // ---------------------------------------------------------------- queries

  /** `getActiveLoans`: the loans whose stored status is ACTIVE (an overdue one is not). */
  function ActiveLoans(s: State): (r: map<string, LoanRecord>)
    ensures forall k :: k in r <==> k in s.loans && s.loans[k].status == ACTIVE
    ensures forall k :: k in r ==> r[k] == s.loans[k]
  {
    map k | k in s.loans && s.loans[k].status == ACTIVE :: s.loans[k]
  }

  /** `getOverdueLoans`: the loans `isOverdue` holds of on `today`. */
  function OverdueLoans(s: State, today: int): (r: map<string, LoanRecord>)
    ensures forall k :: k in r <==> k in s.loans && IsOverdue(s.loans[k], today)
    ensures forall k :: k in r ==> r[k] == s.loans[k]
  {
    map k | k in s.loans && IsOverdue(s.loans[k], today) :: s.loans[k]
  }

  /** `getUserLoans`: every loan, of any status, made by the user. */
  function UserLoans(s: State, userId: string): (r: map<string, LoanRecord>)
    ensures forall k :: k in r <==> k in s.loans && s.loans[k].userId == userId
    ensures forall k :: k in r ==> r[k] == s.loans[k]
  {
    map k | k in s.loans && s.loans[k].userId == userId :: s.loans[k]
  }

  /** `getStatistics`: five counts under fixed keys. */
  function Statistics(s: State, today: int): (stats: map<string, int>)
    ensures stats.Keys == {"totalDocuments", "availableDocuments", "totalUsers", "activeLoans", "overdueLoans"}
  {
    map[
      "totalDocuments" := |s.docs|,
      "availableDocuments" := |AvailableDocuments(s.docs)|,
      "totalUsers" := |s.users|,
      "activeLoans" := |ActiveLoans(s)|,
      "overdueLoans" := |OverdueLoans(s, today)|]
  }

  /** The statistics count exactly what the queries return, and never more than they range over. */
  lemma {:induction false} StatisticsCountQueries(s: State, today: int)
    ensures Statistics(s, today)["availableDocuments"] <= Statistics(s, today)["totalDocuments"]
    ensures Statistics(s, today)["activeLoans"] == |ActiveLoans(s).Keys| <= |s.loans|
    ensures Statistics(s, today)["overdueLoans"] == |OverdueLoans(s, today).Keys| <= |s.loans|
  {
    assert ActiveLoans(s).Keys <= s.loans.Keys;
    assert OverdueLoans(s, today).Keys <= s.loans.Keys;
    SubsetCardinality(ActiveLoans(s).Keys, s.loans.Keys);
    SubsetCardinality(OverdueLoans(s, today).Keys, s.loans.Keys);
  }

  lemma {:induction false} SubsetCardinality(a: set<string>, b: set<string>)
    requires a <= b
    ensures |a| <= |b|
  {
    if a != {} {
      var x :| x in a;
      SubsetCardinality(a - {x}, b - {x});
    }
  }

  /** No query changes anything: an active loan is never overdue-by-status and vice versa. */
  lemma {:induction false} ActiveAndOverdue(s: State, today: int, k: string)
    requires k in ActiveLoans(s)
    ensures k in OverdueLoans(s, today) <==> today > s.loans[k].dueDate
    ensures k in UserLoans(s, s.loans[k].userId)
  {
  }

  // ---------------------------------------------------------------- loading

  /**
   * `map.put` for each value in list order, under the key `key` gives it: every value's key
   * ends up present, and a key holds the last value that has it.
   */
  function PutAll<V>(vs: seq<V>, key: V -> string): (m: map<string, V>)
    ensures forall i :: 0 <= i < |vs| ==> key(vs[i]) in m
    ensures forall k :: k in m ==> m[k] in vs && key(m[k]) == k
  {
    if vs == [] then map[]
    else
      var last := vs[|vs| - 1];
      PutAll(vs[..|vs| - 1], key)[key(last) := last]
  }

  /** Putting one more value. */
  lemma {:induction false} PutAllSnoc<V>(vs: seq<V>, key: V -> string, i: nat)
    requires i < |vs|
    ensures PutAll(vs[..i + 1], key) == PutAll(vs[..i], key)[key(vs[i]) := vs[i]]
  {
    assert vs[..i + 1][..i] == vs[..i];
  }

  /** A value that no later value shares its key with is what the map holds under that key. */
  lemma {:induction false} PutAllLastWins<V>(vs: seq<V>, key: V -> string, i: nat)
    requires i < |vs|
    requires forall j :: i < j < |vs| ==> key(vs[j]) != key(vs[i])
    ensures PutAll(vs, key)[key(vs[i])] == vs[i]
  {
    if i < |vs| - 1 {
      var init := vs[..|vs| - 1];
      assert forall j :: i < j < |init| ==> init[j] == vs[j];
      PutAllLastWins(init, key, i);
    }
  }

  function UserKey(u: UserRecord): string
  {
    u.userId
  }

  function LoanKey(l: LoanRecord): string
  {
    l.loanId
  }

  /** How far the loan part of `loadData` got: the loans put so far, the counter, and whether it threw. */
  datatype LoanLoad = LoanLoad(loans: map<string, LoanRecord>, counter: int32, aborted: bool)

  /**
   * One turn of the loan loop: the loan is put first; then the number after its first
   * character is parsed, and a failed parse throws out of the whole loop. A number at or
   * above the counter moves the counter one past it, with `int` wrap-around.
   */
  function LoanLoadStep(acc: LoanLoad, l: LoanRecord): LoanLoad
  {
    if acc.aborted then acc
    else
      var loans := acc.loans[l.loanId := l];
      match LoanNumber(l.loanId)
      case None => LoanLoad(loans, acc.counter, true)
      case Some(n) => LoanLoad(loans, if n >= acc.counter then Inc32(n) else acc.counter, false)
  }

  /** The loan loop over the loaded loans, from an empty registry and the initial counter. */
  function LoadLoanRecords(recs: seq<LoanRecord>): (r: LoanLoad)
    ensures forall k :: k in r.loans ==> r.loans[k].loanId == k
  {
    if recs == [] then LoanLoad(map[], INITIAL_COUNTER, false)
    else LoanLoadStep(LoadLoanRecords(recs[..|recs| - 1]), recs[|recs| - 1])
  }

  /** One more loan read extends the loop by one turn. */
  lemma {:induction false} LoadLoanSnoc(recs: seq<LoanRecord>, i: nat)
    requires i < |recs|
    ensures LoadLoanRecords(recs[..i + 1]) == LoanLoadStep(LoadLoanRecords(recs[..i]), recs[i])
  {
    assert recs[..i + 1][..i] == recs[..i];
  }

  /** Once the loop has thrown, the loans after that point are never looked at. */
  lemma {:induction false} AbortedLoadStops(recs: seq<LoanRecord>, i: nat)
    requires i <= |recs| && LoadLoanRecords(recs[..i]).aborted
    ensures LoadLoanRecords(recs) == LoadLoanRecords(recs[..i])
  {
    if i < |recs| {
      assert recs[..|recs| - 1][..i] == recs[..i];
      AbortedLoadStops(recs[..|recs| - 1], i);
    } else {
      assert recs[..i] == recs;
    }
  }

  /** The loop throws exactly when some loan id has no number after its first character. */
  lemma {:induction false} LoadAbortsIff(recs: seq<LoanRecord>)
    ensures LoadLoanRecords(recs).aborted <==> exists i :: 0 <= i < |recs| && LoanNumber(recs[i].loanId).None?
  {
    if recs != [] {
      var init := recs[..|recs| - 1];
      LoadAbortsIff(init);
      assert forall i :: 0 <= i < |init| ==> init[i] == recs[i];
      if LoanNumber(recs[|recs| - 1].loanId).None? {
        assert LoadLoanRecords(recs).aborted;
      }
    }
  }

  /** With every id numbered, the loop puts every loan, like a plain `put` loop. */
  lemma {:induction false} LoadPutsAll(recs: seq<LoanRecord>)
    requires forall i :: 0 <= i < |recs| ==> LoanNumber(recs[i].loanId).Some?
    ensures !LoadLoanRecords(recs).aborted
    ensures LoadLoanRecords(recs).loans == PutAll(recs, LoanKey)
  {
    if recs != [] {
      LoadPutsAll(recs[..|recs| - 1]);
    }
  }

  /**
   * Unless a stored number is `Integer.MAX_VALUE` (where `num + 1` wraps), the counter ends
   * above every number the loaded ids carry, so the next id drawn is new.
   */
  lemma {:induction false} LoadedCounterFresh(recs: seq<LoanRecord>)
    requires forall i :: 0 <= i < |recs| ==> LoanNumber(recs[i].loanId) != Some(IntMax as int32)
    ensures INITIAL_COUNTER <= LoadLoanRecords(recs).counter
    ensures forall k :: k in LoadLoanRecords(recs).loans && LoanNumber(k).Some? ==>
              LoanNumber(k).value < LoadLoanRecords(recs).counter
  {
    if recs != [] {
      var init := recs[..|recs| - 1];
      assert forall i :: 0 <= i < |init| ==> init[i] == recs[i];
      LoadedCounterFresh(init);
      var acc := LoadLoanRecords(init);
      var l := recs[|recs| - 1];
      if !acc.aborted && LoanNumber(l.loanId).Some? {
        var n := LoanNumber(l.loanId).value;
        assert n < IntMax;
        assert LoadLoanRecords(recs).counter >= acc.counter;
        assert LoadLoanRecords(recs).counter > n;
      }
    }
  }

  /** The counter is the initial one or one past the number of a loan in the registry. */
  predicate CounterFromIds(r: LoanLoad)
  {
    r.counter == INITIAL_COUNTER || exists k :: k in r.loans && LoanNumber(k) == Some(r.counter - 1)
  }

  /** Under the same proviso the counter is the initial one or one past a loaded number. */
  lemma {:induction false} LoadedCounterTight(recs: seq<LoanRecord>)
    requires forall i :: 0 <= i < |recs| ==> LoanNumber(recs[i].loanId) != Some(IntMax as int32)
    ensures CounterFromIds(LoadLoanRecords(recs))
  {
    if recs != [] {
      var init := recs[..|recs| - 1];
      assert forall i :: 0 <= i < |init| ==> init[i] == recs[i];
      LoadedCounterTight(init);
      var l := recs[|recs| - 1];
      assert LoanNumber(l.loanId) != Some(IntMax as int32);
      StepKeepsCounterFromIds(LoadLoanRecords(init), l);
    }
  }

  lemma {:induction false} StepKeepsCounterFromIds(acc: LoanLoad, l: LoanRecord)
    requires CounterFromIds(acc) && LoanNumber(l.loanId) != Some(IntMax as int32)
    ensures CounterFromIds(LoanLoadStep(acc, l))
  {
    var r := LoanLoadStep(acc, l);
    if !acc.aborted {
      assert r.loans == acc.loans[l.loanId := l];
      if acc.counter != INITIAL_COUNTER {
        var k :| k in acc.loans && LoanNumber(k) == Some(acc.counter - 1);
        assert k in r.loans;
      }
      match LoanNumber(l.loanId)
      case None =>
      case Some(n) =>
        if n >= acc.counter {
          assert r.counter == n + 1;
          assert l.loanId in r.loans;
        }
    }
  }

  /**
   * What `loadData` leaves in a new service, given the three files' lines: every document
   * that reads, every user put under its id, and the loans and counter of the loan loop.
   */
  function LoadState(documentLines: seq<string>, userLines: seq<string>, loanLines: seq<string>): (s: State)
    ensures s.docs == Loaded(documentLines, DeserializeDocument)
    ensures forall k :: k in s.users ==> s.users[k].userId == k
    ensures forall k :: k in s.loans ==> s.loans[k].loanId == k
  {
    var load := LoadLoanRecords(Loaded(loanLines, DeserializeLoan));
    State(Loaded(documentLines, DeserializeDocument), PutAll(Loaded(userLines, DeserializeUser), UserKey),
          load.loans, load.counter)
  }

  /** An empty store loads an empty service. */
  lemma {:induction false} LoadNothing()
    ensures LoadState([], [], []) == EmptyState()
  {
  }

  // ---------------------------------------------------------------- saving

  /** `ks` lists the keys of a map, each once, in some order (the one `HashMap.values` has). */
  predicate KeyOrder(ks: seq<string>, keys: set<string>)
  {
    && (forall i, j :: 0 <= i < j < |ks| ==> ks[i] != ks[j])
    && (forall k :: k in keys ==> k in ks)
    && (forall i :: 0 <= i < |ks| ==> ks[i] in keys)
  }

  /** A key order lists exactly as many keys as there are. */
  lemma {:induction false} KeyOrderCardinality(ks: seq<string>, keys: set<string>)
    requires KeyOrder(ks, keys)
    ensures |ks| == |keys|
  {
    if ks == [] {
      assert forall k :: k in keys ==> k in ks;
      assert keys == {};
    } else {
      var last := ks[|ks| - 1];
      var init := ks[..|ks| - 1];
      assert forall i :: 0 <= i < |init| ==> init[i] == ks[i] && init[i] != last;
      forall k | k in keys - {last} ensures k in init {
        var i :| 0 <= i < |ks| && ks[i] == k;
        assert i != |ks| - 1;
      }
      KeyOrderCardinality(init, keys - {last});
    }
  }

  /** The keys of `ks` whose value in `m` passes `keep`, in the order of `ks`: one pass of a filter. */
  function KeysWhere(ks: seq<string>, m: map<string, LoanRecord>, keep: LoanRecord -> bool): (r: seq<string>)
    requires forall i :: 0 <= i < |ks| ==> ks[i] in m
    ensures forall j :: 0 <= j < |r| ==> r[j] in ks && keep(m[r[j]])
    ensures forall i :: 0 <= i < |ks| && keep(m[ks[i]]) ==> ks[i] in r
  {
    if ks == [] then []
    else
      var init := KeysWhere(ks[..|ks| - 1], m, keep);
      if keep(m[ks[|ks| - 1]]) then init + [ks[|ks| - 1]] else init
  }

  /** Filtering one more key extends the filter by at most that key. */
  lemma {:induction false} KeysWhereSnoc(ks: seq<string>, i: nat, m: map<string, LoanRecord>, keep: LoanRecord -> bool)
    requires i < |ks| && forall j :: 0 <= j < |ks| ==> ks[j] in m
    ensures KeysWhere(ks[..i + 1], m, keep) ==
      if keep(m[ks[i]]) then KeysWhere(ks[..i], m, keep) + [ks[i]] else KeysWhere(ks[..i], m, keep)
  {
    assert ks[..i + 1][..i] == ks[..i];
  }

  /** Filtering a key order of a map gives a key order of the keys that pass. */
  lemma {:induction false} KeysWhereOrder(ks: seq<string>, m: map<string, LoanRecord>, keep: LoanRecord -> bool)
    requires KeyOrder(ks, m.Keys)
    ensures KeyOrder(KeysWhere(ks, m, keep), set k | k in m && keep(m[k]))
  {
    KeysWhereDistinct(ks, m, keep);
    var r := KeysWhere(ks, m, keep);
    var passed := set k | k in m && keep(m[k]);
    forall k | k in passed ensures k in r {
      var i :| 0 <= i < |ks| && ks[i] == k;
    }
    forall j | 0 <= j < |r| ensures r[j] in passed {
      assert r[j] in ks;
    }
  }

  /** No key is listed twice. */
  predicate Distinct(ks: seq<string>)
  {
    forall i, j :: 0 <= i < j < |ks| ==> ks[i] != ks[j]
  }

  /** A filter keeps no key twice when the list it filters holds none twice. */
  lemma {:induction false} KeysWhereDistinct(ks: seq<string>, m: map<string, LoanRecord>, keep: LoanRecord -> bool)
    requires forall i :: 0 <= i < |ks| ==> ks[i] in m
    requires Distinct(ks)
    ensures Distinct(KeysWhere(ks, m, keep))
  {
    if ks != [] {
      var init := ks[..|ks| - 1];
      assert forall i :: 0 <= i < |init| ==> init[i] == ks[i] && init[i] != ks[|ks| - 1];
      KeysWhereDistinct(init, m, keep);
      var last := ks[|ks| - 1];
      var r0 := KeysWhere(init, m, keep);
      assert last !in r0;
      assert KeysWhere(ks, m, keep) == if keep(m[last]) then r0 + [last] else r0;
    }
  }

  /** The map's values in the order of `ks`. */
  function ValuesInOrder<V>(m: map<string, V>, ks: seq<string>): (vs: seq<V>)
    requires forall i :: 0 <= i < |ks| ==> ks[i] in m
    ensures |vs| == |ks| && forall i :: 0 <= i < |ks| ==> vs[i] == m[ks[i]]
  {
    seq(|ks|, i requires 0 <= i < |ks| => m[ks[i]])
  }

  /** A map whose values carry their own keys is rebuilt by putting its values back in any order. */
  lemma {:induction false} PutValuesBack<V>(m: map<string, V>, ks: seq<string>, key: V -> string)
    requires KeyOrder(ks, m.Keys)
    requires forall k :: k in m ==> key(m[k]) == k
    ensures PutAll(ValuesInOrder(m, ks), key) == m
  {
    PutValuesBackCovers(m, ks, key);
    PutValuesBackWithin(m, ks, key);
  }

  /** Every key of the map is put back with its own value ... */
  lemma {:induction false} PutValuesBackCovers<V>(m: map<string, V>, ks: seq<string>, key: V -> string)
    requires KeyOrder(ks, m.Keys)
    requires forall k :: k in m ==> key(m[k]) == k
    ensures forall k :: k in m ==> k in PutAll(ValuesInOrder(m, ks), key) && PutAll(ValuesInOrder(m, ks), key)[k] == m[k]
  {
    var vs := ValuesInOrder(m, ks);
    forall k | k in m
      ensures k in PutAll(vs, key) && PutAll(vs, key)[k] == m[k]
    {
      var i :| 0 <= i < |ks| && ks[i] == k;
      assert key(vs[i]) == k;
      PutAllLastWins(vs, key, i);
    }
  }

  /** ... and no other key appears. */
  lemma {:induction false} PutValuesBackWithin<V>(m: map<string, V>, ks: seq<string>, key: V -> string)
    requires KeyOrder(ks, m.Keys)
    requires forall k :: k in m ==> key(m[k]) == k
    ensures forall k :: k in PutAll(ValuesInOrder(m, ks), key) ==> k in m
  {
    var vs := ValuesInOrder(m, ks);
    var r := PutAll(vs, key);
    forall k | k in r
      ensures k in m
    {
      var i :| 0 <= i < |vs| && vs[i] == r[k];
      assert key(vs[i]) == ks[i];
    }
  }

  /** `saveData`: the document list in order, and the users and loans each in some key order. */
  ghost predicate SavedAs(s: State, files: map<string, seq<string>>)
  {
    && DOCUMENTS_FILE in files && files[DOCUMENTS_FILE] == DocumentLines(s.docs)
    && USERS_FILE in files && files[USERS_FILE] in UserSaves(s.users)
    && LOANS_FILE in files && files[LOANS_FILE] in LoanSaves(s.loans)
  }

  /** Every users file a save can write: the users listed in some order of their keys. */
  ghost function UserSaves(users: map<string, UserRecord>): iset<seq<string>>
  {
    iset ks | KeyOrder(ks, users.Keys) :: UserLines(ValuesInOrder(users, ks))
  }

  /** Every loans file a save can write: the loans listed in some order of their keys. */
  ghost function LoanSaves(loans: map<string, LoanRecord>): iset<seq<string>>
  {
    iset ks | KeyOrder(ks, loans.Keys) :: LoanLines(ValuesInOrder(loans, ks))
  }

  /** A saved users file lists the users in an order of their keys. */
  lemma {:induction false} UserSaveOrder(users: map<string, UserRecord>, lines: seq<string>) returns (ks: seq<string>)
    requires lines in UserSaves(users)
    ensures KeyOrder(ks, users.Keys) && lines == UserLines(ValuesInOrder(users, ks))
  {
    ks :| KeyOrder(ks, users.Keys) && lines == UserLines(ValuesInOrder(users, ks));
  }

  /** A saved loans file lists the loans in an order of their keys. */
  lemma {:induction false} LoanSaveOrder(loans: map<string, LoanRecord>, lines: seq<string>) returns (ks: seq<string>)
    requires lines in LoanSaves(loans)
    ensures KeyOrder(ks, loans.Keys) && lines == LoanLines(ValuesInOrder(loans, ks))
  {
    ks :| KeyOrder(ks, loans.Keys) && lines == LoanLines(ValuesInOrder(loans, ks));
  }

  /** Files written from the documents and from the users and loans listed in key orders are a save of the state. */
  lemma {:induction false} SavedFromOrders(s: State, files: map<string, seq<string>>, uks: seq<string>, urecs: seq<UserRecord>,
                        lks: seq<string>, lrecs: seq<LoanRecord>)
    requires KeyOrder(uks, s.users.Keys) && |urecs| == |uks|
    requires forall i :: 0 <= i < |uks| ==> urecs[i] == s.users[uks[i]]
    requires KeyOrder(lks, s.loans.Keys) && |lrecs| == |lks|
    requires forall i :: 0 <= i < |lks| ==> lrecs[i] == s.loans[lks[i]]
    requires DOCUMENTS_FILE in files && files[DOCUMENTS_FILE] == DocumentLines(s.docs)
    requires USERS_FILE in files && files[USERS_FILE] == UserLines(urecs)
    requires LOANS_FILE in files && files[LOANS_FILE] == LoanLines(lrecs)
    ensures SavedAs(s, files)
  {
    assert urecs == ValuesInOrder(s.users, uks);
    assert lrecs == ValuesInOrder(s.loans, lks);
  }

  /** Everything in the state can be written without a field that would break its line. */
  predicate Storable(s: State)
  {
    && (forall i :: 0 <= i < |s.docs| ==> StorableDocument(s.docs[i]))
    && (forall k :: k in s.users ==> StorableUser(s.users[k]))
    && (forall k :: k in s.loans ==> StorableLoan(s.loans[k]))
  }

  /**
   * Saving and loading again restores the documents, the users and the loans as they were,
   * provided every field can be stored and every loan id carries a number. (The counter is
   * rebuilt from the ids, which the invariant relates to the old one.)
   */
  lemma {:induction false} SaveThenLoad(s: State, files: map<string, seq<string>>)
    requires SavedAs(s, files) && Storable(s)
    requires forall k :: k in s.users ==> s.users[k].userId == k
    requires forall k :: k in s.loans ==> s.loans[k].loanId == k && LoanNumber(k).Some?
    ensures var r := LoadState(files[DOCUMENTS_FILE], files[USERS_FILE], files[LOANS_FILE]);
      r.docs == s.docs && r.users == s.users && r.loans == s.loans
    ensures forall i :: 0 <= i < |Loaded(files[LOANS_FILE], DeserializeLoan)| ==>
              Loaded(files[LOANS_FILE], DeserializeLoan)[i].loanId in s.loans
  {
    DocumentsRoundTrip(s.docs);
    var uks := UserSaveOrder(s.users, files[USERS_FILE]);
    var lks := LoanSaveOrder(s.loans, files[LOANS_FILE]);
    var us, ls := ValuesInOrder(s.users, uks), ValuesInOrder(s.loans, lks);
    UsersRoundTrip(us);
    LoansRoundTrip(ls);
    PutValuesBack(s.users, uks, UserKey);
    PutValuesBack(s.loans, lks, LoanKey);
    LoadPutsAll(ls);
  }
}
