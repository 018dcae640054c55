/**
 * The library service object: the document collection, the user and loan registries keyed
 * by id, the loan-id counter, the search context, the notification subject and the store.
 * Every operation is proved to move the service's state exactly as the pure transition of
 * the same name does, to report the same outcome, to notify on success only, and to leave the
 * store holding what it now holds. The current date and the observers that throw are
 * parameters.
 */
module LibraryServices {
  import opened Wrappers
  import opened Text
  import opened Documents
  import opened Users
  import opened Loans
  import opened CreationParams
  import opened DocumentFactory
  import opened DataPersistence
  import opened SearchStrategies
  import opened DocumentCollections
  import opened Notifications
  import opened LibraryState

  /** The value a nullable parameter object holds. */
  function ParamsView(params: Option<DocumentCreationParams>): Option<Params>
    reads if params.Some? then {params.value.extraParams} else {}
  {
    if params.Some? then Some(params.value.View()) else None
  }

  /** The message a completed return sends: the loan's user and document. */
  function ReturnMessage(s: State, loanId: string): string
    requires loanId in s.loans
  {
    LoanReturnedMessage(s.loans[loanId].userId, s.loans[loanId].documentId)
  }

  /** The users of a registry, as values. */
  function UserSnapshotsOf(m: map<string, User>): (r: map<string, UserRecord>)
    reads m.Values
    ensures r.Keys == m.Keys && forall k :: k in m ==> r[k] == m[k].Snapshot()
  {
    map k | k in m :: m[k].Snapshot()
  }

  lemma {:induction false} UserSnapshotsPut(m: map<string, User>, k: string, u: User)
    ensures UserSnapshotsOf(m[k := u]) == UserSnapshotsOf(m)[k := u.Snapshot()]
  {
  }

  twostate lemma {:induction false} UserSnapshotsUnchanged(m: map<string, User>)
    requires forall k :: k in m ==> unchanged(m[k])
    ensures UserSnapshotsOf(m) == old(UserSnapshotsOf(m))
  {
  }

  /** The loans of a registry, as values. */
  function LoanSnapshotsOf(m: map<string, Loan>): (r: map<string, LoanRecord>)
    reads m.Values
    ensures r.Keys == m.Keys && forall k :: k in m ==> r[k] == m[k].Snapshot()
  {
    map k | k in m :: m[k].Snapshot()
  }

  twostate lemma {:induction false} LoanSnapshotsUnchanged(m: map<string, Loan>)
    requires forall k :: k in m ==> unchanged(m[k])
    ensures LoanSnapshotsOf(m) == old(LoanSnapshotsOf(m))
  {
  }

  twostate lemma {:induction false} LoanKept(l: Loan)
    requires unchanged(l)
    ensures l.Snapshot() == old(l.Snapshot())
  {
  }

  twostate lemma {:induction false} UserRecordsUnchanged(us: seq<User>)
    requires forall i :: 0 <= i < |us| ==> unchanged(us[i])
    ensures UserRecords(us) == old(UserRecords(us))
  {
    assert forall i :: 0 <= i < |us| ==> UserRecords(us)[i] == old(UserRecords(us))[i];
  }

  twostate lemma {:induction false} LoanRecordsUnchanged(ls: seq<Loan>)
    requires forall i :: 0 <= i < |ls| ==> unchanged(ls[i])
    ensures LoanRecords(ls) == old(LoanRecords(ls))
  {
    assert forall i :: 0 <= i < |ls| ==> LoanRecords(ls)[i] == old(LoanRecords(ls))[i];
  }

  lemma {:induction false} LoanSnapshotsPut(m: map<string, Loan>, k: string, l: Loan)
    ensures LoanSnapshotsOf(m[k := l]) == LoanSnapshotsOf(m)[k := l.Snapshot()]
  {
  }

  /** The user loop of `loadData`: each loaded user is put under its id, a later one replacing an earlier. */
  method LoadedUsers(persistence: DataPersistence) returns (m: map<string, User>)
    ensures UserSnapshotsOf(m) == PutAll(Loaded(persistence.Lines(USERS_FILE), DeserializeUser), UserKey)
  {
    var userList := persistence.LoadUsers();
    ghost var recs := UserRecords(userList);
    m := map[];
    for i := 0 to |userList|
      modifies {}
      invariant UserSnapshotsOf(m) == PutAll(recs[..i], UserKey)
    {
      assert recs[i] == userList[i].Snapshot();
      PutAllSnoc(recs, UserKey, i);
      UserSnapshotsPut(m, userList[i].userId, userList[i]);
      m := m[userList[i].userId := userList[i]];
    }
    assert recs[..|userList|] == recs;
  }

  /**
   * The loan loop of `loadData`: each loaded loan is put under its id, and its number moves
   * the counter; the first id without a number ends the loop.
   */
  method LoadedLoans(persistence: DataPersistence) returns (m: map<string, Loan>, counter: int32)
    ensures var load := LoadLoanRecords(Loaded(persistence.Lines(LOANS_FILE), DeserializeLoan));
      LoanSnapshotsOf(m) == load.loans && counter == load.counter
  {
    var loanList := persistence.LoadLoans();
    ghost var recs := LoanRecords(loanList);
    m, counter := map[], INITIAL_COUNTER;
    var i := 0;
    var aborted := false;
    ghost var acc := LoadLoanRecords([]);
    while i < |loanList| && !aborted
      modifies {}
      invariant 0 <= i <= |loanList|
      invariant acc == LoadLoanRecords(recs[..i])
      invariant LoanSnapshotsOf(m) == acc.loans && counter == acc.counter && aborted == acc.aborted
    {
      var loan := loanList[i];
      assert recs[i] == loan.Snapshot();
      LoadLoanSnoc(recs, i);
      acc := LoanLoadStep(acc, recs[i]);
      LoanSnapshotsPut(m, loan.loanId, loan);
      m := m[loan.loanId := loan];
      var num := LoanNumber(loan.loanId);
      if num.None? {
        aborted := true;
      } else if num.value >= counter {
        counter := Inc32(num.value);
      }
      i := i + 1;
    }
    if aborted {
      AbortedLoadStops(recs, i);
    } else {
      assert recs[..i] == recs;
    }
  }

  /** The loop of the loan queries: the loans, listed under `ks`, whose value passes `keep`. */
  method FilterLoans(all: seq<Loan>, ghost ks: seq<string>, ghost m: map<string, Loan>,
                     ghost snap: map<string, LoanRecord>, keep: LoanRecord -> bool)
    returns (r: seq<Loan>, ghost kept: seq<string>)
    requires |all| == |ks|
    requires forall i :: 0 <= i < |ks| ==> ks[i] in m && ks[i] in snap
    requires forall i :: 0 <= i < |ks| ==> all[i] == m[ks[i]] && all[i].Snapshot() == snap[ks[i]]
    ensures kept == KeysWhere(ks, snap, keep)
    ensures |r| == |kept| && forall j :: 0 <= j < |kept| ==> kept[j] in m && r[j] == m[kept[j]]
  {
    r, kept := [], [];
    for i := 0 to |all|
      invariant kept == KeysWhere(ks[..i], snap, keep)
      invariant |r| == |kept| && forall j :: 0 <= j < |kept| ==> kept[j] in m && r[j] == m[kept[j]]
    {
      KeysWhereSnoc(ks, i, snap, keep);
      if keep(all[i].Snapshot()) {
        r, kept := r + [all[i]], kept + [ks[i]];
      }
    }
    assert ks[..|all|] == ks;
  }

  /** The writes of `saveData` once the three lists are taken. */
  method WriteStore(p: DataPersistence, docs: seq<Document>, us: seq<User>, ls: seq<Loan>,
                    ghost urecs: seq<UserRecord>, ghost lrecs: seq<LoanRecord>)
    requires urecs == UserRecords(us) && lrecs == LoanRecords(ls)
    modifies p
    ensures p.files == old(p.files)[DOCUMENTS_FILE := DocumentLines(docs)]
      [USERS_FILE := UserLines(urecs)][LOANS_FILE := LoanLines(lrecs)]
  {
    p.SaveDocuments(docs);
    p.SaveUsers(us);
    UserRecordsUnchanged(us);
    p.SaveLoans(ls);
    LoanRecordsUnchanged(ls);
  }

  class LibraryService {
    const collection: DocumentCollection
    var users: map<string, User>
    var loans: map<string, Loan>
    var counter: int32
    const searchContext: SearchContext
    const notifications: LoanNotificationSystem
    const persistence: DataPersistence

    /** The users the registry holds, as values. */
    function UserSnapshots(): (m: map<string, UserRecord>)
      reads this, users.Values
    {
      UserSnapshotsOf(users)
    }

    /** The loans the registry holds, as values. */
    function LoanSnapshots(): (m: map<string, LoanRecord>)
      reads this, loans.Values
    {
      LoanSnapshotsOf(loans)
    }

    /** The whole service as a value, on which its operations are specified. */
    function Current(): State
      reads this, collection, users.Values, loans.Values
    {
      State(collection.documents, UserSnapshots(), LoanSnapshots(), counter)
    }

    /**
     * Each registry entry is the object whose id is its key (so distinct keys hold distinct
     * objects), and the subject holds no observer twice.
     */
    predicate Valid()
      reads this, users.Values, loans.Values, notifications
    {
      && (forall k :: k in users ==> users[k].userId == k)
      && (forall k :: k in loans ==> loans[k].loanId == k)
      && notifications.Valid()
    }

    /**
     * The constructor: empty registries, the default search strategy, no observers, the
     * counter at one, and then `loadData` over the store.
     */
    constructor (persistence: DataPersistence)
      ensures Valid()
      ensures Current() == LoadState(persistence.Lines(DOCUMENTS_FILE), persistence.Lines(USERS_FILE), persistence.Lines(LOANS_FILE))
      ensures this.persistence == persistence && searchContext.strategy == TitleSearch
      ensures notifications.observers == [] && notifications.log == []
      ensures fresh(collection) && fresh(searchContext) && fresh(notifications)
    {
      collection := new DocumentCollection();
      users := map[];
      loans := map[];
      searchContext := new SearchContext();
      notifications := new LoanNotificationSystem();
      this.persistence := persistence;
      counter := INITIAL_COUNTER;
      new;
      LoadData();
      assert Valid();
    }

    /** `loadData`: documents, then users, then loans; the loan loop stops at the first id that will not parse. */
    method LoadData()
      requires collection.documents == [] && users == map[] && loans == map[] && counter == INITIAL_COUNTER
      modifies this, collection
      ensures Current() == LoadState(persistence.Lines(DOCUMENTS_FILE), persistence.Lines(USERS_FILE), persistence.Lines(LOANS_FILE))
      ensures forall k :: k in users ==> users[k].userId == k
      ensures forall k :: k in loans ==> loans[k].loanId == k
    {
      ghost var loaded := LoadState(persistence.Lines(DOCUMENTS_FILE), persistence.Lines(USERS_FILE), persistence.Lines(LOANS_FILE));
      LoadDocumentsInto();
      ghost var docs := collection.documents;
      var um := LoadedUsers(persistence);
      label UsersLoaded:
      var lm, c := LoadedLoans(persistence);
      label LoansLoaded:
      assert loaded == State(docs, UserSnapshotsOf(um), LoanSnapshotsOf(lm), c);
      users, loans, counter := um, lm, c;
      UserSnapshotsUnchanged@UsersLoaded(um);
      LoanSnapshotsUnchanged@LoansLoaded(lm);
      assert Current() == loaded;
    }

    method LoadDocumentsInto()
      requires collection.documents == []
      modifies collection
      ensures collection.documents == Loaded(persistence.Lines(DOCUMENTS_FILE), DeserializeDocument)
    {
      var docs := persistence.LoadDocuments();
      for i := 0 to |docs|
        invariant collection.documents == docs[..i]
      {
        collection.Add(Some(docs[i]));
      }
      assert docs[..|docs|] == docs;
    }

    // ---------------------------------------------------------------- documents

    /** The iterator loop of `findDocumentById`, reporting where the document sits. */
    method FindDocumentIndex(id: string) returns (r: Option<nat>)
      ensures r == FirstWithId(collection.documents, id)
    {
      var it := collection.CreateIterator();
      while it.HasNext()
        invariant it.collection == collection && it.position <= |collection.documents|
        invariant forall j :: 0 <= j < it.position ==> collection.documents[j].id != id
        decreases |collection.documents| - it.position
      {
        var pos := it.position;
        var next := it.Next();
        if next.value.id == id {
          return Some(pos);
        }
      }
      return None;
    }

    /** `findDocumentById`: the first document with the id, or `null`. */
    method FindDocumentById(id: string) returns (r: Option<Document>)
      ensures r == FirstDocument(collection.documents, id)
    {
      var i := FindDocumentIndex(id);
      r := if i.Some? then Some(collection.documents[i.value]) else None;
    }

    /**
     * `addDocument`: the factory builds the document from the parameters as they are now,
     * a duplicate id is refused, and a new document is appended and the store rewritten.
     */
    method AddDocument(t: Option<DocumentType>, params: Option<DocumentCreationParams>) returns (r: Result<(), LibraryError>)
      requires Valid()
      modifies collection, persistence
      ensures Valid()
      ensures var o := LibraryState.AddDocument(old(Current()), t, old(ParamsView(params)));
        Current() == o.state && r == o.result
      ensures r.Success? ==> SavedAs(Current(), persistence.files)
      ensures r.Failure? ==> persistence.files == old(persistence.files)
    {
      ghost var s, pv := Current(), ParamsView(params);
      var created := CreateDocument(t, ParamsView(params));
      if created.Failure? {
        var e := created.error;
        return Failure(if IsInvalidDocument(e) then InvalidDocument(e) else SystemError);
      }
      AddBuilt(s, t, pv, created.value);
      r := InsertDocument(created.value);
    }

    /** The part of `addDocument` after the factory: the duplicate check, the append and the save. */
    method InsertDocument(document: Document) returns (r: Result<(), LibraryError>)
      requires Valid()
      modifies collection, persistence
      ensures Valid()
      ensures var duplicate := FirstWithId(old(collection.documents), document.id).Some?;
        && Current() == (if duplicate then old(Current()) else WithDocument(old(Current()), document))
        && r == if duplicate then Failure(DuplicateDocument(document.id)) else Success(())
      ensures r.Success? ==> SavedAs(Current(), persistence.files)
      ensures r.Failure? ==> persistence.files == old(persistence.files)
    {
      var existing := FindDocumentById(document.id);
      if existing.Some? {
        return Failure(DuplicateDocument(document.id));
      }
      Append(document);
      SaveData();
      r := Success(());
    }

    /** `documents.add(document)` on the collection. */
    method Append(document: Document)
      requires Valid()
      modifies collection
      ensures Valid()
      ensures Current() == WithDocument(old(Current()), document)
    {
      collection.Add(Some(document));
      Untouched();
    }

    /** `searchDocuments(query)`: the current strategy over every document. */
    method SearchDocuments(query: Option<string>) returns (r: seq<Document>)
      ensures r == Search(searchContext.strategy, collection.documents, query)
      ensures IsSubsequence(r, collection.documents)
    {
      var all := collection.GetAll();
      r := searchContext.ExecuteSearch(all, query);
    }

    /** `searchDocuments(query, strategy)`: the strategy is installed (a `null` one is ignored) and then used. */
    method SearchDocumentsWith(query: Option<string>, strategy: Option<Strategy>) returns (r: seq<Document>)
      modifies searchContext
      ensures searchContext.strategy == if strategy.Some? then strategy.value else old(searchContext.strategy)
      ensures r == Search(searchContext.strategy, collection.documents, query)
    {
      searchContext.SetStrategy(strategy);
      var all := collection.GetAll();
      r := searchContext.ExecuteSearch(all, query);
    }

    method GetAllDocuments() returns (r: seq<Document>)
      ensures r == collection.documents
    {
      r := collection.GetAll();
    }

    /** `getAvailableDocuments`: the documents not on loan, in collection order. */
    method GetAvailableDocuments() returns (r: seq<Document>)
      ensures r == AvailableDocuments(collection.documents)
    {
      var all := collection.GetAll();
      r := [];
      for i := 0 to |all|
        invariant r == AvailableDocuments(all[..i])
      {
        assert all[..i + 1] == all[..i] + [all[i]];
        AvailableDocumentsAppend(all[..i], [all[i]]);
        if all[i].available {
          r := r + [all[i]];
        }
      }
      assert all[..|all|] == all;
    }

    /** `removeDocument`: an unknown or lent document is refused; otherwise it goes and the store is rewritten. */
    method RemoveDocument(documentId: string) returns (r: Result<bool, LibraryError>)
      requires Valid()
      modifies collection, persistence
      ensures Valid()
      ensures var o := LibraryState.RemoveDocument(old(Current()), documentId);
        Current() == o.state && r == o.result
      ensures r.Success? ==> SavedAs(Current(), persistence.files)
      ensures r.Failure? ==> persistence.files == old(persistence.files)
    {
      var found := FindDocumentById(documentId);
      if found.None? {
        return Failure(DocumentNotFound(documentId));
      }
      if !found.value.available {
        return Failure(DocumentOnLoan);
      }
      RemovePassed(Current(), documentId);
      Drop(found.value);
      SaveData();
      r := Success(true);
    }

    /** `documents.remove(document)` on the collection. */
    method Drop(document: Document)
      requires Valid()
      modifies collection
      ensures Valid()
      ensures Current() == WithoutDocument(old(Current()), document)
    {
      collection.Remove(document);
      Untouched();
    }

    // ---------------------------------------------------------------- users

    /** `registerUser`: a taken id is refused; otherwise the object is registered and the store rewritten. */
    method RegisterUser(user: User) returns (r: Result<(), LibraryError>)
      requires Valid()
      modifies this, persistence
      ensures Valid()
      ensures var o := LibraryState.RegisterUser(old(Current()), user.Snapshot());
        Current() == o.state && r == o.result
      ensures r.Success? ==> users == old(users)[user.userId := user] && SavedAs(Current(), persistence.files)
      ensures r.Failure? ==> persistence.files == old(persistence.files)
    {
      if user.userId in users {
        return Failure(DuplicateUser(user.userId));
      }
      PutUser(user);
      SaveData();
      r := Success(());
    }

    /** `users.put(user.getUserId(), user)`. */
    method PutUser(user: User)
      requires Valid()
      modifies this
      ensures Valid()
      ensures Current() == WithUser(old(Current()), user.Snapshot())
      ensures users == old(users)[user.userId := user] && loans == old(loans)
    {
      ghost var before := UserSnapshotsOf(users);
      UserSnapshotsPut(users, user.userId, user);
      users := users[user.userId := user];
      assert UserSnapshots() == before[user.userId := user.Snapshot()] by {
        UserSnapshotsUnchanged(old(users));
      }
      LoanSnapshotsUnchanged(loans);
    }

    /** `findUserById`: the registered object, or the not-found exception. */
    method FindUserById(userId: string) returns (r: Result<User, LibraryError>)
      ensures r.Success? <==> userId in users
      ensures r.Success? ==> r.value == users[userId] && r.value.Snapshot() == FindUser(Current(), userId).value
      ensures r.Failure? ==> r.error == UserNotFound(userId)
    {
      if userId !in users {
        return Failure(UserNotFound(userId));
      }
      r := Success(users[userId]);
    }

    /** `getAllUsers`: every registered object once, in the registry's own order. */
    method GetAllUsers() returns (r: seq<User>)
      requires Valid()
      ensures forall k :: k in users ==> users[k] in r
      ensures forall i :: 0 <= i < |r| ==> r[i] in users.Values
      ensures forall i, j :: 0 <= i < j < |r| ==> r[i] != r[j]
    {
      ghost var ks;
      r, ks := UserList();
    }

    /** `new ArrayList<>(users.values())`: the objects in some order of the keys. */
    method UserList() returns (us: seq<User>, ghost ks: seq<string>)
      ensures KeyOrder(ks, users.Keys)
      ensures |us| == |ks| && forall i :: 0 <= i < |ks| ==> us[i] == users[ks[i]]
    {
      var rest := users.Keys;
      us, ks := [], [];
      while rest != {}
        invariant rest <= users.Keys
        invariant forall k :: k in users.Keys ==> k in rest || k in ks
        invariant forall i :: 0 <= i < |ks| ==> ks[i] in users && ks[i] !in rest
        invariant forall i, j :: 0 <= i < j < |ks| ==> ks[i] != ks[j]
        invariant |us| == |ks| && forall i :: 0 <= i < |ks| ==> us[i] == users[ks[i]]
        decreases rest
      {
        var k :| k in rest;
        us, ks := us + [users[k]], ks + [k];
        rest := rest - {k};
      }
    }

    // ---------------------------------------------------------------- loans

    /**
     * `createLoan`: the user must exist and be under quota, the document must exist and be
     * available; then an id is drawn from the counter, the loan (due fourteen days after
     * `today`) is made, the document marked lent, the id added to the user's list, the loan
     * registered, the observers told and the store rewritten.
     */
    method CreateLoan(userId: string, documentId: string, today: int, failing: set<ObserverId>) returns (r: Result<Loan, LibraryError>)
      requires Valid()
      modifies this, collection, users.Values, notifications, persistence
      ensures Valid()
      ensures Current() == LibraryState.CreateLoan(old(Current()), userId, documentId, today).state
      ensures r.Success? <==> LibraryState.CreateLoan(old(Current()), userId, documentId, today).result.Success?
      ensures r.Failure? ==> r.error == LibraryState.CreateLoan(old(Current()), userId, documentId, today).result.error
      ensures r.Success? ==> r.value.Snapshot() == LibraryState.CreateLoan(old(Current()), userId, documentId, today).result.value
      ensures r.Success? ==> fresh(r.value) && loans == old(loans)[r.value.loanId := r.value]
      ensures notifications.observers == old(notifications.observers)
      ensures notifications.log == old(notifications.log) +
                if r.Success? then Deliveries(notifications.observers, LoanCreatedMessage(userId, documentId), failing) else []
      ensures r.Success? ==> SavedAs(Current(), persistence.files)
      ensures r.Failure? ==> persistence.files == old(persistence.files)
    {
      var found := FindUserById(userId);
      if found.Failure? {
        return Failure(found.error);
      }
      var user := found.value;
      if !user.CanBorrow() {
        return Failure(LoanLimitReached);
      }
      var index := FindDocumentIndex(documentId);
      if index.None? {
        return Failure(DocumentNotFound(documentId));
      }
      var i := index.value;
      if !collection.documents[i].available {
        return Failure(DocumentUnavailable);
      }
      CreateLoanGranted(Current(), userId, documentId, today, i);
      var loan := Grant(userId, user, i, documentId, today, failing);
      r := Success(loan);
    }

    /** The success path of `createLoan`: the changes, the notification and the save. */
    method Grant(userId: string, user: User, i: nat, documentId: string, today: int, failing: set<ObserverId>) returns (loan: Loan)
      requires Valid() && userId in users && users[userId] == user
      requires i < |collection.documents|
      modifies this, collection, user, notifications, persistence
      ensures Valid()
      ensures loan.Snapshot() == NewLoan(LoanId(old(counter)), userId, documentId, today, today + LOAN_PERIOD)
      ensures Current() == Lent(old(Current()), userId, i, NewLoan(LoanId(old(counter)), userId, documentId, today, today + LOAN_PERIOD))
      ensures fresh(loan) && loans == old(loans)[loan.loanId := loan]
      ensures notifications.observers == old(notifications.observers)
      ensures notifications.log == old(notifications.log) + Deliveries(notifications.observers, LoanCreatedMessage(userId, documentId), failing)
      ensures SavedAs(Current(), persistence.files)
    {
      loan := Lend(userId, user, i, documentId, today);
      label Lent:
      PublishLoanCreated(userId, documentId, failing);
      LoanKept@Lent(loan);
    }

    /** The changes `createLoan` makes once every check has passed, up to the notification. */
    method Lend(userId: string, user: User, i: nat, documentId: string, today: int) returns (loan: Loan)
      requires Valid() && userId in users && users[userId] == user
      requires i < |collection.documents|
      modifies this, collection, user
      ensures Valid()
      ensures loan.Snapshot() == NewLoan(LoanId(old(counter)), userId, documentId, today, today + LOAN_PERIOD)
      ensures Current() == Lent(old(Current()), userId, i, NewLoan(LoanId(old(counter)), userId, documentId, today, today + LOAN_PERIOD))
      ensures fresh(loan) && users == old(users) && loans == old(loans)[loan.loanId := loan]
    {
      loan := IssueLoan(userId, documentId, today);
      label Issued:
      Checkout(user, i, documentId);
      PutLoan(loan);
      LoanKept@Issued(loan);
    }

    /** The id drawn from the counter (`loanIdCounter++`) and the new loan, due fourteen days after `today`. */
    method IssueLoan(userId: string, documentId: string, today: int) returns (loan: Loan)
      requires Valid()
      modifies this
      ensures Valid()
      ensures loan.Snapshot() == NewLoan(LoanId(old(counter)), userId, documentId, today, today + LOAN_PERIOD)
      ensures Current() == Advanced(old(Current()))
      ensures fresh(loan) && users == old(users) && loans == old(loans)
    {
      var loanId := LoanId(counter);
      counter := Inc32(counter);
      loan := new Loan(loanId, userId, documentId, today, today + LOAN_PERIOD);
      RegistriesUntouched();
    }

    /** `document.setAvailable(false)` and `user.addLoan(documentId)`. */
    method Checkout(user: User, i: nat, documentId: string)
      requires Valid() && user.userId in users && users[user.userId] == user
      requires i < |collection.documents|
      modifies collection, user
      ensures Valid()
      ensures Current() == CheckedOut(old(Current()), user.userId, i, documentId)
    {
      assert forall j :: j in users && j != user.userId ==> users[j] != user;
      collection.SetAvailable(i, false);
      user.AddLoan(documentId);
      OneUserChanged(user.userId);
      LoanSnapshotsUnchanged(loans);
    }

    /** `loans.put(loanId, loan)`. */
    method PutLoan(loan: Loan)
      requires Valid()
      modifies this
      ensures Valid()
      ensures Current() == WithLoan(old(Current()), loan.Snapshot())
      ensures users == old(users) && loans == old(loans)[loan.loanId := loan]
    {
      LoanSnapshotsPut(loans, loan.loanId, loan);
      loans := loans[loan.loanId := loan];
      UserSnapshotsUnchanged(users);
      LoanSnapshotsUnchanged(old(loans));
    }

    /**
     * `returnDocument`: an unknown or returned loan is refused; the document and the user are
     * looked up, a missing user failing before any change. The loan is marked returned; a
     * missing document then fails (the loan stays returned, nothing is saved). Otherwise the
     * document is available again, the user's list loses the id, the observers are told and
     * the store is rewritten.
     */
    method ReturnDocument(loanId: string, today: int, failing: set<ObserverId>) returns (r: Result<(), LibraryError>)
      requires Valid()
      modifies collection, users.Values, loans.Values, notifications, persistence
      ensures Valid()
      ensures var o := LibraryState.ReturnDocument(old(Current()), loanId, today);
        Current() == o.state && r == o.result
      ensures notifications.observers == old(notifications.observers)
      ensures notifications.log == old(notifications.log) +
                if r.Success? then Deliveries(notifications.observers, ReturnMessage(old(Current()), loanId), failing) else []
      ensures r.Success? ==> SavedAs(Current(), persistence.files)
      ensures r.Failure? ==> persistence.files == old(persistence.files)
    {
      if loanId !in loans {
        return Failure(LoanNotFound(loanId));
      }
      var loan := loans[loanId];
      if loan.status == RETURNED {
        return Failure(AlreadyReturned);
      }
      var found := FindUserById(loan.userId);
      if found.Failure? {
        return Failure(found.error);
      }
      r := ReturnOpenLoan(loanId, found.value, today, failing);
    }

    /** A return of an open loan whose user is registered: look the document up, then close the loan. */
    method ReturnOpenLoan(loanId: string, user: User, today: int, failing: set<ObserverId>) returns (r: Result<(), LibraryError>)
      requires Valid() && loanId in loans && loans[loanId].status != RETURNED
      requires loans[loanId].userId in users && users[loans[loanId].userId] == user
      modifies collection, user, loans[loanId], notifications, persistence
      ensures Valid()
      ensures var o := LibraryState.ReturnDocument(old(Current()), loanId, today);
        Current() == o.state && r == o.result
      ensures notifications.observers == old(notifications.observers)
      ensures notifications.log == old(notifications.log) +
                if r.Success? then Deliveries(notifications.observers, ReturnMessage(old(Current()), loanId), failing) else []
      ensures r.Success? ==> SavedAs(Current(), persistence.files)
      ensures r.Failure? ==> persistence.files == old(persistence.files)
    {
      var index := FindDocumentIndex(loans[loanId].documentId);
      ReturnDocumentPassed(Current(), loanId, today, index);
      r := Finish(loanId, user, index, today, failing);
    }

    /** From `loan.returnDocument()` on: the loan is closed, and if the document is there the return completes. */
    method Finish(loanId: string, user: User, index: Option<nat>, today: int, failing: set<ObserverId>) returns (r: Result<(), LibraryError>)
      requires Valid() && loanId in loans && loans[loanId].userId in users && users[loans[loanId].userId] == user
      requires index.Some? ==> index.value < |collection.documents| && collection.documents[index.value].id == loans[loanId].documentId
      modifies collection, user, loans[loanId], notifications, persistence
      ensures Valid()
      ensures var closed := Closed(old(Current()), loanId, today);
        Current() == if index.None? then closed else GivenBack(closed, old(loans[loanId].userId), index.value, old(loans[loanId].documentId))
      ensures r == if index.None? then Failure(ReturnFailed) else Success(())
      ensures notifications.observers == old(notifications.observers)
      ensures notifications.log == old(notifications.log) +
                if index.None? then [] else Deliveries(notifications.observers, ReturnMessage(old(Current()), loanId), failing)
      ensures index.Some? ==> SavedAs(Current(), persistence.files)
      ensures index.None? ==> persistence.files == old(persistence.files)
    {
      var documentId := loans[loanId].documentId;
      CloseLoan(loanId, today);
      if index.None? {
        return Failure(ReturnFailed);
      }
      Complete(user, index.value, documentId, failing);
      r := Success(());
    }

    /** The rest of a return whose document is present: the changes, the notification and the save. */
    method Complete(user: User, i: nat, documentId: string, failing: set<ObserverId>)
      requires Valid() && user.userId in users && users[user.userId] == user
      requires i < |collection.documents| && collection.documents[i].id == documentId
      modifies collection, user, notifications, persistence
      ensures Valid()
      ensures Current() == GivenBack(old(Current()), old(user.userId), i, documentId)
      ensures notifications.observers == old(notifications.observers)
      ensures notifications.log == old(notifications.log) + Deliveries(notifications.observers, LoanReturnedMessage(old(user.userId), documentId), failing)
      ensures SavedAs(Current(), persistence.files)
    {
      var userId := user.userId;
      Restore(user, i, documentId);
      PublishLoanReturned(userId, documentId, failing);
    }

    /** `loan.returnDocument()` on the registered loan. */
    method CloseLoan(loanId: string, today: int)
      requires Valid() && loanId in loans
      modifies loans[loanId]
      ensures Valid()
      ensures Current() == Closed(old(Current()), loanId, today)
    {
      assert forall j :: j in loans && j != loanId ==> loans[j] != loans[loanId];
      loans[loanId].ReturnDocument(today);
      UserSnapshotsUnchanged(users);
      OneLoanChanged(loanId);
    }

    /** The document at `i` made available again and the id off the user's list. */
    method Restore(user: User, i: nat, documentId: string)
      requires Valid() && user.userId in users && users[user.userId] == user
      requires i < |collection.documents|
      modifies collection, user
      ensures Valid()
      ensures Current() == GivenBack(old(Current()), user.userId, i, documentId)
    {
      assert forall j :: j in users && j != user.userId ==> users[j] != user;
      collection.SetAvailable(i, true);
      user.RemoveLoan(documentId);
      OneUserChanged(user.userId);
      LoanSnapshotsUnchanged(loans);
    }

    /** `notifyLoanCreated` on the subject and then `saveData`, which leave the service's own state alone. */
    method PublishLoanCreated(userId: string, documentId: string, failing: set<ObserverId>)
      modifies notifications, persistence
      ensures notifications.observers == old(notifications.observers)
      ensures notifications.log == old(notifications.log) + Deliveries(notifications.observers, LoanCreatedMessage(userId, documentId), failing)
      ensures Current() == old(Current()) && (old(Valid()) ==> Valid())
      ensures SavedAs(Current(), persistence.files)
    {
      notifications.NotifyLoanCreated(userId, documentId, failing);
      RegistriesUntouched();
      SaveData();
    }

    /** `notifyLoanReturned` on the subject and then `saveData`, which leave the service's own state alone. */
    method PublishLoanReturned(userId: string, documentId: string, failing: set<ObserverId>)
      modifies notifications, persistence
      ensures notifications.observers == old(notifications.observers)
      ensures notifications.log == old(notifications.log) + Deliveries(notifications.observers, LoanReturnedMessage(userId, documentId), failing)
      ensures Current() == old(Current()) && (old(Valid()) ==> Valid())
      ensures SavedAs(Current(), persistence.files)
    {
      notifications.NotifyLoanReturned(userId, documentId, failing);
      RegistriesUntouched();
      SaveData();
    }

    // ---------------------------------------------------------------- queries

    /** The loans whose value satisfies `keep`, each once, in some order of the keys. */
    method SelectLoans(keep: LoanRecord -> bool) returns (r: seq<Loan>, ghost ks: seq<string>)
      ensures KeyOrder(ks, set k | k in LoanSnapshots() && keep(LoanSnapshots()[k]))
      ensures |r| == |ks| && forall i :: 0 <= i < |ks| ==> r[i] == loans[ks[i]]
      ensures forall k :: k in loans && loans[k] in r ==> keep(loans[k].Snapshot())
    {
      var all, allKeys := LoanList();
      ghost var snap := LoanSnapshots();
      r, ks := FilterLoans(all, allKeys, loans, snap, keep);
      KeysWhereOrder(allKeys, snap, keep);
    }

    /** Loans listed once per key of a sub-map of the registry are exactly that sub-map's loans. */
    lemma {:induction false} SelectedLoans(r: seq<Loan>, ks: seq<string>, selected: map<string, LoanRecord>)
      requires selected.Keys <= loans.Keys
      requires KeyOrder(ks, selected.Keys)
      requires |r| == |ks| && forall i :: 0 <= i < |ks| ==> r[i] == loans[ks[i]]
      requires forall k :: k in selected ==> selected[k] == loans[k].Snapshot()
      requires forall k :: k in loans && loans[k] in r ==> k in selected
      ensures forall i :: 0 <= i < |r| ==> r[i] in loans.Values
      ensures forall k :: k in loans ==> (loans[k] in r <==> k in selected)
      ensures |r| == |selected|
    {
      KeyOrderCardinality(ks, selected.Keys);
      forall k | k in selected ensures loans[k] in r {
        var i :| 0 <= i < |ks| && ks[i] == k;
        assert r[i] == loans[k];
      }
    }

    /** `getActiveLoans`: the loans whose stored status is ACTIVE. */
    method GetActiveLoans() returns (r: seq<Loan>)
      ensures forall i :: 0 <= i < |r| ==> r[i] in loans.Values
      ensures forall k :: k in loans ==> (loans[k] in r <==> k in ActiveLoans(Current()))
      ensures |r| == |ActiveLoans(Current())|
    {
      ghost var ks;
      r, ks := SelectLoans((l: LoanRecord) => l.status == ACTIVE);
      assert (set k | k in LoanSnapshots() && LoanSnapshots()[k].status == ACTIVE) == ActiveLoans(Current()).Keys;
      SelectedLoans(r, ks, ActiveLoans(Current()));
    }

    /** `getOverdueLoans`: the loans past their due date on `today` and not returned. */
    method GetOverdueLoans(today: int) returns (r: seq<Loan>)
      ensures forall i :: 0 <= i < |r| ==> r[i] in loans.Values
      ensures forall k :: k in loans ==> (loans[k] in r <==> k in OverdueLoans(Current(), today))
      ensures |r| == |OverdueLoans(Current(), today)|
    {
      ghost var ks;
      r, ks := SelectLoans((l: LoanRecord) => IsOverdue(l, today));
      assert (set k | k in LoanSnapshots() && IsOverdue(LoanSnapshots()[k], today)) == OverdueLoans(Current(), today).Keys;
      SelectedLoans(r, ks, OverdueLoans(Current(), today));
    }

    /** `getUserLoans`: every loan the user made, of any status. */
    method GetUserLoans(userId: string) returns (r: seq<Loan>)
      ensures forall i :: 0 <= i < |r| ==> r[i] in loans.Values
      ensures forall k :: k in loans ==> (loans[k] in r <==> k in UserLoans(Current(), userId))
      ensures |r| == |UserLoans(Current(), userId)|
    {
      ghost var ks;
      r, ks := SelectLoans((l: LoanRecord) => l.userId == userId);
      assert (set k | k in LoanSnapshots() && LoanSnapshots()[k].userId == userId) == UserLoans(Current(), userId).Keys;
      SelectedLoans(r, ks, UserLoans(Current(), userId));
    }

    /** `getStatistics`: the sizes of the collection, of the available list, of the users and of the two loan queries. */
    method GetStatistics(today: int) returns (stats: map<string, int>)
      ensures stats == Statistics(Current(), today)
    {
      var available := GetAvailableDocuments();
      var active := GetActiveLoans();
      var overdue := GetOverdueLoans(today);
      stats := map[
        "totalDocuments" := collection.Size(),
        "availableDocuments" := |available|,
        "totalUsers" := |users|,
        "activeLoans" := |active|,
        "overdueLoans" := |overdue|];
    }

    // ---------------------------------------------------------------- persistence

    /** `new ArrayList<>(loans.values())`. */
    method LoanList() returns (ls: seq<Loan>, ghost ks: seq<string>)
      ensures KeyOrder(ks, loans.Keys)
      ensures |ls| == |ks| && forall i :: 0 <= i < |ks| ==> ls[i] == loans[ks[i]]
    {
      var rest := loans.Keys;
      ls, ks := [], [];
      while rest != {}
        invariant rest <= loans.Keys
        invariant forall k :: k in loans.Keys ==> k in rest || k in ks
        invariant forall i :: 0 <= i < |ks| ==> ks[i] in loans && ks[i] !in rest
        invariant forall i, j :: 0 <= i < j < |ks| ==> ks[i] != ks[j]
        invariant |ls| == |ks| && forall i :: 0 <= i < |ks| ==> ls[i] == loans[ks[i]]
        decreases rest
      {
        var k :| k in rest;
        ls, ks := ls + [loans[k]], ks + [k];
        rest := rest - {k};
      }
    }

    /** `saveData`: the documents in order, then the users, then the loans, each file rewritten whole. */
    method SaveData()
      modifies persistence
      ensures SavedAs(Current(), persistence.files)
      ensures Current() == old(Current()) && (old(Valid()) ==> Valid())
    {
      var all, us, ls, urecs, lrecs := StoreLists();
      WriteStore(persistence, all, us, ls, urecs, lrecs);
      Untouched();
    }

    /** The lists `saveData` writes, and the proof that writing them saves the service. */
    method StoreLists() returns (all: seq<Document>, us: seq<User>, ls: seq<Loan>,
                                 ghost urecs: seq<UserRecord>, ghost lrecs: seq<LoanRecord>)
      ensures urecs == UserRecords(us) && lrecs == LoanRecords(ls)
      ensures SavedAs(Current(), persistence.files[DOCUMENTS_FILE := DocumentLines(all)]
                [USERS_FILE := UserLines(urecs)][LOANS_FILE := LoanLines(lrecs)])
    {
      all := collection.GetAll();
      ghost var uks, lks;
      us, uks := UserList();
      ls, lks := LoanList();
      urecs, lrecs := UserRecords(us), LoanRecords(ls);
      SavedFromOrders(Current(), persistence.files[DOCUMENTS_FILE := DocumentLines(all)]
        [USERS_FILE := UserLines(urecs)][LOANS_FILE := LoanLines(lrecs)], uks, urecs, lks, lrecs);
    }

    /** Only the user under `k` changed, and no other entry is the same object. */
    twostate lemma {:induction false} OneUserChanged(k: string)
      requires users == old(users) && k in users
      requires forall j :: j in users && j != k ==> users[j] != users[k]
      requires forall j :: j in users && j != k ==> unchanged(users[j])
      ensures UserSnapshots() == old(UserSnapshots())[k := users[k].Snapshot()]
    {
    }

    /** Only the loan under `k` changed, and no other entry is the same object. */
    twostate lemma {:induction false} OneLoanChanged(k: string)
      requires loans == old(loans) && k in loans
      requires forall j :: j in loans && j != k ==> loans[j] != loans[k]
      requires forall j :: j in loans && j != k ==> unchanged(loans[j])
      ensures LoanSnapshots() == old(LoanSnapshots())[k := loans[k].Snapshot()]
    {
    }

    /** The registries hold the same objects, and none of them has changed. */
    twostate lemma {:induction false} RegistriesUntouched()
      requires users == old(users) && loans == old(loans)
      requires forall k :: k in users ==> unchanged(users[k])
      requires forall k :: k in loans ==> unchanged(loans[k])
      ensures UserSnapshots() == old(UserSnapshots()) && LoanSnapshots() == old(LoanSnapshots())
    {
      UserSnapshotsUnchanged(users);
      LoanSnapshotsUnchanged(loans);
    }

    /** Nothing the registries or the subject hold has changed since the start of the calling method. */
    twostate lemma {:induction false} Untouched()
      requires unchanged(this, notifications)
      requires forall k :: k in users ==> unchanged(users[k])
      requires forall k :: k in loans ==> unchanged(loans[k])
      ensures UserSnapshots() == old(UserSnapshots()) && LoanSnapshots() == old(LoanSnapshots())
      ensures old(Valid()) ==> Valid()
    {
      UserSnapshotsUnchanged(users);
      LoanSnapshotsUnchanged(loans);
    }
  }
}
