/**
 * The flat-file store: one pipe-delimited line per document, user and loan, written in list
 * order and read back line by line. A line that splits into too few fields reads as `null`
 * and is dropped; one whose enum name, date or number does not parse throws, and the loader
 * skips it too. The text files themselves are a map from file name to lines.
 */
module DataPersistence {
  import opened Wrappers
  import opened Text
  import opened Documents
  import opened Users
  import opened Loans

  const DOCUMENTS_FILE: string := "documents.txt"
  const USERS_FILE: string := "users.txt"
  const LOANS_FILE: string := "loans.txt"
  const DELIMITER: char := '|'

  /** What decoding one line gives: an entity, `null` (too few fields), or an exception. */
  datatype LineResult<T> = Entity(value: T) | Null | Threw

  // ---------------------------------------------------------------- enum names

  function DocumentTypeName(t: DocumentType): string
  {
    match t
    case BOOK => "BOOK"
    case MAGAZINE => "MAGAZINE"
    case DVD => "DVD"
    case NEWSPAPER => "NEWSPAPER"
  }

  /** `DocumentType.valueOf`: exactly the constant names; anything else throws. */
  function ParseDocumentType(s: string): (r: Option<DocumentType>)
    ensures r.Some? ==> DocumentTypeName(r.value) == s
    ensures forall t :: DocumentTypeName(t) == s ==> r == Some(t)
  {
    if s == "BOOK" then Some(BOOK)
    else if s == "MAGAZINE" then Some(MAGAZINE)
    else if s == "DVD" then Some(DVD)
    else if s == "NEWSPAPER" then Some(NEWSPAPER)
    else None
  }

  function UserTypeName(t: UserType): string
  {
    match t
    case STUDENT => "STUDENT"
    case TEACHER => "TEACHER"
    case EXTERNAL => "EXTERNAL"
  }

  /** `UserType.valueOf`. */
  function ParseUserType(s: string): (r: Option<UserType>)
    ensures r.Some? ==> UserTypeName(r.value) == s
    ensures forall t :: UserTypeName(t) == s ==> r == Some(t)
  {
    if s == "STUDENT" then Some(STUDENT)
    else if s == "TEACHER" then Some(TEACHER)
    else if s == "EXTERNAL" then Some(EXTERNAL)
    else None
  }

  function StatusName(s: LoanStatus): string
  {
    match s
    case ACTIVE => "ACTIVE"
    case RETURNED => "RETURNED"
    case OVERDUE => "OVERDUE"
  }

  /** `LoanStatus.valueOf`. */
  function ParseStatus(s: string): (r: Option<LoanStatus>)
    ensures r.Some? ==> StatusName(r.value) == s
    ensures forall t :: StatusName(t) == s ==> r == Some(t)
  {
    if s == "ACTIVE" then Some(ACTIVE)
    else if s == "RETURNED" then Some(RETURNED)
    else if s == "OVERDUE" then Some(OVERDUE)
    else None
  }

  // ---------------------------------------------------------------- documents

  /** `type|id|title|author|pubDate|available`, then the kind's three fields in declared order. */
  function DocumentFields(d: Document): (fs: seq<string>)
    ensures |fs| == 9
  {
    [DocumentTypeName(TypeOf(d)), d.id, d.title, d.author, DateToString(d.publicationDate), BoolToString(d.available)]
    + match d.details
      case BookDetails(isbn, pages, genre) => [isbn, IntToString(pages), genre]
      case MagazineDetails(issue, publisher, frequency) => [IntToString(issue), publisher, frequency]
  }

  /** `serializeDocument`. */
  function SerializeDocument(d: Document): string
  {
    Join(DocumentFields(d), DELIMITER)
  }

  /** `deserializeDocument`. */
  function DeserializeDocument(line: string): LineResult<Document>
  {
    var parts := Split(line, DELIMITER);
    if |parts| < 6 then Null
    else match ParseDocumentType(parts[0])
      case None => Threw
      case Some(t) =>
        match ParseDate(parts[4])
        case None => Threw
        case Some(date) =>
          var available := ParseBoolean(parts[5]);
          if t == BOOK && |parts| >= 9 then
            match ParseInt(Some(parts[7]))
            case None => Threw
            case Some(pages) => Entity(Document(parts[1], parts[2], parts[3], date, available, BookDetails(parts[6], pages, parts[8])))
          else if t == MAGAZINE && |parts| >= 9 then
            match ParseInt(Some(parts[6]))
            case None => Threw
            case Some(issue) => Entity(Document(parts[1], parts[2], parts[3], date, available, MagazineDetails(issue, parts[7], parts[8])))
          else Null
  }

  /** The text fields of a document hold no delimiter and its last field is not empty. */
  predicate StorableDocument(d: Document)
  {
    && DELIMITER !in d.id && DELIMITER !in d.title && DELIMITER !in d.author
    && match d.details
       case BookDetails(isbn, _, genre) => DELIMITER !in isbn && DELIMITER !in genre && genre != []
       case MagazineDetails(_, publisher, frequency) => DELIMITER !in publisher && DELIMITER !in frequency && frequency != []
  }

  /** A stored document reads back as itself, `available` flag included. */
  lemma {:induction false} DocumentRoundTrip(d: Document)
    requires StorableDocument(d)
    ensures DeserializeDocument(SerializeDocument(d)) == Entity(d)
  {
    var fs := DocumentFields(d);
    assert Split(SerializeDocument(d), DELIMITER) == fs by {
      assert DELIMITER !in BoolToString(d.available);
      assert forall i :: 0 <= i < |fs| ==> DELIMITER !in fs[i];
      SplitJoinExact(fs, DELIMITER);
    }
    assert ParseDocumentType(fs[0]) == Some(TypeOf(d));
    assert ParseDate(fs[4]) == Some(d.publicationDate) by { ParseDateToString(d.publicationDate); }
    assert ParseBoolean(fs[5]) == d.available by { ParseBooleanToString(d.available); }
    match d.details
    case BookDetails(_, pages, _) =>
      assert ParseInt(Some(fs[7])) == Some(pages) by { ParseIntToString(pages); }
    case MagazineDetails(issue, _, _) =>
      assert ParseInt(Some(fs[6])) == Some(issue) by { ParseIntToString(issue); }
  }

  /** A line of fewer than six fields, or of six to eight, is `null` whatever it says. */
  lemma {:induction false} ShortDocumentLine(line: string)
    requires |Split(line, DELIMITER)| < 9
    ensures DeserializeDocument(line) != Threw ==> DeserializeDocument(line) == Null
  {
  }

  /** DVD and NEWSPAPER lines are never loaded, however well formed. */
  lemma {:induction false} UnsupportedKindLine(line: string)
    requires |Split(line, DELIMITER)| >= 6
    requires Split(line, DELIMITER)[0] == "DVD" || Split(line, DELIMITER)[0] == "NEWSPAPER"
    ensures !DeserializeDocument(line).Entity?
  {
  }

  /** The `available` field never throws: `TRUE` and `True` load as available, anything else as not. */
  lemma {:induction false} AvailableFieldLenient(d: Document, flag: string)
    requires StorableDocument(d)
    ensures var fs := DocumentFields(d)[5 := flag];
      DELIMITER !in flag ==>
        DeserializeDocument(Join(fs, DELIMITER)) == Entity(d.(available := ParseBoolean(flag)))
  {
    if DELIMITER !in flag {
      var fs := DocumentFields(d)[5 := flag];
      assert forall i :: 0 <= i < |fs| ==> DELIMITER !in fs[i];
      ParseDateToString(d.publicationDate);
      match d.details
      case BookDetails(_, pages, _) =>
        ParseIntToString(pages);
        DecodeNineFields(fs);
      case MagazineDetails(issue, _, _) =>
        ParseIntToString(issue);
        DecodeNineFields(fs);
    }
  }

  /** Nine delimiter-free fields, the last non-empty, read back field by field. */
  lemma {:induction false} DecodeNineFields(fs: seq<string>)
    requires |fs| == 9 && fs[8] != [] && forall i :: 0 <= i < 9 ==> DELIMITER !in fs[i]
    ensures DeserializeDocument(Join(fs, DELIMITER)) == DeserializeParts(fs)
  {
    SplitJoinExact(fs, DELIMITER);
  }

  /** What `deserializeDocument` makes of a line already split into at least nine fields. */
  function DeserializeParts(parts: seq<string>): LineResult<Document>
    requires |parts| >= 9
  {
    match ParseDocumentType(parts[0])
    case None => Threw
    case Some(t) =>
      match ParseDate(parts[4])
      case None => Threw
      case Some(date) =>
        var available := ParseBoolean(parts[5]);
        if t == BOOK then
          match ParseInt(Some(parts[7]))
          case None => Threw
          case Some(pages) => Entity(Document(parts[1], parts[2], parts[3], date, available, BookDetails(parts[6], pages, parts[8])))
        else if t == MAGAZINE then
          match ParseInt(Some(parts[6]))
          case None => Threw
          case Some(issue) => Entity(Document(parts[1], parts[2], parts[3], date, available, MagazineDetails(issue, parts[7], parts[8])))
        else Null
  }

  // ---------------------------------------------------------------- users

  /** `userId|name|email|phone|registrationDate|userType|loan,loan,...` */
  function UserFields(u: UserRecord): (fs: seq<string>)
    ensures |fs| == 7
  {
    [u.userId, u.name, u.email, u.phone, DateToString(u.registrationDate), UserTypeName(u.userType), Join(u.currentLoans, ',')]
  }

  /** `serializeUser`. */
  function SerializeUser(u: UserRecord): string
  {
    Join(UserFields(u), DELIMITER)
  }

  /** `deserializeUser`: the loan list is read only from a seventh field that is not empty. */
  function DeserializeUser(line: string): LineResult<UserRecord>
  {
    var parts := Split(line, DELIMITER);
    if |parts| < 6 then Null
    else match ParseUserType(parts[5])
      case None => Threw
      case Some(t) =>
        match ParseDate(parts[4])
        case None => Threw
        case Some(date) =>
          var loans := if |parts| >= 7 && parts[6] != [] then Split(parts[6], ',') else [];
          Entity(UserRecord(parts[0], parts[1], parts[2], parts[3], date, t, loans))
  }

  /** A user line of fewer than six fields is `null`, and is dropped. */
  lemma {:induction false} ShortUserLine(line: string)
    requires |Split(line, DELIMITER)| < 6
    ensures DeserializeUser(line) == Null
  {
  }

  /** No field holds the delimiter, and every held loan id is non-empty and free of commas. */
  predicate StorableUser(u: UserRecord)
  {
    && DELIMITER !in u.userId && DELIMITER !in u.name && DELIMITER !in u.email && DELIMITER !in u.phone
    && forall i :: 0 <= i < |u.currentLoans| ==>
         u.currentLoans[i] != [] && DELIMITER !in u.currentLoans[i] && ',' !in u.currentLoans[i]
  }

  /** A stored user reads back with every field and the held loans in order; no loans reads back as none. */
  lemma {:induction false} UserRoundTrip(u: UserRecord)
    requires StorableUser(u)
    ensures DeserializeUser(SerializeUser(u)) == Entity(u)
  {
    var fs := UserFields(u);
    JoinAvoids(u.currentLoans, ',', DELIMITER);
    assert forall i :: 0 <= i < |fs| ==> DELIMITER !in fs[i];
    ParseDateToString(u.registrationDate);
    if u.currentLoans == [] {
      SplitJoin(fs, DELIMITER);
      var r := DropTrailingEmpty(fs);
      assert fs[5] != [];
      assert |r| == 6;
      assert r == fs[..6];
    } else {
      JoinNonEmpty(u.currentLoans, ',');
      SplitJoinExact(fs, DELIMITER);
      SplitJoinExact(u.currentLoans, ',');
    }
  }

  lemma {:induction false} JoinNonEmpty(ps: seq<string>, sep: char)
    requires |ps| >= 1 && ps[0] != []
    ensures Join(ps, sep) != []
  {
    if |ps| > 1 {
      assert Join(ps, sep)[0] == ps[0][0];
    }
  }

  // ---------------------------------------------------------------- loans

  /** `loanId|userId|documentId|loanDate|dueDate|returnDate|status`, the return date empty while out. */
  function LoanFields(l: LoanRecord): (fs: seq<string>)
    ensures |fs| == 7
  {
    [l.loanId, l.userId, l.documentId, DateToString(l.loanDate), DateToString(l.dueDate),
     (match l.returnDate case Some(d) => DateToString(d) case None => ""), StatusName(l.status)]
  }

  /** `serializeLoan`. */
  function SerializeLoan(l: LoanRecord): string
  {
    Join(LoanFields(l), DELIMITER)
  }

  /** `deserializeLoan`: an empty return-date field means not returned; the status is taken verbatim. */
  function DeserializeLoan(line: string): LineResult<LoanRecord>
  {
    var parts := Split(line, DELIMITER);
    if |parts| < 7 then Null
    else match ParseDate(parts[3])
      case None => Threw
      case Some(loanDate) =>
        match ParseDate(parts[4])
        case None => Threw
        case Some(dueDate) =>
          if parts[5] != [] && ParseDate(parts[5]).None? then Threw
          else
            var returnDate := if parts[5] != [] then ParseDate(parts[5]) else None;
            match ParseStatus(parts[6])
            case None => Threw
            case Some(status) => Entity(LoanRecord(parts[0], parts[1], parts[2], loanDate, dueDate, returnDate, status))
  }

  /** A loan line of fewer than seven fields is `null`, and is dropped. */
  lemma {:induction false} ShortLoanLine(line: string)
    requires |Split(line, DELIMITER)| < 7
    ensures DeserializeLoan(line) == Null
  {
  }

  predicate StorableLoan(l: LoanRecord)
  {
    DELIMITER !in l.loanId && DELIMITER !in l.userId && DELIMITER !in l.documentId
  }

  /** A stored loan reads back as itself: return date, missing or not, and status as they were. */
  lemma {:induction false} LoanRoundTrip(l: LoanRecord)
    requires StorableLoan(l)
    ensures DeserializeLoan(SerializeLoan(l)) == Entity(l)
  {
    var fs := LoanFields(l);
    assert forall i :: 0 <= i < |fs| ==> DELIMITER !in fs[i];
    SplitJoinExact(fs, DELIMITER);
    ParseDateToString(l.loanDate);
    ParseDateToString(l.dueDate);
    if l.returnDate.Some? {
      ParseDateToString(l.returnDate.value);
    }
  }

  // ---------------------------------------------------------------- the load loops

  /** What a load loop returns: the entities of the lines that decode, in file order. */
  function Loaded<T>(lines: seq<string>, decode: string -> LineResult<T>): (r: seq<T>)
    ensures |r| <= |lines|
  {
    if lines == [] then []
    else
      var init := Loaded(lines[..|lines| - 1], decode);
      match decode(lines[|lines| - 1])
      case Entity(x) => init + [x]
      case _ => init
  }

  /** One more line read: its entity, if it has one, goes to the end. */
  lemma {:induction false} LoadedStep<T>(lines: seq<string>, i: nat, decode: string -> LineResult<T>)
    requires i < |lines|
    ensures Loaded(lines[..i + 1], decode)
      == Loaded(lines[..i], decode) + (if decode(lines[i]).Entity? then [decode(lines[i]).value] else [])
  {
    assert lines[..i + 1][..i] == lines[..i];
  }

  /** Loading a file is loading its first part, then its second: nothing is reordered. */
  lemma {:induction false} LoadedAppend<T>(a: seq<string>, b: seq<string>, decode: string -> LineResult<T>)
    ensures Loaded(a + b, decode) == Loaded(a, decode) + Loaded(b, decode)
  {
    if b == [] {
      assert a + b == a;
    } else {
      var b' := b[..|b| - 1];
      LoadedAppend(a, b', decode);
      assert (a + b)[..|a + b| - 1] == a + b';
    }
  }

  /** Every loaded entity is what some line decodes to. */
  lemma {:induction false} LoadedFromLines<T>(lines: seq<string>, decode: string -> LineResult<T>, k: nat)
    requires k < |Loaded(lines, decode)|
    ensures exists i :: 0 <= i < |lines| && decode(lines[i]) == Entity(Loaded(lines, decode)[k])
  {
    var init := Loaded(lines[..|lines| - 1], decode);
    if k < |init| {
      LoadedFromLines(lines[..|lines| - 1], decode, k);
      var i :| 0 <= i < |lines| - 1 && decode(lines[..|lines| - 1][i]) == Entity(init[k]);
      assert lines[..|lines| - 1][i] == lines[i];
    } else {
      assert decode(lines[|lines| - 1]) == Entity(Loaded(lines, decode)[k]);
    }
  }

  /** When every line decodes, the loop returns exactly the decoded entities. */
  lemma {:induction false} LoadedAll<T>(lines: seq<string>, decode: string -> LineResult<T>, xs: seq<T>)
    requires |xs| == |lines|
    requires forall i :: 0 <= i < |lines| ==> decode(lines[i]) == Entity(xs[i])
    ensures Loaded(lines, decode) == xs
  {
    if lines != [] {
      LoadedAll(lines[..|lines| - 1], decode, xs[..|xs| - 1]);
      assert xs == xs[..|xs| - 1] + [xs[|xs| - 1]];
    }
  }

  /** Lines that decode to nothing leave no trace. */
  lemma {:induction false} LoadedNone<T>(lines: seq<string>, decode: string -> LineResult<T>)
    requires forall i :: 0 <= i < |lines| ==> !decode(lines[i]).Entity?
    ensures Loaded(lines, decode) == []
  {
    if lines != [] {
      LoadedNone(lines[..|lines| - 1], decode);
    }
  }

  function DocumentLines(docs: seq<Document>): (lines: seq<string>)
    ensures |lines| == |docs|
  {
    seq(|docs|, i requires 0 <= i < |docs| => SerializeDocument(docs[i]))
  }

  function UserLines(users: seq<UserRecord>): (lines: seq<string>)
    ensures |lines| == |users|
  {
    seq(|users|, i requires 0 <= i < |users| => SerializeUser(users[i]))
  }

  function LoanLines(loans: seq<LoanRecord>): (lines: seq<string>)
    ensures |lines| == |loans|
  {
    seq(|loans|, i requires 0 <= i < |loans| => SerializeLoan(loans[i]))
  }

  /** Saving storable documents and loading them gives the same list back. */
  lemma {:induction false} DocumentsRoundTrip(docs: seq<Document>)
    requires forall i :: 0 <= i < |docs| ==> StorableDocument(docs[i])
    ensures Loaded(DocumentLines(docs), DeserializeDocument) == docs
  {
    var lines := DocumentLines(docs);
    forall i | 0 <= i < |lines| ensures DeserializeDocument(lines[i]) == Entity(docs[i]) {
      DocumentRoundTrip(docs[i]);
    }
    LoadedAll(lines, DeserializeDocument, docs);
  }

  lemma {:induction false} UsersRoundTrip(users: seq<UserRecord>)
    requires forall i :: 0 <= i < |users| ==> StorableUser(users[i])
    ensures Loaded(UserLines(users), DeserializeUser) == users
  {
    var lines := UserLines(users);
    forall i | 0 <= i < |lines| ensures DeserializeUser(lines[i]) == Entity(users[i]) {
      UserRoundTrip(users[i]);
    }
    LoadedAll(lines, DeserializeUser, users);
  }

  lemma {:induction false} LoansRoundTrip(loans: seq<LoanRecord>)
    requires forall i :: 0 <= i < |loans| ==> StorableLoan(loans[i])
    ensures Loaded(LoanLines(loans), DeserializeLoan) == loans
  {
    var lines := LoanLines(loans);
    forall i | 0 <= i < |lines| ensures DeserializeLoan(lines[i]) == Entity(loans[i]) {
      LoanRoundTrip(loans[i]);
    }
    LoadedAll(lines, DeserializeLoan, loans);
  }

  /** The values a list of user objects holds. */
  function UserRecords(users: seq<User>): (r: seq<UserRecord>)
    reads set u | u in users
    ensures |r| == |users| && forall i :: 0 <= i < |users| ==> r[i] == users[i].Snapshot()
  {
    if users == [] then [] else [users[0].Snapshot()] + UserRecords(users[1..])
  }

  function LoanRecords(loans: seq<Loan>): (r: seq<LoanRecord>)
    reads set l | l in loans
    ensures |r| == |loans| && forall i :: 0 <= i < |loans| ==> r[i] == loans[i].Snapshot()
  {
    if loans == [] then [] else [loans[0].Snapshot()] + LoanRecords(loans[1..])
  }

  /** The persistence component over the text-file store; a file never written reads as empty. */
  class DataPersistence {
    var files: map<string, seq<string>>

    constructor (files: map<string, seq<string>>)
      ensures this.files == files
    {
      this.files := files;
    }

    /** `FileManager.readTextFile`. */
    function Lines(name: string): seq<string>
      reads this
    {
      if name in files then files[name] else []
    }

    method SaveDocuments(documents: seq<Document>)
      modifies this
      ensures files == old(files)[DOCUMENTS_FILE := DocumentLines(documents)]
    {
      var lines: seq<string> := [];
      for i := 0 to |documents|
        invariant lines == DocumentLines(documents[..i])
      {
        lines := lines + [SerializeDocument(documents[i])];
      }
      assert documents[..|documents|] == documents;
      files := files[DOCUMENTS_FILE := lines];
    }

    method LoadDocuments() returns (documents: seq<Document>)
      ensures documents == Loaded(Lines(DOCUMENTS_FILE), DeserializeDocument)
    {
      var lines := Lines(DOCUMENTS_FILE);
      documents := [];
      for i := 0 to |lines|
        invariant documents == Loaded(lines[..i], DeserializeDocument)
      {
        LoadedStep(lines, i, DeserializeDocument);
        match DeserializeDocument(lines[i])
        case Entity(d) => documents := documents + [d];
        case _ =>
      }
      assert lines[..|lines|] == lines;
    }

    method SaveUsers(users: seq<User>)
      modifies this
      ensures files == old(files)[USERS_FILE := UserLines(UserRecords(users))]
    {
      var lines: seq<string> := [];
      for i := 0 to |users|
        invariant lines == UserLines(UserRecords(users[..i]))
      {
        lines := lines + [SerializeUser(users[i].Snapshot())];
      }
      assert users[..|users|] == users;
      files := files[USERS_FILE := lines];
    }

    /** `loadUsers`: a new object per line that decodes, holding what the line says. */
    method LoadUsers() returns (users: seq<User>)
      ensures UserRecords(users) == Loaded(Lines(USERS_FILE), DeserializeUser)
      ensures forall i :: 0 <= i < |users| ==> fresh(users[i])
      ensures forall i, j :: 0 <= i < j < |users| ==> users[i] != users[j]
    {
      var lines := Lines(USERS_FILE);
      users := [];
      for i := 0 to |lines|
        invariant |users| == |Loaded(lines[..i], DeserializeUser)|
        invariant forall k :: 0 <= k < |users| ==> users[k].Snapshot() == Loaded(lines[..i], DeserializeUser)[k]
        invariant forall k :: 0 <= k < |users| ==> fresh(users[k])
        invariant forall k, m :: 0 <= k < m < |users| ==> users[k] != users[m]
      {
        LoadedStep(lines, i, DeserializeUser);
        var decoded := DeserializeUser(lines[i]);
        if decoded.Entity? {
          var u := new User.FromRecord(decoded.value);
          users := users + [u];
        }
      }
      assert lines[..|lines|] == lines;
    }

    method SaveLoans(loans: seq<Loan>)
      modifies this
      ensures files == old(files)[LOANS_FILE := LoanLines(LoanRecords(loans))]
    {
      var lines: seq<string> := [];
      for i := 0 to |loans|
        invariant lines == LoanLines(LoanRecords(loans[..i]))
      {
        lines := lines + [SerializeLoan(loans[i].Snapshot())];
      }
      assert loans[..|loans|] == loans;
      files := files[LOANS_FILE := lines];
    }

    method LoadLoans() returns (loans: seq<Loan>)
      ensures LoanRecords(loans) == Loaded(Lines(LOANS_FILE), DeserializeLoan)
      ensures forall i :: 0 <= i < |loans| ==> fresh(loans[i])
      ensures forall i, j :: 0 <= i < j < |loans| ==> loans[i] != loans[j]
    {
      var lines := Lines(LOANS_FILE);
      loans := [];
      for i := 0 to |lines|
        invariant |loans| == |Loaded(lines[..i], DeserializeLoan)|
        invariant forall k :: 0 <= k < |loans| ==> loans[k].Snapshot() == Loaded(lines[..i], DeserializeLoan)[k]
        invariant forall k :: 0 <= k < |loans| ==> fresh(loans[k])
        invariant forall k, m :: 0 <= k < m < |loans| ==> loans[k] != loans[m]
      {
        LoadedStep(lines, i, DeserializeLoan);
        var decoded := DeserializeLoan(lines[i]);
        if decoded.Entity? {
          var l := new Loan.FromRecord(decoded.value);
          ghost var before := loans;
          loans := loans + [l];
          assert loans[|before|] == l && forall k :: 0 <= k < |before| ==> loans[k] == before[k];
        }
      }
      assert lines[..|lines|] == lines;
    }
  }
}
