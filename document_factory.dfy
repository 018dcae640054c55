/**
 * The document factory: the common checks on a parameter object, in a fixed order, and then
 * the kind-specific checks and construction of a book or a magazine. The first failing check
 * decides the error. A `null` document type passes the common checks and then fails the
 * `switch`, which throws a `NullPointerException` rather than an `InvalidDocumentException`.
 */
module DocumentFactory {
  import opened Wrappers
  import opened Text
  import opened InputValidator
  import opened Documents
  import opened CreationParams

  datatype FactoryError =
    | NullParams
    | InvalidId
    | InvalidTitle
    | InvalidAuthor
    | NullPublicationDate
    | UnsupportedType(t: DocumentType)
    | NullType
    | InvalidIsbn
    | InvalidPageFormat
    | NonPositivePages
    | InvalidGenre
    | InvalidIssueFormat
    | NonPositiveIssue
    | InvalidPublisher
    | InvalidFrequency

  /** Every error but `NullType` is an `InvalidDocumentException`, a library exception. */
  predicate IsInvalidDocument(e: FactoryError) { !e.NullType? }

  /** The exception message of each `InvalidDocumentException`. */
  function Message(e: FactoryError): string
    requires IsInvalidDocument(e)
  {
    match e
    case NullParams => "Document parameters cannot be null"
    case InvalidId => "Invalid document ID"
    case InvalidTitle => "Invalid document title"
    case InvalidAuthor => "Invalid author name"
    case NullPublicationDate => "Publication date cannot be null"
    case UnsupportedType(t) => "Unsupported document type: " + (match t case BOOK => "BOOK" case MAGAZINE => "MAGAZINE" case DVD => "DVD" case NEWSPAPER => "NEWSPAPER")
    case InvalidIsbn => "Invalid ISBN"
    case InvalidPageFormat => "Invalid page number format"
    case NonPositivePages => "Pages must be positive"
    case InvalidGenre => "Invalid genre"
    case InvalidIssueFormat => "Invalid issue number format"
    case NonPositiveIssue => "Issue number must be positive"
    case InvalidPublisher => "Invalid publisher"
    case InvalidFrequency => "Invalid frequency"
  }

  /** `validateCommonParams`: `None` when the checks pass, otherwise the first that fails. */
  function ValidateCommonParams(params: Option<Params>): (r: Option<FactoryError>)
    ensures r.None? <==> params.Some? && CommonParamsValid(params.value)
  {
    if params.None? then Some(NullParams)
    else
      var p := params.value;
      if !IsValidId(p.id) then Some(InvalidId)
      else if !IsValidString(p.title) then Some(InvalidTitle)
      else if !IsValidString(p.author) then Some(InvalidAuthor)
      else if p.publicationDate.None? then Some(NullPublicationDate)
      else None
  }

  /** The common checks, as one condition. */
  predicate CommonParamsValid(p: Params)
  {
    IsValidId(p.id) && IsValidString(p.title) && IsValidString(p.author) && p.publicationDate.Some?
  }

  /** The document holds the parameters' id, title, author and publication date. */
  predicate Carries(d: Document, p: Params)
  {
    Some(d.id) == p.id && Some(d.title) == p.title && Some(d.author) == p.author && Some(d.publicationDate) == p.publicationDate
  }

  /** `createBook`: ISBN, then the page count's format, then its sign, then the genre. */
  function CreateBook(p: Params): (r: Result<Document, FactoryError>)
    requires CommonParamsValid(p)
    ensures r.Success? ==> TypeOf(r.value) == BOOK && r.value.available && Carries(r.value, p)
  {
    var isbn := Extra(p, "isbn");
    var genre := Extra(p, "genre");
    if !IsValidString(isbn) then Failure(InvalidIsbn)
    else match ParseInt(Extra(p, "pages"))
      case None => Failure(InvalidPageFormat)
      case Some(pages) =>
        if pages <= 0 then Failure(NonPositivePages)
        else if !IsValidString(genre) then Failure(InvalidGenre)
        else Success(NewBook(p.id.value, p.title.value, p.author.value, p.publicationDate.value, isbn.value, pages, genre.value))
  }

  /** `createMagazine`: the issue number's format, then its sign, then publisher, then frequency. */
  function CreateMagazine(p: Params): (r: Result<Document, FactoryError>)
    requires CommonParamsValid(p)
    ensures r.Success? ==> TypeOf(r.value) == MAGAZINE && r.value.available && Carries(r.value, p)
  {
    var publisher := Extra(p, "publisher");
    var frequency := Extra(p, "frequency");
    match ParseInt(Extra(p, "issueNumber"))
    case None => Failure(InvalidIssueFormat)
    case Some(issue) =>
      if issue <= 0 then Failure(NonPositiveIssue)
      else if !IsValidString(publisher) then Failure(InvalidPublisher)
      else if !IsValidString(frequency) then Failure(InvalidFrequency)
      else Success(NewMagazine(p.id.value, p.title.value, p.author.value, p.publicationDate.value, issue, publisher.value, frequency.value))
  }

  /** `createDocument`: the common checks come first; only then is the type looked at. */
  function CreateDocument(t: Option<DocumentType>, params: Option<Params>): (r: Result<Document, FactoryError>)
    ensures r.Success? ==> t.Some? && TypeOf(r.value) == t.value && r.value.available
    ensures r.Success? ==> params.Some? && Carries(r.value, params.value)
  {
    match ValidateCommonParams(params)
    case Some(e) => Failure(e)
    case None =>
      match t
      case None => Failure(NullType)
      case Some(BOOK) => CreateBook(params.value)
      case Some(MAGAZINE) => CreateMagazine(params.value)
      case Some(other) => Failure(UnsupportedType(other))
  }

  /** The parameters a book is built from, all checks passed. */
  predicate AcceptsBook(p: Params)
  {
    && CommonParamsValid(p)
    && IsValidString(Extra(p, "isbn"))
    && ParseInt(Extra(p, "pages")).Some? && ParseInt(Extra(p, "pages")).value > 0
    && IsValidString(Extra(p, "genre"))
  }

  predicate AcceptsMagazine(p: Params)
  {
    && CommonParamsValid(p)
    && ParseInt(Extra(p, "issueNumber")).Some? && ParseInt(Extra(p, "issueNumber")).value > 0
    && IsValidString(Extra(p, "publisher"))
    && IsValidString(Extra(p, "frequency"))
  }

  /**
   * A book is built exactly when every check passes, and then it carries the parameter
   * values: the ISBN and genre as given and the page count as parsed.
   */
  lemma {:induction false} BookAcceptedIff(p: Params)
    ensures CreateDocument(Some(BOOK), Some(p)).Success? <==> AcceptsBook(p)
    ensures AcceptsBook(p) ==>
              CreateDocument(Some(BOOK), Some(p)).value.details == BookDetails(Extra(p, "isbn").value, ParseInt(Extra(p, "pages")).value, Extra(p, "genre").value)
  {
  }

  lemma {:induction false} MagazineAcceptedIff(p: Params)
    ensures CreateDocument(Some(MAGAZINE), Some(p)).Success? <==> AcceptsMagazine(p)
    ensures AcceptsMagazine(p) ==>
              CreateDocument(Some(MAGAZINE), Some(p)).value.details == MagazineDetails(ParseInt(Extra(p, "issueNumber")).value, Extra(p, "publisher").value, Extra(p, "frequency").value)
  {
    if CommonParamsValid(p) {
      assert CreateDocument(Some(MAGAZINE), Some(p)) == CreateMagazine(p);
    } else {
      assert ValidateCommonParams(Some(p)).Some?;
    }
  }

  /**
   * The common checks decide first, in order: missing parameters, the id, the title, the
   * author, the publication date. A failing one wins whatever the type and whatever follows.
   */
  lemma {:induction false} CommonChecksFirst(t: Option<DocumentType>, p: Params)
    ensures CreateDocument(t, None) == Failure(NullParams)
    ensures !IsValidId(p.id) ==> CreateDocument(t, Some(p)) == Failure(InvalidId)
    ensures IsValidId(p.id) && !IsValidString(p.title) ==> CreateDocument(t, Some(p)) == Failure(InvalidTitle)
    ensures IsValidId(p.id) && IsValidString(p.title) && !IsValidString(p.author)
      ==> CreateDocument(t, Some(p)) == Failure(InvalidAuthor)
    ensures IsValidId(p.id) && IsValidString(p.title) && IsValidString(p.author) && p.publicationDate.None?
      ==> CreateDocument(t, Some(p)) == Failure(NullPublicationDate)
  {
  }

  /** Only after the common checks pass is the type examined: DVD and NEWSPAPER are refused. */
  lemma {:induction false} UnsupportedTypes(t: DocumentType, p: Params)
    requires CommonParamsValid(p)
    ensures t == DVD || t == NEWSPAPER ==> CreateDocument(Some(t), Some(p)) == Failure(UnsupportedType(t))
    ensures CreateDocument(None, Some(p)) == Failure(NullType)
  {
  }

  /** The first book checks in order: ISBN, page format (a missing count among them), page sign. */
  lemma {:induction false} BookChecksInOrder(p: Params)
    requires CommonParamsValid(p)
    ensures !IsValidString(Extra(p, "isbn")) ==> CreateDocument(Some(BOOK), Some(p)) == Failure(InvalidIsbn)
    ensures IsValidString(Extra(p, "isbn")) && Extra(p, "pages").None?
      ==> CreateDocument(Some(BOOK), Some(p)) == Failure(InvalidPageFormat)
    ensures IsValidString(Extra(p, "isbn")) && ParseInt(Extra(p, "pages")).Some? && ParseInt(Extra(p, "pages")).value <= 0
      ==> CreateDocument(Some(BOOK), Some(p)) == Failure(NonPositivePages)
  {
  }

  /** The first magazine checks in order: issue format, issue sign, publisher. */
  lemma {:induction false} MagazineChecksInOrder(p: Params)
    requires CommonParamsValid(p)
    ensures ParseInt(Extra(p, "issueNumber")).None? ==> CreateDocument(Some(MAGAZINE), Some(p)) == Failure(InvalidIssueFormat)
    ensures ParseInt(Extra(p, "issueNumber")).Some? && ParseInt(Extra(p, "issueNumber")).value <= 0
      ==> CreateDocument(Some(MAGAZINE), Some(p)) == Failure(NonPositiveIssue)
    ensures (ParseInt(Extra(p, "issueNumber")).Some? && ParseInt(Extra(p, "issueNumber")).value > 0
             && !IsValidString(Extra(p, "publisher"))) ==> CreateDocument(Some(MAGAZINE), Some(p)) == Failure(InvalidPublisher)
  {
  }

  /** An empty id is refused: the identifier pattern needs at least one character. */
  lemma {:induction false} EmptyIdRefused(t: Option<DocumentType>, p: Params)
    requires p.id == Some("")
    ensures CreateDocument(t, Some(p)) == Failure(InvalidId)
  {
  }

  /**
   * What the factory builds can be stored: every text field passed the free-text or
   * identifier pattern, neither of which admits the delimiter, and the last field is not empty.
   */
  lemma {:induction false} CreatedDocumentsNoDelimiter(t: Option<DocumentType>, params: Option<Params>)
    requires CreateDocument(t, params).Success?
    ensures var d := CreateDocument(t, params).value;
      && '|' !in d.id && '|' !in d.title && '|' !in d.author
      && match d.details
         case BookDetails(isbn, _, genre) => '|' !in isbn && '|' !in genre && genre != []
         case MagazineDetails(_, publisher, frequency) => '|' !in publisher && '|' !in frequency && frequency != []
  {
    var p := params.value;
    ValidNoPipe(p.title);
    ValidNoPipe(p.author);
    IdNoPipe(p.id);
    if t == Some(BOOK) {
      ValidNoPipe(Extra(p, "isbn"));
      ValidNoPipe(Extra(p, "genre"));
    } else {
      ValidNoPipe(Extra(p, "publisher"));
      ValidNoPipe(Extra(p, "frequency"));
    }
  }

  /** `|` is not in the free-text class, so a valid string never holds it. */
  lemma {:induction false} ValidNoPipe(s: Option<string>)
    requires IsValidString(s)
    ensures '|' !in s.value && s.value != []
  {
    forall i | 0 <= i < |s.value| ensures s.value[i] != '|' {
      assert TextChar(s.value[i]);
    }
  }

  lemma {:induction false} IdNoPipe(s: Option<string>)
    requires IsValidId(s)
    ensures '|' !in s.value
  {
    forall i | 0 <= i < |s.value| ensures s.value[i] != '|' {
      assert IdChar(s.value[i]);
    }
  }
}
