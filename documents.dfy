/**
 * Library documents: the common fields every document has, the `available` flag, and the
 * two concrete kinds the library stocks, books and magazines, as one tagged datatype.
 */
module Documents {
  import opened Wrappers
  import opened Text

  /** The declared document types; only BOOK and MAGAZINE have a concrete kind. */
  datatype DocumentType = BOOK | MAGAZINE | DVD | NEWSPAPER

  /** The fields of the concrete kind. */
  datatype Details =
    | BookDetails(isbn: string, pages: int32, genre: string)
    | MagazineDetails(issueNumber: int32, publisher: string, frequency: string)

  /** A document; `publicationDate` is a day number. */
  datatype Document = Document(
    id: string,
    title: string,
    author: string,
    publicationDate: int,
    available: bool,
    details: Details)

  /** The `type` field, fixed by the kind at construction. */
  function TypeOf(d: Document): (t: DocumentType)
    ensures t == BOOK <==> d.details.BookDetails?
    ensures t == MAGAZINE <==> d.details.MagazineDetails?
    ensures t != DVD && t != NEWSPAPER
  {
    match d.details
    case BookDetails(_, _, _) => BOOK
    case MagazineDetails(_, _, _) => MAGAZINE
  }

  /** `new Book(...)`: every argument is kept as given and the book starts out available. */
  function NewBook(id: string, title: string, author: string, publicationDate: int,
                   isbn: string, pages: int32, genre: string): (d: Document)
    ensures d.available && TypeOf(d) == BOOK
    ensures d.id == id && d.title == title && d.author == author && d.publicationDate == publicationDate
    ensures d.details == BookDetails(isbn, pages, genre)
  {
    Document(id, title, author, publicationDate, true, BookDetails(isbn, pages, genre))
  }

  /** `new Magazine(...)`: every argument is kept as given and the magazine starts out available. */
  function NewMagazine(id: string, title: string, author: string, publicationDate: int,
                       issueNumber: int32, publisher: string, frequency: string): (d: Document)
    ensures d.available && TypeOf(d) == MAGAZINE
    ensures d.id == id && d.title == title && d.author == author && d.publicationDate == publicationDate
    ensures d.details == MagazineDetails(issueNumber, publisher, frequency)
  {
    Document(id, title, author, publicationDate, true, MagazineDetails(issueNumber, publisher, frequency))
  }

  /** `getDocumentTypeName`. */
  function TypeName(d: Document): string
  {
    match d.details
    case BookDetails(_, _, _) => "BOOK"
    case MagazineDetails(_, _, _) => "MAGAZINE"
  }

  /** The type name is the printed name of the document's type. */
  lemma {:induction false} TypeNameMatchesType(d: Document)
    ensures TypeName(d) == (if TypeOf(d) == BOOK then "BOOK" else "MAGAZINE")
  {
  }

  /** `getSpecificInfo`: the kind's own fields, one `label: value` line each. */
  function SpecificInfo(d: Document): string
  {
    match d.details
    case BookDetails(isbn, pages, genre) =>
      "ISBN: " + isbn + "\nPages: " + IntToString(pages) + "\nGenre: " + genre + "\n"
    case MagazineDetails(issue, publisher, frequency) =>
      "Issue: #" + IntToString(issue) + "\nPublisher: " + publisher + "\nFrequency: " + frequency + "\n"
  }

  /** The block opens with the kind's first label and ends with a line break. */
  lemma {:induction false} SpecificInfoShape(d: Document)
    ensures d.details.BookDetails? ==> SpecificInfo(d)[..6] == "ISBN: "
    ensures d.details.MagazineDetails? ==> SpecificInfo(d)[..8] == "Issue: #"
    ensures SpecificInfo(d)[|SpecificInfo(d)| - 1] == '\n'
  {
  }

  /** `setAvailable(b)`: the flag is the only field that changes. */
  function WithAvailable(d: Document, b: bool): (r: Document)
    ensures r.available == b
    ensures r.(available := d.available) == d
  {
    d.(available := b)
  }

  /** `equals`: the same concrete class and the same id; nothing else is compared. */
  predicate SameDocument(a: Document, b: Document)
  {
    TypeOf(a) == TypeOf(b) && a.id == b.id
  }

  /** Changing the flag never changes which document it is, and two kinds never compare equal. */
  lemma {:induction false} SameDocumentIdentity(a: Document, b: Document, flag: bool)
    ensures SameDocument(a, WithAvailable(a, flag))
    ensures SameDocument(a, b) ==> a.id == b.id && a.details.BookDetails? == b.details.BookDetails?
    ensures a.id == b.id && a.details.BookDetails? == b.details.BookDetails? ==> SameDocument(a, b)
  {
  }

  /** The first index whose document has the given id: the lookup `findDocumentById` does. */
  function FirstWithId(docs: seq<Document>, id: string): (r: Option<nat>)
    ensures r.Some? ==> r.value < |docs| && docs[r.value].id == id
    ensures r.Some? ==> forall j :: 0 <= j < r.value ==> docs[j].id != id
    ensures r.None? <==> forall j :: 0 <= j < |docs| ==> docs[j].id != id
  {
    if docs == [] then None
    else if docs[0].id == id then Some(0)
    else match FirstWithId(docs[1..], id)
      case None => None
      case Some(i) => Some(i + 1)
  }

  /** No two documents share an id. */
  predicate UniqueIds(docs: seq<Document>)
  {
    forall i, j :: 0 <= i < j < |docs| ==> docs[i].id != docs[j].id
  }

  /** With unique ids the lookup finds exactly the document carrying the id. */
  lemma {:induction false} FirstWithIdUnique(docs: seq<Document>, i: nat)
    requires UniqueIds(docs) && i < |docs|
    ensures FirstWithId(docs, docs[i].id) == Some(i)
  {
  }

  /** The first document with the id in a list, or `null`. */
  function FirstDocument(docs: seq<Document>, id: string): (r: Option<Document>)
    ensures r.Some? ==> r.value in docs && r.value.id == id
    ensures r.None? <==> forall d :: d in docs ==> d.id != id
  {
    match FirstWithId(docs, id)
    case None => None
    case Some(i) => Some(docs[i])
  }

  /** In a concatenation the first part is searched first. */
  lemma {:induction false} FirstDocumentAppend(a: seq<Document>, b: seq<Document>, id: string)
    ensures FirstDocument(a + b, id) == if FirstDocument(a, id).Some? then FirstDocument(a, id) else FirstDocument(b, id)
  {
    var ab := a + b;
    match FirstWithId(a, id)
    case Some(i) =>
      assert forall j :: 0 <= j <= i ==> ab[j] == a[j];
      assert FirstWithId(ab, id) == Some(i);
    case None =>
      match FirstWithId(b, id)
      case None =>
        forall j | 0 <= j < |ab| ensures ab[j].id != id {
          if j < |a| {
            assert ab[j] == a[j];
          } else {
            assert ab[j] == b[j - |a|];
          }
        }
      case Some(i) =>
        assert forall j :: 0 <= j < |a| ==> ab[j] == a[j];
        assert forall j :: |a| <= j <= |a| + i ==> ab[j] == b[j - |a|];
        assert forall j :: 0 <= j < |a| + i ==> ab[j].id != id;
        assert ab[|a| + i].id == id;
        assert FirstWithId(ab, id) == Some(|a| + i);
  }
}
