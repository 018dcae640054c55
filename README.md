# Biblioteca lending engine in Dafny

This project models the core of the `biblioteca-management` library system: its catalogue of
books and magazines, its registered users with their loan quotas, and its loans. It also proves
properties of that model. The service it models (`LibraryService`) adds and removes documents,
registers users, lends and takes back documents, and answers queries. After every change it
rewrites three flat files through `DataPersistence` and tells the attached observers about loans.

Around the service the model covers these parts of the repository:
- document creation: `DocumentFactory` with its validation, and the `DocumentCreationParams` builder;
- `InputValidator`;
- the four search strategies and `SearchContext`;
- `DocumentCollection` and its iterator;
- the category tree (`DocumentCategory`, `DocumentLeaf`);
- `LoanNotificationSystem`.

The model takes the form of the source:
- `DocumentCollection`, `DocumentIterator`, `User`, `Loan`, `SearchContext`, the builder and the
  parameter object, `LoanNotificationSystem`, `DataPersistence` and `LibraryService` are classes.
  Their fields are updated in place, and their methods are proved against value-level functions.
- Documents, category trees, the codecs, the validators and the strategies are datatypes,
  functions and lemmas.

The service is specified twice:
- `LibraryState` gives every operation as a transition on a `State` value, together with the
  outcome it reports.
- `LibraryServices.LibraryService` is the object itself. Each of its methods is proved to take
  its state (`Current()`) exactly where the transition of the same name goes.

`LibraryInvariant` states what the service keeps true and proves that each transition preserves it:
- document ids are unique;
- every open loan names a user and a document that exist;
- a document has at most one open loan, and it is unavailable exactly while it has one;
- each user's held list mirrors that user's open loans and stays within the quota;
- the loan-id counter is above every number an id carries.

Further lemmas cover the rest:
- the serialisation round trips for documents, users and loans;
- that saving and then reloading rebuilds the same registries;
- that returning a loan just made undoes it;
- that the query, search and composite operations return what they promise.

When the code and a plain reading of the design disagree, the model follows the code:
- A failed save is caught and logged by `saveData`, never reported to the caller. The model
  therefore always completes the save.
- A user's held loans are a list, not a set. `addLoan` appends even an id already held, and
  `removeLoan` drops only the first copy.
- A return is not atomic. When the loan's document has gone, the loan is already marked returned
  before the failure.
- `getActiveLoans` filters on the stored status, so a loan past its due date whose status was
  never promoted counts as active. `getOverdueLoans` compares dates.
- On reload the counter is one past the largest loan number seen, but never below 1. A loan id
  whose number will not parse ends the loan loop: the loans after it are not loaded.
- `createLoan` checks in this order: the user exists, the user is under quota, the document
  exists, the document is available.

## Model

| member | source | states |
|---|---|---|
| Text.Inc32Wraps | src/main/java/com/biblioteca/service/LibraryService.java:196 | `loanIdCounter++` on a Java `int` is `n + 1` modulo 2^32, and exactly `n + 1` below `Integer.MAX_VALUE` |
| Text.ToLower | src/main/java/com/biblioteca/strategy/TitleSearchStrategy.java:19 | lower-casing keeps the length and lowers each character in place |
| Text.ToLowerIdempotent | src/main/java/com/biblioteca/strategy/TitleSearchStrategy.java:19-22 | lower-casing twice is lower-casing once |
| Text.Trim | src/main/java/com/biblioteca/strategy/IdSearchStrategy.java:15-19 | `trim` leaves no character up to U+0020 at either end, and empties exactly the strings made only of such characters |
| Text.TrimToLower | src/main/java/com/biblioteca/strategy/TitleSearchStrategy.java:15-19 | a query is blank after lower-casing exactly when it was blank before |
| Text.SplitJoin | src/main/java/com/biblioteca/io/DataPersistence.java:96 | `split` on joined delimiter-free fields returns them without the trailing empty ones |
| Text.SplitJoinExact | src/main/java/com/biblioteca/io/DataPersistence.java:96 | with a non-empty last field, splitting the joined line gives back every field |
| Text.JoinAvoids | src/main/java/com/biblioteca/io/DataPersistence.java:172 | a character that is in no piece and is not the separator is not in `String.join`'s result |
| Text.IntToStringValue | src/main/java/com/biblioteca/io/DataPersistence.java:83 | the decimal text `Integer.toString` prints reads back as the same number |
| Text.IntToString | src/main/java/com/biblioteca/io/DataPersistence.java:83 | a printed number is non-empty and holds neither `|` nor `,` |
| Text.ParseInt | src/main/java/com/biblioteca/factory/DocumentFactory.java:75 | `Integer.parseInt` yields a value only for a signed decimal numeral, and then its value; it yields one for every such numeral in `int` range |
| Text.ParseIntToString | src/main/java/com/biblioteca/io/DataPersistence.java:112 | parsing a printed `int` gives the `int` back |
| Text.Pad4Value | src/main/java/com/biblioteca/service/LibraryService.java:196 | `%04d` text reads back as the number, negative numbers included |
| Text.Pad4Injective | src/main/java/com/biblioteca/service/LibraryService.java:196 | different numbers format to different `%04d` texts |
| Text.Pad4Width | src/main/java/com/biblioteca/service/LibraryService.java:196 | `%04d` is at least four characters, and exactly four for 0 to 9999 |
| Text.ParseBoolean | src/main/java/com/biblioteca/io/DataPersistence.java:106 | `Boolean.parseBoolean` is true exactly for `true` in any letter case and never fails |
| Text.ParseBooleanToString | src/main/java/com/biblioteca/io/DataPersistence.java:106 | a printed flag parses back to itself |
| Text.DateToString | src/main/java/com/biblioteca/io/DataPersistence.java:77 | a printed date is non-empty and holds neither `|` nor `,` |
| Text.ParseDateToString | src/main/java/com/biblioteca/io/DataPersistence.java:105 | `LocalDate.parse` of a printed date gives the date back |
| InputValidator.PatternBounds | src/main/java/com/biblioteca/util/InputValidator.java:12-91 | the id, text and phone patterns imply the length bounds `isValidLength` checks; `null` is never valid; a short alphanumeric string is a valid id |
| InputValidator.RemoveControls | src/main/java/com/biblioteca/util/InputValidator.java:57-58 | removing control characters leaves exactly the other characters, in order |
| InputValidator.ReplaceStep | src/main/java/com/biblioteca/util/InputValidator.java:61-65 | each `replace` in the chain turns one more special character into its entity and leaves the rest alone |
| InputValidator.SanitizeEscapes | src/main/java/com/biblioteca/util/InputValidator.java:49-68 | because `&` is never escaped, the chain of replaces equals escaping each character once: `sanitize` is trim, then strip controls, then escape |
| InputValidator.SanitizeSafe | src/main/java/com/biblioteca/util/InputValidator.java:49-68 | a sanitised string holds no control character and none of `<`, `>`, `"`, `'`, `/` |
| InputValidator.SanitizeIdentity | src/main/java/com/biblioteca/util/InputValidator.java:54-66 | text already trimmed, without controls and without special characters is returned unchanged |
| InputValidator.ValidateAndSanitize | src/main/java/com/biblioteca/util/InputValidator.java:96-108 | `null` or blank input fails with the empty-field error; otherwise it succeeds exactly when sanitising leaves something, and returns that |
| InputValidator.ControlOnlyInput | src/main/java/com/biblioteca/util/InputValidator.java:96-108 | every non-blank input made only of control characters is refused with the invalid-characters error, because sanitising leaves nothing |
| InputValidator.ValidIdIsClean | src/main/java/com/biblioteca/util/InputValidator.java:20-22 | a valid id is not blank and sanitises to itself |
| InputValidator.EmailHasOneAt | src/main/java/com/biblioteca/util/InputValidator.java:13-37 | an address the e-mail pattern accepts has exactly one `@`, a non-empty local part, at least one domain character before the final dot and at least two characters after it |
| InputValidator.EmailShapes | src/main/java/com/biblioteca/util/InputValidator.java:13-37 | `a@b.com` is a valid address; an empty local part (`@b.com`), an empty domain run (`a@.com`) and a one-letter ending (`a@b.c`) are refused |
| Documents.TypeOf | src/main/java/com/biblioteca/model/Document.java:24-31 | the type is BOOK exactly for books and MAGAZINE exactly for magazines; no document is a DVD or a newspaper |
| Documents.NewBook | src/main/java/com/biblioteca/model/Book.java:15-21 | a new book keeps every argument and starts out available |
| Documents.NewMagazine | src/main/java/com/biblioteca/model/Magazine.java:15-21 | a new magazine keeps every argument and starts out available |
| Documents.TypeNameMatchesType | src/main/java/com/biblioteca/model/Book.java:28-31 | the type name is the name of the document's type |
| Documents.SpecificInfoShape | src/main/java/com/biblioteca/model/Book.java:23-26 | the specific-info block opens with the kind's first label and ends with a line break |
| Documents.WithAvailable | src/main/java/com/biblioteca/model/Document.java:86-88 | `setAvailable` sets the flag and changes no other field |
| Documents.SameDocumentIdentity | src/main/java/com/biblioteca/model/Document.java:98-104 | `equals` holds exactly for the same kind and the same id, so changing the flag never changes identity |
| Documents.FirstWithId | src/main/java/com/biblioteca/service/LibraryService.java:78-87 | the lookup finds the first index holding the id, and finds nothing exactly when no document has the id |
| Documents.FirstWithIdUnique | src/main/java/com/biblioteca/service/LibraryService.java:78-87 | with unique ids, looking up a document's id finds that document |
| Documents.FirstDocument | src/main/java/com/biblioteca/service/LibraryService.java:78-87 | the document found is in the list and carries the id; `null` exactly when none does |
| Documents.FirstDocumentAppend | src/main/java/com/biblioteca/composite/DocumentCategory.java:74-81 | in a concatenation the first part is searched first |
| Composite.NewCategory | src/main/java/com/biblioteca/composite/DocumentCategory.java:15-18 | a new category has the given name and no children |
| Composite.GetChildren | src/main/java/com/biblioteca/composite/DocumentCategory.java:36-38 | a category's children in order; none for a leaf |
| Composite.DocumentsOfAppend | src/main/java/com/biblioteca/composite/DocumentCategory.java:41-47 | the documents of a concatenation of children are the concatenation of their documents |
| Composite.Add | src/main/java/com/biblioteca/composite/DocumentCategory.java:26-28 | a category appends the child and keeps its name; a leaf is refused with its message |
| Composite.ChildIndex | src/main/java/com/biblioteca/composite/DocumentCategory.java:31-33 | the first position of an equal child, or none exactly when the child is absent |
| Composite.Remove | src/main/java/com/biblioteca/composite/DocumentCategory.java:31-33 | a category drops the first equal child and nothing else, and is unchanged when the child is absent; a leaf is refused |
| Composite.LeafAndEmptyCategory | src/main/java/com/biblioteca/composite/DocumentLeaf.java:41-45 | a leaf's documents are its one document and its name is the title; a new category holds no documents |
| Composite.AddAppendsDocuments | src/main/java/com/biblioteca/composite/DocumentCategory.java:41-47 | after `add`, the child's documents follow the ones already there |
| Composite.RemoveDropsDocuments | src/main/java/com/biblioteca/composite/DocumentCategory.java:31-47 | `remove` takes exactly the removed child's documents out, and keeps the others in order |
| Composite.CountIsSum | src/main/java/com/biblioteca/composite/DocumentCategory.java:67-69 | the total count of a category is the sum of its children's counts |
| Composite.FindDocumentById | src/main/java/com/biblioteca/composite/DocumentCategory.java:74-81 | the document found lies below the node and has the id; `null` exactly when no document below does |
| Composite.FindInFirstChild | src/main/java/com/biblioteca/composite/DocumentCategory.java:74-81 | the first child that holds the id decides the lookup |
| CreationParams.Extra | src/main/java/com/biblioteca/factory/DocumentCreationParams.java:42-44 | `getExtraParam` is the stored value, or `null` for a key never added |
| CreationParams.ExtraLastWriteWins | src/main/java/com/biblioteca/factory/DocumentCreationParams.java:76-79 | the last value put under a key is read back, and other keys are undisturbed |
| CreationParams.ExtraParams.constructor | src/main/java/com/biblioteca/factory/DocumentCreationParams.java:54 | a builder's extra map starts empty |
| CreationParams.DocumentCreationParams.constructor | src/main/java/com/biblioteca/factory/DocumentCreationParams.java:18-24 | the parameter object copies the builder's fields and shares the builder's map |
| CreationParams.Builder.constructor | src/main/java/com/biblioteca/factory/DocumentCreationParams.java:49-54 | every field `null`, and a fresh empty map |
| CreationParams.Builder.Id | src/main/java/com/biblioteca/factory/DocumentCreationParams.java:56-59 | sets the id, leaves the other fields, returns the builder itself |
| CreationParams.Builder.Title | src/main/java/com/biblioteca/factory/DocumentCreationParams.java:61-64 | sets the title, leaves the other fields, returns the builder itself |
| CreationParams.Builder.Author | src/main/java/com/biblioteca/factory/DocumentCreationParams.java:66-69 | sets the author, leaves the other fields, returns the builder itself |
| CreationParams.Builder.PublicationDate | src/main/java/com/biblioteca/factory/DocumentCreationParams.java:71-74 | sets the date, leaves the other fields, returns the builder itself |
| CreationParams.Builder.AddExtraParam | src/main/java/com/biblioteca/factory/DocumentCreationParams.java:76-79 | puts into the shared map, overwriting an earlier value under the key |
| CreationParams.Builder.Build | src/main/java/com/biblioteca/factory/DocumentCreationParams.java:81-83 | a new parameter object that holds the builder's fields and the builder's very map |
| DocumentFactory.ValidateCommonParams | src/main/java/com/biblioteca/factory/DocumentFactory.java:42-62 | the common checks pass exactly when the parameters are present with a valid id, title, author and a date |
| DocumentFactory.CreateBook | src/main/java/com/biblioteca/factory/DocumentFactory.java:64-96 | a built book is available and carries the id, title, author and date given |
| DocumentFactory.CreateMagazine | src/main/java/com/biblioteca/factory/DocumentFactory.java:98-130 | a built magazine is available and carries the id, title, author and date given |
| DocumentFactory.CreateDocument | src/main/java/com/biblioteca/factory/DocumentFactory.java:27-40 | a built document has the requested type, is available and carries the parameters |
| DocumentFactory.BookAcceptedIff | src/main/java/com/biblioteca/factory/DocumentFactory.java:64-96 | a book is built exactly when every check passes, holding the ISBN, the parsed page count and the genre |
| DocumentFactory.MagazineAcceptedIff | src/main/java/com/biblioteca/factory/DocumentFactory.java:98-130 | a magazine is built exactly when every check passes, holding the parsed issue number, publisher and frequency |
| DocumentFactory.CommonChecksFirst | src/main/java/com/biblioteca/factory/DocumentFactory.java:27-62 | missing parameters, id, title, author and date are checked first, in that order, whatever the type |
| DocumentFactory.UnsupportedTypes | src/main/java/com/biblioteca/factory/DocumentFactory.java:32-39 | after the common checks, DVD and NEWSPAPER are refused and a `null` type fails as a system error |
| DocumentFactory.BookChecksInOrder | src/main/java/com/biblioteca/factory/DocumentFactory.java:69-81 | after the common checks, the ISBN is checked first, then the page format (a missing count included), then the page sign |
| DocumentFactory.MagazineChecksInOrder | src/main/java/com/biblioteca/factory/DocumentFactory.java:103-115 | after the common checks, the issue format is checked first, then the issue sign, then the publisher |
| DocumentFactory.EmptyIdRefused | src/main/java/com/biblioteca/factory/DocumentFactory.java:47-49 | an empty id is refused as invalid |
| DocumentFactory.CreatedDocumentsNoDelimiter | src/main/java/com/biblioteca/factory/DocumentFactory.java:27-40 | no text field of a built document holds the file delimiter, and its last field is non-empty |
| DocumentFactory.ValidNoPipe | src/main/java/com/biblioteca/util/InputValidator.java:27-30 | a valid free-text string is non-empty and has no `|` |
| DocumentFactory.IdNoPipe | src/main/java/com/biblioteca/util/InputValidator.java:20-22 | a valid id has no `|` |
| DocumentCollections.IndexOfSame | src/main/java/com/biblioteca/iterator/DocumentCollection.java:31-33 | the first index holding an equal document, or none exactly when no document is equal |
| DocumentCollections.RemoveFirstSame | src/main/java/com/biblioteca/iterator/DocumentCollection.java:31-33 | `remove` drops the first equal document and nothing else, and changes nothing when none is equal |
| DocumentCollections.RemoveFirstSameSize | src/main/java/com/biblioteca/iterator/DocumentCollection.java:31-38 | the size drops by one exactly when an equal document was stored |
| DocumentCollections.RemoveAfterAdd | src/main/java/com/biblioteca/iterator/DocumentCollection.java:24-33 | removing what was just added restores the list when nothing equal was there |
| DocumentCollections.DocumentCollection.constructor | src/main/java/com/biblioteca/iterator/DocumentCollection.java:14-16 | a new collection is empty |
| DocumentCollections.DocumentCollection.CreateIterator | src/main/java/com/biblioteca/iterator/DocumentCollection.java:19-21 | a fresh iterator at position 0 over this very list |
| DocumentCollections.DocumentCollection.Add | src/main/java/com/biblioteca/iterator/DocumentCollection.java:24-28 | a `null` document is ignored; any other, duplicates included, is appended |
| DocumentCollections.DocumentCollection.Remove | src/main/java/com/biblioteca/iterator/DocumentCollection.java:31-33 | the list loses its first document equal to the argument |
| DocumentCollections.DocumentCollection.Get | src/main/java/com/biblioteca/iterator/DocumentCollection.java:45-50 | the document at an index in range, `null` for any other index |
| DocumentCollections.DocumentCollection.Clear | src/main/java/com/biblioteca/iterator/DocumentCollection.java:52-54 | the list becomes empty |
| DocumentCollections.DocumentCollection.GetAll | src/main/java/com/biblioteca/iterator/DocumentCollection.java:56-58 | the documents in insertion order |
| DocumentCollections.DocumentCollection.SetAvailable | src/main/java/com/biblioteca/model/Document.java:86-88 | only the flag of the stored document at the index changes |
| DocumentCollections.DocumentIterator.constructor | src/main/java/com/biblioteca/iterator/DocumentIterator.java:15-18 | starts at position 0 over the collection |
| DocumentCollections.DocumentIterator.Next | src/main/java/com/biblioteca/iterator/DocumentIterator.java:26-33 | returns the document at the position and advances; at the end fails with the source's message and stays put |
| DocumentCollections.DocumentIterator.Reset | src/main/java/com/biblioteca/iterator/DocumentIterator.java:36-38 | back to position 0 |
| SearchStrategies.StrategyNamesDistinct | src/main/java/com/biblioteca/strategy/TitleSearchStrategy.java:26-29 | each strategy has its own name, and no two share one |
| SearchStrategies.Select | src/main/java/com/biblioteca/strategy/TitleSearchStrategy.java:21-23 | the filter keeps exactly the matching documents and is never longer than its input |
| SearchStrategies.Search | src/main/java/com/biblioteca/strategy/TitleSearchStrategy.java:14-24 | a `null` or blank query finds nothing; otherwise exactly the documents matching the normalised query |
| SearchStrategies.SelectSingle | src/main/java/com/biblioteca/strategy/TitleSearchStrategy.java:21-23 | on a single document, the filter keeps it exactly when it matches |
| SearchStrategies.SelectAppend | src/main/java/com/biblioteca/strategy/AuthorSearchStrategy.java:21-23 | filtering a concatenation filters each part, in order |
| SearchStrategies.SelectIsSubsequence | src/main/java/com/biblioteca/strategy/AuthorSearchStrategy.java:21-23 | the filter's result is a subsequence of its input |
| SearchStrategies.SearchIsSubsequence | src/main/java/com/biblioteca/strategy/SearchContext.java:27-29 | every strategy returns documents of the list in list order |
| SearchStrategies.SelectNarrower | src/main/java/com/biblioteca/strategy/GlobalSearchStrategy.java:21-27 | a filter implied by another keeps a subsequence of what the other keeps |
| SearchStrategies.GlobalWidest | src/main/java/com/biblioteca/strategy/GlobalSearchStrategy.java:14-28 | title and author results are subsequences of the global result for the same query |
| SearchStrategies.CaseInsensitive | src/main/java/com/biblioteca/strategy/AuthorSearchStrategy.java:14-24 | for the substring searches, queries that lower-case alike give the same result |
| SearchStrategies.IdSearchUnique | src/main/java/com/biblioteca/strategy/IdSearchStrategy.java:14-24 | with unique ids, id search finds at most one document, and nothing when no id equals the trimmed query |
| SearchStrategies.SearchContext.constructor | src/main/java/com/biblioteca/strategy/SearchContext.java:13-15 | the default strategy is title search |
| SearchStrategies.SearchContext.WithStrategy | src/main/java/com/biblioteca/strategy/SearchContext.java:17-19 | starts with the given strategy |
| SearchStrategies.SearchContext.SetStrategy | src/main/java/com/biblioteca/strategy/SearchContext.java:21-25 | a `null` strategy keeps the current one; any other replaces it |
| SearchStrategies.SearchContext.ExecuteSearch | src/main/java/com/biblioteca/strategy/SearchContext.java:27-29 | the current strategy's result, a subsequence of the documents |
| SearchStrategies.SearchContext.GetCurrentStrategyName | src/main/java/com/biblioteca/strategy/SearchContext.java:31-33 | the current strategy's name |
| Users.QuotaOrder | src/main/java/com/biblioteca/model/User.java:23-37 | the quotas are 5, 10 and 3; external fewest, teachers most |
| Users.IndexOf | src/main/java/com/biblioteca/model/User.java:57-59 | the first position of an element that is present |
| Users.RemoveFirst | src/main/java/com/biblioteca/model/User.java:57-59 | `List.remove` drops the first copy and nothing else, and changes nothing when the element is absent |
| Users.RemoveFirstCount | src/main/java/com/biblioteca/model/User.java:57-59 | exactly one copy goes: one fewer as a multiset, and the length drops by one exactly when the id was held |
| Users.RemoveFirstAfterAppend | src/main/java/com/biblioteca/model/User.java:53-59 | removing what was just appended restores the list when it was not held |
| Users.User.Snapshot | src/main/java/com/biblioteca/model/User.java:12-21 | the value holds the object's id, held loans and type |
| Users.User.constructor | src/main/java/com/biblioteca/model/User.java:39-47 | a new user holds no loans and is registered on `today` |
| Users.User.FromRecord | src/main/java/com/biblioteca/io/DataPersistence.java:182-193 | the loader's object holds exactly the decoded value |
| Users.User.AddLoan | src/main/java/com/biblioteca/model/User.java:53-55 | appends the id, even one already held |
| Users.User.RemoveLoan | src/main/java/com/biblioteca/model/User.java:57-59 | the first copy of the id goes |
| Users.User.GetCurrentLoans | src/main/java/com/biblioteca/model/User.java:110-112 | the held loans as a copy |
| Users.User.SetCurrentLoans | src/main/java/com/biblioteca/model/User.java:114-116 | the held list becomes the given one, nothing else changes |
| Loans.NewLoan | src/main/java/com/biblioteca/model/Loan.java:27-34 | a new loan is ACTIVE, not returned, and keeps its ids and dates |
| Loans.Returned | src/main/java/com/biblioteca/model/Loan.java:36-39 | `returnDocument` marks the loan RETURNED on `today` and changes nothing else |
| Loans.UpdatedStatus | src/main/java/com/biblioteca/model/Loan.java:48-52 | only the status changes: an active overdue loan becomes OVERDUE, any other keeps its status |
| Loans.OverdueBoundary | src/main/java/com/biblioteca/model/Loan.java:41-46 | an open loan is overdue from the day after its due date, not on it; a returned one never is |
| Loans.UpdatedStatusProperties | src/main/java/com/biblioteca/model/Loan.java:48-52 | updating is idempotent, never causes or undoes a return, and leaves overdueness as it was |
| Loans.Loan.Snapshot | src/main/java/com/biblioteca/model/Loan.java:10-19 | the value holds the object's ids and status |
| Loans.Loan.constructor | src/main/java/com/biblioteca/model/Loan.java:27-34 | the object holds the new-loan value |
| Loans.Loan.FromRecord | src/main/java/com/biblioteca/io/DataPersistence.java:253-260 | the loader's object holds exactly the decoded value |
| Loans.Loan.ReturnDocument | src/main/java/com/biblioteca/model/Loan.java:36-39 | the object now holds the returned value |
| Loans.Loan.UpdateStatus | src/main/java/com/biblioteca/model/Loan.java:48-52 | the object now holds the updated value |
| Notifications.Deliveries | src/main/java/com/biblioteca/observer/LoanNotificationSystem.java:36-45 | one `update` attempt per observer, in order, with the message; an attempt throws exactly for the failing observers |
| Notifications.DeliveriesAppend | src/main/java/com/biblioteca/observer/LoanNotificationSystem.java:38-44 | notifying a concatenation notifies each part in turn |
| Notifications.FailuresAreIsolated | src/main/java/com/biblioteca/observer/LoanNotificationSystem.java:38-44 | every observer that does not throw gets the message, whatever the others do |
| Notifications.Without | src/main/java/com/biblioteca/observer/LoanNotificationSystem.java:29-33 | the observer leaves the list and no other does; the list is unchanged when the observer was not attached |
| Notifications.WithoutRemovesPosition | src/main/java/com/biblioteca/observer/LoanNotificationSystem.java:29-33 | without duplicates, detaching removes exactly the observer's position |
| Notifications.WithoutNoDuplicates | src/main/java/com/biblioteca/observer/LoanNotificationSystem.java:29-33 | detaching keeps the list free of duplicates |
| Notifications.DistinctCount | src/main/java/com/biblioteca/observer/LoanNotificationSystem.java:77-79 | without duplicates, the count equals the number of distinct observers |
| Notifications.MessageShapes | src/main/java/com/biblioteca/observer/LoanNotificationSystem.java:50-72 | each message names the user and the document at fixed places, and the three kinds never coincide |
| Notifications.LoanNotificationSystem.constructor | src/main/java/com/biblioteca/observer/LoanNotificationSystem.java:15-18 | no observers and nothing delivered |
| Notifications.LoanNotificationSystem.Attach | src/main/java/com/biblioteca/observer/LoanNotificationSystem.java:21-26 | `null` and already-attached observers are ignored; others go to the end; none held twice |
| Notifications.LoanNotificationSystem.Detach | src/main/java/com/biblioteca/observer/LoanNotificationSystem.java:29-33 | the observer goes if attached |
| Notifications.LoanNotificationSystem.NotifyObservers | src/main/java/com/biblioteca/observer/LoanNotificationSystem.java:36-45 | the log grows by exactly the deliveries to the current observers; the observers are unchanged |
| Notifications.LoanNotificationSystem.NotifyLoanCreated | src/main/java/com/biblioteca/observer/LoanNotificationSystem.java:50-54 | delivers the loan-created message to every observer |
| Notifications.LoanNotificationSystem.NotifyLoanReturned | src/main/java/com/biblioteca/observer/LoanNotificationSystem.java:59-63 | delivers the returned message to every observer |
| Notifications.LoanNotificationSystem.NotifyLoanOverdue | src/main/java/com/biblioteca/observer/LoanNotificationSystem.java:68-72 | delivers the overdue message to every observer |
| Notifications.LoanNotificationSystem.GetObserverCount | src/main/java/com/biblioteca/observer/LoanNotificationSystem.java:77-79 | the number of distinct observers attached |
| DataPersistence.ParseDocumentType | src/main/java/com/biblioteca/io/DataPersistence.java:101 | `valueOf` accepts exactly the constant names and gives that constant |
| DataPersistence.ParseUserType | src/main/java/com/biblioteca/io/DataPersistence.java:183 | `valueOf` accepts exactly the constant names and gives that constant |
| DataPersistence.ParseStatus | src/main/java/com/biblioteca/io/DataPersistence.java:260 | `valueOf` accepts exactly the constant names and gives that constant |
| DataPersistence.DocumentFields | src/main/java/com/biblioteca/io/DataPersistence.java:71-93 | a document line has nine fields |
| DataPersistence.DocumentRoundTrip | src/main/java/com/biblioteca/io/DataPersistence.java:71-123 | a storable document reads back as itself, the flag included |
| DataPersistence.ShortDocumentLine | src/main/java/com/biblioteca/io/DataPersistence.java:96-116 | a line of fewer than nine fields that does not throw decodes to `null` |
| DataPersistence.UnsupportedKindLine | src/main/java/com/biblioteca/io/DataPersistence.java:110-116 | DVD and NEWSPAPER lines never load |
| DataPersistence.AvailableFieldLenient | src/main/java/com/biblioteca/io/DataPersistence.java:106 | any text in the flag field loads: `true` in any case as available, anything else as not |
| DataPersistence.DecodeNineFields | src/main/java/com/biblioteca/io/DataPersistence.java:95-123 | nine delimiter-free fields with a non-empty last one decode field by field |
| DataPersistence.UserFields | src/main/java/com/biblioteca/io/DataPersistence.java:164-174 | a user line has seven fields |
| DataPersistence.UserRoundTrip | src/main/java/com/biblioteca/io/DataPersistence.java:164-194 | a storable user reads back with every field and the held loans in order |
| DataPersistence.ShortUserLine | src/main/java/com/biblioteca/io/DataPersistence.java:177-180 | a user line of fewer than six fields is `null` |
| DataPersistence.LoanFields | src/main/java/com/biblioteca/io/DataPersistence.java:235-245 | a loan line has seven fields |
| DataPersistence.LoanRoundTrip | src/main/java/com/biblioteca/io/DataPersistence.java:235-263 | a storable loan reads back as itself, return date and status included |
| DataPersistence.ShortLoanLine | src/main/java/com/biblioteca/io/DataPersistence.java:248-251 | a loan line of fewer than seven fields is `null` |
| DataPersistence.Loaded | src/main/java/com/biblioteca/io/DataPersistence.java:52-69 | a load loop keeps the entities of the lines that decode and is never longer than the file |
| DataPersistence.LoadedStep | src/main/java/com/biblioteca/io/DataPersistence.java:56-65 | one more line adds its entity at the end, or nothing |
| DataPersistence.LoadedAppend | src/main/java/com/biblioteca/io/DataPersistence.java:56-65 | loading two parts of a file is loading each in order |
| DataPersistence.LoadedFromLines | src/main/java/com/biblioteca/io/DataPersistence.java:56-65 | every loaded entity is what some line decodes to |
| DataPersistence.LoadedAll | src/main/java/com/biblioteca/io/DataPersistence.java:56-65 | when every line decodes, the loop returns exactly those entities |
| DataPersistence.LoadedNone | src/main/java/com/biblioteca/io/DataPersistence.java:56-65 | lines that do not decode leave no trace |
| DataPersistence.DocumentLines | src/main/java/com/biblioteca/io/DataPersistence.java:37-47 | one line per document |
| DataPersistence.UserLines | src/main/java/com/biblioteca/io/DataPersistence.java:130-140 | one line per user |
| DataPersistence.LoanLines | src/main/java/com/biblioteca/io/DataPersistence.java:201-211 | one line per loan |
| DataPersistence.DocumentsRoundTrip | src/main/java/com/biblioteca/io/DataPersistence.java:37-69 | saving storable documents and loading them gives the same list |
| DataPersistence.UsersRoundTrip | src/main/java/com/biblioteca/io/DataPersistence.java:130-162 | saving storable users and loading them gives the same list |
| DataPersistence.LoansRoundTrip | src/main/java/com/biblioteca/io/DataPersistence.java:201-233 | saving storable loans and loading them gives the same list |
| DataPersistence.UserRecords | src/main/java/com/biblioteca/io/DataPersistence.java:130-136 | the values of the user objects, position by position |
| DataPersistence.LoanRecords | src/main/java/com/biblioteca/io/DataPersistence.java:201-207 | the values of the loan objects, position by position |
| DataPersistence.DataPersistence.constructor | src/main/java/com/biblioteca/io/DataPersistence.java:27-30 | the component reads and writes the given store |
| DataPersistence.DataPersistence.SaveDocuments | src/main/java/com/biblioteca/io/DataPersistence.java:37-47 | the documents file is replaced by one line per document, the other files are untouched |
| DataPersistence.DataPersistence.LoadDocuments | src/main/java/com/biblioteca/io/DataPersistence.java:52-69 | the documents of the lines that decode, in file order |
| DataPersistence.DataPersistence.SaveUsers | src/main/java/com/biblioteca/io/DataPersistence.java:130-140 | the users file is replaced by one line per user, the other files are untouched |
| DataPersistence.DataPersistence.LoadUsers | src/main/java/com/biblioteca/io/DataPersistence.java:145-162 | fresh, distinct user objects holding the users of the lines that decode, in file order |
| DataPersistence.DataPersistence.SaveLoans | src/main/java/com/biblioteca/io/DataPersistence.java:201-211 | the loans file is replaced by one line per loan, the other files are untouched |
| DataPersistence.DataPersistence.LoadLoans | src/main/java/com/biblioteca/io/DataPersistence.java:216-233 | fresh, distinct loan objects holding the loans of the lines that decode, in file order |
| LibraryState.EmptyState | src/main/java/com/biblioteca/service/LibraryService.java:36-45 | a new service has no documents, users or loans, and the counter at 1 |
| LibraryState.ErrorCodes | src/main/java/com/biblioteca/exception/LibraryException.java:10-18 | only factory refusals and missing documents carry their own codes; the not-found message names the id |
| LibraryState.LoanNumberOfLoanId | src/main/java/com/biblioteca/service/LibraryService.java:316-317 | the number parsed after the first character of a generated id is the counter it came from |
| LibraryState.LoanIdInjective | src/main/java/com/biblioteca/service/LibraryService.java:196 | different counters give different loan ids |
| LibraryState.AddDocument | src/main/java/com/biblioteca/service/LibraryService.java:55-73 | succeeds exactly when the factory builds a document whose id is new, and then only appends it; a failure changes nothing |
| LibraryState.AddBuilt | src/main/java/com/biblioteca/service/LibraryService.java:58-65 | once built, a duplicate id is refused and a new id is appended |
| LibraryState.RemoveDocument | src/main/java/com/biblioteca/service/LibraryService.java:123-137 | unknown id gives not-found; it succeeds exactly for an available document, which is then the only one removed; a failure changes nothing |
| LibraryState.RemovePassed | src/main/java/com/biblioteca/service/LibraryService.java:124-136 | a found, available document is removed |
| LibraryState.FirstIdIsFirstSame | src/main/java/com/biblioteca/service/LibraryService.java:124-133 | the first document with an id is also the first one `remove` finds equal |
| LibraryState.AvailableDocuments | src/main/java/com/biblioteca/service/LibraryService.java:114-118 | exactly the available documents, never more than the list |
| LibraryState.AvailableDocumentsAppend | src/main/java/com/biblioteca/service/LibraryService.java:114-118 | the filter keeps list order across a concatenation |
| LibraryState.RegisterUser | src/main/java/com/biblioteca/service/LibraryService.java:144-152 | a taken id is refused and nothing changes; otherwise the user is added and the registry grows by one |
| LibraryState.FindUser | src/main/java/com/biblioteca/service/LibraryService.java:157-163 | the registered user, or not-found exactly for an unregistered id |
| LibraryState.CreateLoan | src/main/java/com/biblioteca/service/LibraryService.java:177-221 | the checks in the source's order, each with its error and no change; success exactly when all pass, with the new loan, the document lent, the id appended to the user's list and the counter advanced |
| LibraryState.CreateLoanGranted | src/main/java/com/biblioteca/service/LibraryService.java:195-213 | once every check passes, the loan is granted with the next id |
| LibraryState.ReturnDocument | src/main/java/com/biblioteca/service/LibraryService.java:226-257 | unknown, returned and user-less loans fail with no change; a missing document fails with the loan already closed; success exactly otherwise, with the document available again and one copy of its id off the user's list |
| LibraryState.ReturnDocumentPassed | src/main/java/com/biblioteca/service/LibraryService.java:238-246 | for an open loan of a registered user, the document lookup decides between the failed and the completed return |
| LibraryState.ActiveLoans | src/main/java/com/biblioteca/service/LibraryService.java:262-266 | exactly the loans whose stored status is ACTIVE |
| LibraryState.OverdueLoans | src/main/java/com/biblioteca/service/LibraryService.java:271-275 | exactly the loans overdue on `today` |
| LibraryState.UserLoans | src/main/java/com/biblioteca/service/LibraryService.java:280-284 | exactly the user's loans, of any status |
| LibraryState.Statistics | src/main/java/com/biblioteca/service/LibraryService.java:346-357 | the five fixed keys |
| LibraryState.StatisticsCountQueries | src/main/java/com/biblioteca/service/LibraryService.java:346-357 | the loan counts are the sizes of the query results, and no count exceeds what it ranges over |
| LibraryState.ActiveAndOverdue | src/main/java/com/biblioteca/service/LibraryService.java:262-284 | an active loan is in the overdue result exactly when it is past due, and always among its user's loans |
| LibraryState.PutAll | src/main/java/com/biblioteca/service/LibraryService.java:306-309 | every value's key is present, and each key holds a value that has it |
| LibraryState.PutAllLastWins | src/main/java/com/biblioteca/service/LibraryService.java:307-309 | a key holds the last value put under it |
| LibraryState.LoadLoanRecords | src/main/java/com/biblioteca/service/LibraryService.java:312-321 | every loan the loop kept lies under its own id |
| LibraryState.AbortedLoadStops | src/main/java/com/biblioteca/service/LibraryService.java:312-326 | once an id fails to parse, the later loans are never looked at |
| LibraryState.LoadAbortsIff | src/main/java/com/biblioteca/service/LibraryService.java:316-317 | the loop stops exactly when some loan id has no number after its first character |
| LibraryState.LoadPutsAll | src/main/java/com/biblioteca/service/LibraryService.java:313-314 | with every id numbered, every loan is put |
| LibraryState.LoadedCounterFresh | src/main/java/com/biblioteca/service/LibraryService.java:318-320 | the reloaded counter is above every loaded id's number |
| LibraryState.LoadedCounterTight | src/main/java/com/biblioteca/service/LibraryService.java:318-320 | the reloaded counter is 1 or one past a loaded id's number |
| LibraryState.LoadState | src/main/java/com/biblioteca/service/LibraryService.java:297-327 | the documents that read, the users under their ids and the loans under theirs |
| LibraryState.LoadNothing | src/main/java/com/biblioteca/service/LibraryService.java:36-48 | an empty store loads an empty service |
| LibraryState.KeyOrderCardinality | src/main/java/com/biblioteca/service/LibraryService.java:169 | a listing of a map's values in key order has one entry per key |
| LibraryState.KeysWhere | src/main/java/com/biblioteca/service/LibraryService.java:263-265 | the kept keys are exactly the listed keys whose loan passes the filter |
| LibraryState.KeysWhereOrder | src/main/java/com/biblioteca/service/LibraryService.java:263-265 | filtering a key order of the registry gives a key order of the loans that pass |
| LibraryState.ValuesInOrder | src/main/java/com/biblioteca/service/LibraryService.java:335-336 | the map's values in the order of the keys |
| LibraryState.PutValuesBack | src/main/java/com/biblioteca/service/LibraryService.java:306-314 | putting a saved registry's values back, in any order, rebuilds the registry |
| LibraryState.SaveThenLoad | src/main/java/com/biblioteca/service/LibraryService.java:297-341 | saving and reloading restores documents, users and loans |
| LibraryInvariant.EmptyInv | src/main/java/com/biblioteca/service/LibraryService.java:36-45 | a new service satisfies the invariant |
| LibraryInvariant.AddDocumentPreserves | src/main/java/com/biblioteca/service/LibraryService.java:55-73 | `addDocument` keeps the invariant |
| LibraryInvariant.RemoveDocumentPreserves | src/main/java/com/biblioteca/service/LibraryService.java:123-137 | `removeDocument` keeps the invariant: no document on loan ever goes |
| LibraryInvariant.RegisterUserPreserves | src/main/java/com/biblioteca/service/LibraryService.java:144-152 | registering a user who holds nothing keeps the invariant |
| LibraryInvariant.NextIdUnused | src/main/java/com/biblioteca/service/LibraryService.java:196 | the id drawn from the counter is not yet used |
| LibraryInvariant.AvailableNotHeld | src/main/java/com/biblioteca/service/LibraryService.java:191-204 | nobody holds an available document |
| LibraryInvariant.CreateLoanPreserves | src/main/java/com/biblioteca/service/LibraryService.java:177-221 | `createLoan` keeps the invariant: availability, held lists and quota stay in step |
| LibraryInvariant.RemoveFirstDistinct | src/main/java/com/biblioteca/model/User.java:57-59 | on a list without repeats, `remove` takes out the one copy and adds no repeat |
| LibraryInvariant.ReturnSucceeds | src/main/java/com/biblioteca/service/LibraryService.java:226-257 | under the invariant, every open loan can be returned |
| LibraryInvariant.ReturnDocumentPreserves | src/main/java/com/biblioteca/service/LibraryService.java:226-257 | `returnDocument` keeps the invariant |
| LibraryInvariant.LendThenReturn | src/main/java/com/biblioteca/service/LibraryService.java:177-257 | returning a loan just made restores documents and users; the loan stays, returned |
| LibraryInvariant.ReturnAfterLend | src/main/java/com/biblioteca/service/LibraryService.java:177-257 | a loan just granted can be returned at once, and the return succeeds |
| LibraryInvariant.UnlistedNotOnLoan | src/main/java/com/biblioteca/service/LibraryService.java:123-137 | with every open loan resolving, a document id missing from the list has no open loan |
| LibraryInvariant.ReloadKeepsInv | src/main/java/com/biblioteca/service/LibraryService.java:297-341 | a reload gives the same state apart from the counter, which is no higher and still fresh, so the invariant holds |
| LibraryServices.LoadedUsers | src/main/java/com/biblioteca/service/LibraryService.java:306-309 | the user loop puts each loaded user under its id, a later one replacing an earlier |
| LibraryServices.LoadedLoans | src/main/java/com/biblioteca/service/LibraryService.java:312-321 | the loan loop's registry and counter are those of the loop over the loaded values |
| LibraryServices.FilterLoans | src/main/java/com/biblioteca/service/LibraryService.java:263-265 | the stream filter keeps, in order, the loans whose value passes |
| LibraryServices.WriteStore | src/main/java/com/biblioteca/service/LibraryService.java:334-336 | the three files are replaced by the lines of the three lists |
| LibraryServices.LibraryService.constructor | src/main/java/com/biblioteca/service/LibraryService.java:36-48 | title search, no observers, and the state `loadData` builds from the store |
| LibraryServices.LibraryService.LoadData | src/main/java/com/biblioteca/service/LibraryService.java:297-327 | the service holds the state loaded from the three files, registries keyed by their ids |
| LibraryServices.LibraryService.LoadDocumentsInto | src/main/java/com/biblioteca/service/LibraryService.java:300-303 | the collection holds the loaded documents in file order |
| LibraryServices.LibraryService.FindDocumentIndex | src/main/java/com/biblioteca/service/LibraryService.java:78-87 | the iterator loop finds the first position holding the id |
| LibraryServices.LibraryService.FindDocumentById | src/main/java/com/biblioteca/service/LibraryService.java:78-87 | the first document with the id, or `null` |
| LibraryServices.LibraryService.AddDocument | src/main/java/com/biblioteca/service/LibraryService.java:55-73 | moves the service as the `addDocument` transition does and reports its outcome; saves on success only |
| LibraryServices.LibraryService.InsertDocument | src/main/java/com/biblioteca/service/LibraryService.java:61-68 | refuses a duplicate id with no change, otherwise appends and saves |
| LibraryServices.LibraryService.Append | src/main/java/com/biblioteca/service/LibraryService.java:65 | the document is appended to the collection |
| LibraryServices.LibraryService.SearchDocuments | src/main/java/com/biblioteca/service/LibraryService.java:92-94 | the current strategy's result over all documents, in collection order |
| LibraryServices.LibraryService.SearchDocumentsWith | src/main/java/com/biblioteca/service/LibraryService.java:99-102 | installs a non-null strategy, then searches with the strategy in use |
| LibraryServices.LibraryService.GetAllDocuments | src/main/java/com/biblioteca/service/LibraryService.java:107-109 | every document in collection order |
| LibraryServices.LibraryService.GetAvailableDocuments | src/main/java/com/biblioteca/service/LibraryService.java:114-118 | the available documents in collection order |
| LibraryServices.LibraryService.RemoveDocument | src/main/java/com/biblioteca/service/LibraryService.java:123-137 | moves the service as the `removeDocument` transition does and reports its outcome; saves on success only |
| LibraryServices.LibraryService.Drop | src/main/java/com/biblioteca/service/LibraryService.java:133 | the first equal document leaves the collection |
| LibraryServices.LibraryService.RegisterUser | src/main/java/com/biblioteca/service/LibraryService.java:144-152 | moves the service as the `registerUser` transition does, registering this very object; saves on success only |
| LibraryServices.LibraryService.PutUser | src/main/java/com/biblioteca/service/LibraryService.java:149 | the user object is put under its id |
| LibraryServices.LibraryService.FindUserById | src/main/java/com/biblioteca/service/LibraryService.java:157-163 | the registered object exactly for a registered id, otherwise not-found |
| LibraryServices.LibraryService.GetAllUsers | src/main/java/com/biblioteca/service/LibraryService.java:168-170 | every registered user object exactly once |
| LibraryServices.LibraryService.UserList | src/main/java/com/biblioteca/service/LibraryService.java:169 | the user objects listed in an order of their keys |
| LibraryServices.LibraryService.CreateLoan | src/main/java/com/biblioteca/service/LibraryService.java:177-221 | moves the service as the `createLoan` transition does and returns its loan as a fresh object; notifies and saves on success only |
| LibraryServices.LibraryService.Grant | src/main/java/com/biblioteca/service/LibraryService.java:196-213 | once all checks pass: the lending changes, then the loan-created delivery, then the save |
| LibraryServices.LibraryService.Lend | src/main/java/com/biblioteca/service/LibraryService.java:196-205 | the counter advances, the document is lent, the user holds its id and the new loan is registered |
| LibraryServices.LibraryService.IssueLoan | src/main/java/com/biblioteca/service/LibraryService.java:196-200 | the loan takes the counter's id and is due fourteen days later; the counter advances |
| LibraryServices.LibraryService.Checkout | src/main/java/com/biblioteca/service/LibraryService.java:203-204 | the document becomes unavailable and its id is appended to the user's list |
| LibraryServices.LibraryService.PutLoan | src/main/java/com/biblioteca/service/LibraryService.java:205 | the loan is registered under its id |
| LibraryServices.LibraryService.ReturnDocument | src/main/java/com/biblioteca/service/LibraryService.java:226-257 | moves the service as the `returnDocument` transition does and reports its outcome; notifies and saves on success only |
| LibraryServices.LibraryService.ReturnOpenLoan | src/main/java/com/biblioteca/service/LibraryService.java:238-249 | for an open loan of a registered user, the rest of the same transition |
| LibraryServices.LibraryService.Finish | src/main/java/com/biblioteca/service/LibraryService.java:241-249 | the loan is closed, then the return completes exactly when the document is present |
| LibraryServices.LibraryService.Complete | src/main/java/com/biblioteca/service/LibraryService.java:242-249 | the document is given back, the returned message delivered, the store saved |
| LibraryServices.LibraryService.CloseLoan | src/main/java/com/biblioteca/service/LibraryService.java:241 | the registered loan is marked returned |
| LibraryServices.LibraryService.Restore | src/main/java/com/biblioteca/service/LibraryService.java:242-243 | the document is available again and the id leaves the user's list |
| LibraryServices.LibraryService.PublishLoanCreated | src/main/java/com/biblioteca/service/LibraryService.java:208-211 | every observer gets the loan-created message, the store is saved, the registries are untouched |
| LibraryServices.LibraryService.PublishLoanReturned | src/main/java/com/biblioteca/service/LibraryService.java:246-249 | every observer gets the returned message, the store is saved, the registries are untouched |
| LibraryServices.LibraryService.SelectLoans | src/main/java/com/biblioteca/service/LibraryService.java:263-265 | the loans that pass the filter, each once, in an order of their keys |
| LibraryServices.LibraryService.SelectedLoans | src/main/java/com/biblioteca/service/LibraryService.java:262-284 | such a listing holds exactly the loans of the selected sub-registry, one per key |
| LibraryServices.LibraryService.GetActiveLoans | src/main/java/com/biblioteca/service/LibraryService.java:262-266 | exactly the registered loans the active query selects, each once |
| LibraryServices.LibraryService.GetOverdueLoans | src/main/java/com/biblioteca/service/LibraryService.java:271-275 | exactly the registered loans overdue on `today`, each once |
| LibraryServices.LibraryService.GetUserLoans | src/main/java/com/biblioteca/service/LibraryService.java:280-284 | exactly the user's registered loans, each once |
| LibraryServices.LibraryService.GetStatistics | src/main/java/com/biblioteca/service/LibraryService.java:346-357 | the statistics of the current state |
| LibraryServices.LibraryService.LoanList | src/main/java/com/biblioteca/service/LibraryService.java:336 | the loan objects listed in an order of their keys |
| LibraryServices.LibraryService.SaveData | src/main/java/com/biblioteca/service/LibraryService.java:332-341 | the store holds a save of the current state, and the state is unchanged |
| LibraryServices.LibraryService.StoreLists | src/main/java/com/biblioteca/service/LibraryService.java:334-336 | writing the three lists taken from the service saves the service |

## Left out

- Dates: `LocalDate` is a day number, and `LocalDate.now()` is a `today` parameter. The text form of a date is a signed decimal. The model keeps only that printing and parsing invert each other, not the ISO calendar format.
- The file system: `FileManager` is replaced by a map from file name to lines, and a file never written reads as empty. A field holding a line break is not modelled, because the store splits on lines.
- I/O failures: save failures are caught and logged by the source and never reach the caller, so the model always saves.
- Logging: `LibraryLogger` and every logging call are left out. They change no state the model has.
- Observers: the concrete `ConsoleNotifier`, `EmailNotifier` and `FileNotifier` are left out. An observer is an opaque id, "this observer's `update` throws" is the parameter `failing`, and an update attempt is a record in the subject's log.
- Singletons: `DocumentFactory.getInstance` is a module of functions.
- Display and `toString` code, `getDisplayInfo` included, is left out. The specific-info block is kept.
- Null references: a `null` document type, parameter object, query or strategy is an `Option`. A `null` id, title or other string inside an entity is not modelled, so entity fields are plain strings.
- Composite: the category tree is a value. In-place mutation and aliasing between trees are left out, and so is `display`.
- Composite.Remove: removes the first child that is equal as a value. The source's `children.remove(component)` removes the first child that is the same object, because neither component class overrides `equals`. The two differ when distinct but value-equal components are present. With children `[X, Y, X2]`, where X2 is a different leaf wrapping the same document as X, the source's `remove(X2)` gives `[X, Y]` and the model gives `[Y, X2]`. A value-equal component that is not itself a child is removed by the model but left alone by the source. Composite.ChildIndex finds a position by the same value equality.
- Document collection: the collection holds documents as values. In the source, a document object could also be reachable from outside the collection; that aliasing is not modelled.
- HashMap order: `users.values()` and `loans.values()` are some listing of the keys, each key once.
- Statistics overflow: the counts are unbounded integers, not Java `int`. A registry with more than `Integer.MAX_VALUE` entries cannot be built in practice.
- `getNotificationSystem` only returns the subject. The service exposes `notifications` as a field instead.
- Users.User.Snapshot: name, e-mail, phone and registration date are kept, but no service operation reads or changes them.
- LibraryInvariant.CreateLoanPreserves: requires the counter below `Integer.MAX_VALUE`. At that value `loanIdCounter++` wraps to a negative number, and a later id could repeat.
- LibraryState.LoadedCounterFresh: requires that no loaded id carries `Integer.MAX_VALUE`. There `num + 1` wraps, and the counter no longer stays above every id.
- LibraryState.SaveThenLoad: requires every field storable (no delimiter in any text field, comma-free held ids, non-empty last fields) and every loan id numbered. The source only ensures storable text for the fields the factory validates; user fields are not validated.
- Text.ToLower: lower-cases ASCII letters only; Java's `toLowerCase` also maps other Unicode letters.
- Text.ParseInt: accepts ASCII digits only; Java's `Integer.parseInt` also accepts other Unicode decimal digits.
- InputValidator.MatchesEmail: the e-mail pattern is written out for the shape it accepts: a local part, `@`, a non-empty domain run, a dot and at least two letters. There is no general regular-expression engine. MatchesEmail is a predicate; InputValidator.EmailHasOneAt and InputValidator.EmailShapes state its properties.
- `LibraryService` sub-methods: `Grant`, `Lend`, `IssueLoan`, `Checkout`, `PutLoan`, `ReturnOpenLoan`, `Finish`, `Complete`, `CloseLoan`, `Restore`, `InsertDocument`, `Append`, `Drop` and `PutUser` are not operations of the source. Each stands for a consecutive run of statements of the operation that calls it.
