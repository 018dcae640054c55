/**
 * The service's document registry: a growable list of documents, and an iterator that walks
 * the live list with a cursor. The iterator reads the collection's list itself, not a copy,
 * so it sees documents added or removed after it was created.
 */
module DocumentCollections {
  import opened Wrappers
  import opened Documents

  /** The first index holding a document equal to `d` (same kind, same id). */
  function IndexOfSame(docs: seq<Document>, d: Document): (r: Option<nat>)
    ensures r.Some? ==> r.value < |docs| && SameDocument(d, docs[r.value])
    ensures r.Some? ==> forall j :: 0 <= j < r.value ==> !SameDocument(d, docs[j])
    ensures r.None? <==> forall j :: 0 <= j < |docs| ==> !SameDocument(d, docs[j])
  {
    if docs == [] then None
    else if SameDocument(d, docs[0]) then Some(0)
    else match IndexOfSame(docs[1..], d)
      case None => None
      case Some(i) => Some(i + 1)
  }

  /** `List.remove(Object)`: the first equal document goes; with none, nothing changes. */
  function RemoveFirstSame(docs: seq<Document>, d: Document): (r: seq<Document>)
    ensures (forall j :: 0 <= j < |docs| ==> !SameDocument(d, docs[j])) ==> r == docs
    ensures (exists j :: 0 <= j < |docs| && SameDocument(d, docs[j])) ==>
              exists i :: && 0 <= i < |docs| && SameDocument(d, docs[i])
                          && (forall j :: 0 <= j < i ==> !SameDocument(d, docs[j]))
                          && r == docs[..i] + docs[i + 1..]
  {
    match IndexOfSame(docs, d)
    case None => docs
    case Some(i) => docs[..i] + docs[i + 1..]
  }

  /** Removing a document drops the size by one exactly when an equal one was stored. */
  lemma {:induction false} RemoveFirstSameSize(docs: seq<Document>, d: Document)
    ensures |RemoveFirstSame(docs, d)| == if IndexOfSame(docs, d).Some? then |docs| - 1 else |docs|
  {
  }

  /** Removing what was just added undoes the addition when nothing equal was stored before. */
  lemma {:induction false} RemoveAfterAdd(docs: seq<Document>, d: Document)
    requires forall j :: 0 <= j < |docs| ==> !SameDocument(d, docs[j])
    ensures RemoveFirstSame(docs + [d], d) == docs
  {
    var t := docs + [d];
    assert forall j :: 0 <= j < |docs| ==> t[j] == docs[j];
    assert SameDocument(d, t[|docs|]);
    assert IndexOfSame(t, d) == Some(|docs|);
    assert t[..|docs|] == docs;
  }

  /** A list of documents in insertion order. */
  class DocumentCollection {
    var documents: seq<Document>

    constructor ()
      ensures documents == []
    {
      documents := [];
    }

    /** `createIterator`: an iterator at position 0 over this very list. */
    method CreateIterator() returns (it: DocumentIterator)
      ensures fresh(it) && it.collection == this && it.position == 0
    {
      it := new DocumentIterator(this);
    }

    /** `add`: a `null` document is ignored; any other is appended, duplicates included. */
    method Add(document: Option<Document>)
      modifies this
      ensures documents == if document.Some? then old(documents) + [document.value] else old(documents)
    {
      if document.Some? {
        documents := documents + [document.value];
      }
    }

    /** `remove`: the first document equal to the argument goes. */
    method Remove(document: Document)
      modifies this
      ensures documents == RemoveFirstSame(old(documents), document)
    {
      documents := RemoveFirstSame(documents, document);
    }

    function Size(): nat
      reads this
    {
      |documents|
    }

    predicate IsEmpty()
      reads this
    {
      Size() == 0
    }

    /** `get`: the document at a valid index, `null` for any other index. */
    function Get(index: int): (r: Option<Document>)
      reads this
      ensures r.Some? <==> 0 <= index < Size()
      ensures r.Some? ==> r.value == documents[index]
    {
      if 0 <= index < |documents| then Some(documents[index]) else None
    }

    method Clear()
      modifies this
      ensures documents == []
    {
      documents := [];
    }

    /** `getAll`: a copy of the list, in insertion order. */
    method GetAll() returns (all: seq<Document>)
      ensures all == documents
    {
      all := documents;
    }

    /** `setAvailable` on the stored document at `index`: only its flag changes. */
    method SetAvailable(index: nat, available: bool)
      requires index < |documents|
      modifies this
      ensures documents == old(documents)[index := WithAvailable(old(documents)[index], available)]
    {
      documents := documents[index := WithAvailable(documents[index], available)];
    }
  }

  /** A cursor over a collection's live list. */
  class DocumentIterator {
    const collection: DocumentCollection
    var position: nat

    constructor (collection: DocumentCollection)
      ensures this.collection == collection && position == 0
    {
      this.collection := collection;
      position := 0;
    }

    predicate HasNext()
      reads this, collection
    {
      position < |collection.documents|
    }

    /**
     * `next`: the document under the cursor, and the cursor moves on; when the list is
     * exhausted, `NoSuchElementException` and the cursor stays where it is.
     */
    method Next() returns (r: Result<Document, string>)
      modifies this
      ensures old(HasNext()) ==> r == Success(collection.documents[old(position)]) && position == old(position) + 1
      ensures !old(HasNext()) ==> r == Failure("No more documents to iterate") && position == old(position)
    {
      if !HasNext() {
        return Failure("No more documents to iterate");
      }
      r := Success(collection.documents[position]);
      position := position + 1;
    }

    method Reset()
      modifies this
      ensures position == 0
    {
      position := 0;
    }

    function GetCurrentPosition(): nat
      reads this
    {
      position
    }
  }
}
