/**
 * Document categories: a tree whose leaves wrap single documents and whose inner nodes are
 * named categories with an ordered list of children. A category's documents are its
 * children's documents, concatenated in child order, to any depth. A leaf refuses to take
 * or give up children.
 */
module Composite {
  import opened Wrappers
  import opened Documents

  datatype Component =
    | Leaf(document: Document)
    | Category(categoryName: string, children: seq<Component>)

  /** `UnsupportedOperationException` from a leaf, with its message. */
  datatype CompositeError = Unsupported(message: string)

  /** A new category: named, with no children. */
  function NewCategory(name: string): (c: Component)
    ensures c.Category? && c.categoryName == name && c.children == []
  {
    Category(name, [])
  }

  /** `getName`: a category's own name; for a leaf, the document's title. */
  function GetName(c: Component): string
  {
    match c
    case Leaf(d) => d.title
    case Category(name, _) => name
  }

  predicate IsComposite(c: Component)
  {
    c.Category?
  }

  /** `getChildren`: a copy of a category's list; the empty list for a leaf. */
  function GetChildren(c: Component): (r: seq<Component>)
    ensures c.Leaf? ==> r == []
    ensures c.Category? ==> r == c.children
  {
    match c
    case Leaf(_) => []
    case Category(_, children) => children
  }

  /** `getDocuments`: a leaf's one document, or every document below a category in order. */
  function GetDocuments(c: Component): seq<Document>
    decreases c
  {
    match c
    case Leaf(d) => [d]
    case Category(_, children) => DocumentsOf(children)
  }

  /** The children's documents, concatenated in child order. */
  function DocumentsOf(cs: seq<Component>): seq<Document>
    decreases cs
  {
    if cs == [] then [] else GetDocuments(cs[0]) + DocumentsOf(cs[1..])
  }

  lemma {:induction false} DocumentsOfAppend(a: seq<Component>, b: seq<Component>)
    ensures DocumentsOf(a + b) == DocumentsOf(a) + DocumentsOf(b)
  {
    if a == [] {
      assert a + b == b;
    } else {
      assert (a + b)[0] == a[0];
      assert (a + b)[1..] == a[1..] + b;
      DocumentsOfAppend(a[1..], b);
    }
  }

  /** `add`: a category appends the child; a leaf throws. */
  function Add(c: Component, child: Component): (r: Result<Component, CompositeError>)
    ensures c.Leaf? <==> r == Failure(Unsupported("Cannot add to a leaf node"))
    ensures r.Success? ==> r.value.Category? && GetName(r.value) == GetName(c)
    ensures r.Success? ==> GetChildren(r.value) == GetChildren(c) + [child]
  {
    match c
    case Leaf(_) => Failure(Unsupported("Cannot add to a leaf node"))
    case Category(name, children) => Success(Category(name, children + [child]))
  }

  /** The first index of a child equal to `x`. */
  function ChildIndex(cs: seq<Component>, x: Component): (r: Option<nat>)
    ensures r.Some? ==> r.value < |cs| && cs[r.value] == x && x !in cs[..r.value]
    ensures r.None? <==> x !in cs
  {
    if cs == [] then None
    else if cs[0] == x then Some(0)
    else match ChildIndex(cs[1..], x)
      case None => None
      case Some(i) =>
        assert cs[..i + 1] == [cs[0]] + cs[1..][..i];
        Some(i + 1)
  }

  /**
   * `remove`: a category drops the first child equal to the argument (the children have no
   * `equals` of their own, so in the source this is the very object; as values the result is
   * the same list); a child not present changes nothing; a leaf throws.
   */
  function Remove(c: Component, child: Component): (r: Result<Component, CompositeError>)
    ensures c.Leaf? <==> r == Failure(Unsupported("Cannot remove from a leaf node"))
    ensures r.Success? ==> r.value.Category? && GetName(r.value) == GetName(c)
    ensures r.Success? && child !in GetChildren(c) ==> r.value == c
    ensures r.Success? && child in GetChildren(c) ==>
              exists i :: && 0 <= i < |GetChildren(c)| && GetChildren(c)[i] == child
                          && child !in GetChildren(c)[..i]
                          && GetChildren(r.value) == GetChildren(c)[..i] + GetChildren(c)[i + 1..]
  {
    match c
    case Leaf(_) => Failure(Unsupported("Cannot remove from a leaf node"))
    case Category(name, children) =>
      match ChildIndex(children, child)
      case None => Success(c)
      case Some(i) => Success(Category(name, children[..i] + children[i + 1..]))
  }

  /** A leaf's documents are the one wrapped document; a new category holds none. */
  lemma {:induction false} LeafAndEmptyCategory(d: Document, name: string)
    ensures GetDocuments(Leaf(d)) == [d]
    ensures GetDocuments(NewCategory(name)) == [] && TotalDocumentCount(NewCategory(name)) == 0
    ensures GetName(Leaf(d)) == d.title && !IsComposite(Leaf(d)) && IsComposite(NewCategory(name))
  {
  }

  /** Adding a child puts that child's documents after the ones already there. */
  lemma {:induction false} AddAppendsDocuments(c: Component, child: Component)
    requires c.Category?
    ensures GetDocuments(Add(c, child).value) == GetDocuments(c) + GetDocuments(child)
  {
    DocumentsOfAppend(c.children, [child]);
    assert DocumentsOf([child]) == GetDocuments(child) + DocumentsOf([]);
  }

  /** Removing a child takes exactly that child's documents out of the category's. */
  lemma {:induction false} RemoveDropsDocuments(c: Component, i: nat)
    requires c.Category? && i < |c.children| && c.children[i] !in c.children[..i]
    ensures var r := Remove(c, c.children[i]).value;
      && GetDocuments(r) == DocumentsOf(c.children[..i]) + DocumentsOf(c.children[i + 1..])
      && GetDocuments(c) == DocumentsOf(c.children[..i]) + GetDocuments(c.children[i]) + DocumentsOf(c.children[i + 1..])
  {
    var cs := c.children;
    assert ChildIndex(cs, cs[i]) == Some(i);
    DocumentsOfAppend(cs[..i], cs[i + 1..]);
    assert cs == cs[..i] + ([cs[i]] + cs[i + 1..]);
    DocumentsOfAppend(cs[..i], [cs[i]] + cs[i + 1..]);
    assert ([cs[i]] + cs[i + 1..])[1..] == cs[i + 1..];
  }

  /** `getTotalDocumentCount`: how many documents lie below, counting every depth. */
  function TotalDocumentCount(c: Component): nat
  {
    |GetDocuments(c)|
  }

  /** The count of a category is the sum of its children's counts. */
  lemma {:induction false} CountIsSum(cs: seq<Component>)
    ensures |DocumentsOf(cs)| == SumCounts(cs)
  {
    if cs != [] {
      CountIsSum(cs[1..]);
    }
  }

  function SumCounts(cs: seq<Component>): nat
  {
    if cs == [] then 0 else TotalDocumentCount(cs[0]) + SumCounts(cs[1..])
  }

  /** `findDocumentById`: the first document with the id in flattened order, or `null`. */
  function FindDocumentById(c: Component, id: string): (r: Option<Document>)
    ensures r.Some? ==> r.value in GetDocuments(c) && r.value.id == id
    ensures r.None? <==> forall d :: d in GetDocuments(c) ==> d.id != id
  {
    FirstDocument(GetDocuments(c), id)
  }

  /**
   * Lookup as a search down the tree: the first child, in order, below which a document
   * with the id lies, decides; which is the first match in flattened order.
   */
  lemma {:induction false} FindInFirstChild(name: string, first: Component, rest: seq<Component>, id: string)
    ensures FindDocumentById(Category(name, [first] + rest), id)
            == if FindDocumentById(first, id).Some? then FindDocumentById(first, id)
               else FindDocumentById(Category(name, rest), id)
  {
    var cs := [first] + rest;
    assert cs[1..] == rest;
    assert GetDocuments(Category(name, cs)) == GetDocuments(first) + DocumentsOf(rest);
    FirstDocumentAppend(GetDocuments(first), DocumentsOf(rest), id);
  }
}
