/**
 * Document search: four interchangeable strategies, each an order-preserving filter of a
 * document list by a query, and the context object that holds the strategy in use. Every
 * strategy answers a `null` or blank query with an empty list. Title, author and global
 * search compare lower-cased text by substring; id search compares the trimmed query with
 * the id exactly.
 */
module SearchStrategies {
  import opened Wrappers
  import opened Text
  import opened Documents

  datatype Strategy = TitleSearch | AuthorSearch | IdSearch | GlobalSearch

  /** `getStrategyName`. */
  function StrategyName(s: Strategy): string
  {
    match s
    case TitleSearch => "Title Search"
    case AuthorSearch => "Author Search"
    case IdSearch => "ID Search"
    case GlobalSearch => "Global Search"
  }

  /** Each strategy reports its own name; no two share one. */
  lemma {:induction false} StrategyNamesDistinct(s: Strategy, t: Strategy)
    ensures StrategyName(s) == StrategyName(t) <==> s == t
  {
  }

  /**
   * The query a strategy compares with: lower-cased and then trimmed for the substring
   * searches, only trimmed for the id search.
   */
  function Normalized(s: Strategy, query: string): string
  {
    if s == IdSearch then Trim(query) else Trim(ToLower(query))
  }

  /** The filter each strategy's stream applies, for an already normalised query `q`. */
  predicate Matches(s: Strategy, d: Document, q: string)
  {
    match s
    case TitleSearch => Contains(ToLower(d.title), q)
    case AuthorSearch => Contains(ToLower(d.author), q)
    case IdSearch => d.id == q
    case GlobalSearch => Contains(ToLower(d.title), q) || Contains(ToLower(d.author), q) || Contains(ToLower(d.id), q)
  }

  /** `stream().filter(...).collect(toList())`: the matching documents in list order. */
  function Select(s: Strategy, docs: seq<Document>, q: string): (r: seq<Document>)
    ensures |r| <= |docs|
    ensures forall d :: d in r <==> d in docs && Matches(s, d, q)
  {
    if docs == [] then []
    else (if Matches(s, docs[0], q) then [docs[0]] else []) + Select(s, docs[1..], q)
  }

  /** `search(documents, query)`. */
  function Search(s: Strategy, docs: seq<Document>, query: Option<string>): (r: seq<Document>)
    ensures query.None? ==> r == []
    ensures query.Some? && IsBlank(query.value) ==> r == []
    ensures query.Some? && !IsBlank(query.value) ==>
              forall d :: d in r <==> d in docs && Matches(s, d, Normalized(s, query.value))
  {
    if query.None? || IsBlank(query.value) then []
    else Select(s, docs, Normalized(s, query.value))
  }

  /** `a` occurs in `b` in order, possibly with gaps. */
  predicate IsSubsequence(a: seq<Document>, b: seq<Document>)
    decreases |b|
  {
    if a == [] then true
    else if b == [] then false
    else if a[0] == b[0] then IsSubsequence(a[1..], b[1..])
    else IsSubsequence(a, b[1..])
  }

  /** Filtering distributes over concatenation: documents keep their relative order. */
  lemma {:induction false} SelectAppend(s: Strategy, a: seq<Document>, b: seq<Document>, q: string)
    ensures Select(s, a + b, q) == Select(s, a, q) + Select(s, b, q)
  {
    if a == [] {
      assert a + b == b;
    } else {
      assert (a + b)[0] == a[0];
      assert (a + b)[1..] == a[1..] + b;
      SelectAppend(s, a[1..], b, q);
    }
  }

  /** On one document the filter keeps it exactly when it matches. */
  lemma {:induction false} SelectSingle(s: Strategy, d: Document, q: string)
    ensures Select(s, [d], q) == if Matches(s, d, q) then [d] else []
  {
    assert [d][1..] == [];
  }

  lemma {:induction false} SubsequenceCons(d: Document, a: seq<Document>, b: seq<Document>)
    requires IsSubsequence(a, b)
    ensures IsSubsequence([d] + a, [d] + b)
  {
    assert ([d] + a)[1..] == a;
    assert ([d] + b)[1..] == b;
  }

  /** An element may be put in front of the longer sequence. */
  lemma {:induction false} SubsequenceSkip(d: Document, a: seq<Document>, b: seq<Document>)
    requires IsSubsequence(a, b)
    ensures IsSubsequence(a, [d] + b)
    decreases |b|, 1
  {
    assert ([d] + b)[1..] == b;
    if a != [] && a[0] == d {
      SubsequenceDropFirst(a, b);
    }
  }

  /** Dropping the first element of a subsequence leaves a subsequence. */
  lemma {:induction false} SubsequenceDropFirst(a: seq<Document>, b: seq<Document>)
    requires a != [] && IsSubsequence(a, b)
    ensures IsSubsequence(a[1..], b)
    decreases |b|, 0
  {
    assert b == [b[0]] + b[1..];
    if a[0] == b[0] {
      SubsequenceSkip(b[0], a[1..], b[1..]);
    } else {
      SubsequenceDropFirst(a, b[1..]);
      SubsequenceSkip(b[0], a[1..], b[1..]);
    }
  }

  /** The result is taken from the input in input order. */
  lemma {:induction false} SelectIsSubsequence(s: Strategy, docs: seq<Document>, q: string)
    ensures IsSubsequence(Select(s, docs, q), docs)
  {
    if docs != [] {
      SelectIsSubsequence(s, docs[1..], q);
      assert docs == [docs[0]] + docs[1..];
      if Matches(s, docs[0], q) {
        SubsequenceCons(docs[0], Select(s, docs[1..], q), docs[1..]);
      } else {
        assert Select(s, docs, q) == Select(s, docs[1..], q);
        SubsequenceSkip(docs[0], Select(s, docs[1..], q), docs[1..]);
      }
    }
  }

  /** A filter that keeps fewer documents keeps a subsequence of what the wider one keeps. */
  lemma {:induction false} SelectNarrower(s: Strategy, t: Strategy, docs: seq<Document>, q: string)
    requires forall d :: d in docs && Matches(s, d, q) ==> Matches(t, d, q)
    ensures IsSubsequence(Select(s, docs, q), Select(t, docs, q))
  {
    if docs != [] {
      SelectNarrower(s, t, docs[1..], q);
      var rs, rt := Select(s, docs[1..], q), Select(t, docs[1..], q);
      if Matches(s, docs[0], q) {
        SubsequenceCons(docs[0], rs, rt);
      } else if Matches(t, docs[0], q) {
        assert Select(s, docs, q) == rs && Select(t, docs, q) == [docs[0]] + rt;
        SubsequenceSkip(docs[0], rs, rt);
      } else {
        assert Select(s, docs, q) == rs && Select(t, docs, q) == rt;
      }
    }
  }

  /**
   * Global search finds everything title search and author search find, in the same order:
   * their results are subsequences of its result for the same query.
   */
  lemma {:induction false} GlobalWidest(docs: seq<Document>, query: Option<string>)
    ensures IsSubsequence(Search(TitleSearch, docs, query), Search(GlobalSearch, docs, query))
    ensures IsSubsequence(Search(AuthorSearch, docs, query), Search(GlobalSearch, docs, query))
  {
    if query.Some? && !IsBlank(query.value) {
      SelectNarrower(TitleSearch, GlobalSearch, docs, Normalized(GlobalSearch, query.value));
      SelectNarrower(AuthorSearch, GlobalSearch, docs, Normalized(GlobalSearch, query.value));
    }
  }

  /** Every strategy's result is drawn from the list in list order and is never longer. */
  lemma {:induction false} SearchIsSubsequence(s: Strategy, docs: seq<Document>, query: Option<string>)
    ensures IsSubsequence(Search(s, docs, query), docs)
  {
    if query.Some? && !IsBlank(query.value) {
      SelectIsSubsequence(s, docs, Normalized(s, query.value));
    }
  }

  /**
   * The substring searches ignore letter case in the query: two queries that lower-case to
   * the same text give the same result.
   */
  lemma {:induction false} CaseInsensitive(s: Strategy, docs: seq<Document>, q1: string, q2: string)
    requires s != IdSearch && ToLower(q1) == ToLower(q2)
    ensures Search(s, docs, Some(q1)) == Search(s, docs, Some(q2))
  {
    TrimToLower(q1);
    TrimToLower(q2);
  }

  /** With unique ids, id search finds at most one document, and exactly the one with that id. */
  lemma {:induction false} IdSearchUnique(docs: seq<Document>, query: string)
    requires UniqueIds(docs)
    ensures |Search(IdSearch, docs, Some(query))| <= 1
    ensures (forall i :: 0 <= i < |docs| ==> docs[i].id != Trim(query)) ==> Search(IdSearch, docs, Some(query)) == []
  {
    if !IsBlank(query) {
      SelectUniqueId(docs, Trim(query));
    }
  }

  lemma {:induction false} SelectUniqueId(docs: seq<Document>, id: string)
    requires UniqueIds(docs)
    ensures |Select(IdSearch, docs, id)| <= 1
    ensures (forall i :: 0 <= i < |docs| ==> docs[i].id != id) ==> Select(IdSearch, docs, id) == []
  {
    if docs != [] {
      SelectUniqueId(docs[1..], id);
      if docs[0].id == id {
        assert forall i :: 0 <= i < |docs[1..]| ==> docs[1..][i].id != id by {
          forall i | 0 <= i < |docs[1..]| ensures docs[1..][i].id != id {
            assert docs[1..][i] == docs[i + 1];
          }
        }
      } else {
        assert forall i :: 0 <= i < |docs[1..]| ==> docs[1..][i] == docs[i + 1];
      }
    }
  }

  /** The current strategy, replaced by any non-null one. */
  class SearchContext {
    var strategy: Strategy

    /** The default strategy is title search. */
    constructor ()
      ensures strategy == TitleSearch
    {
      strategy := TitleSearch;
    }

    constructor WithStrategy(s: Strategy)
      ensures strategy == s
    {
      strategy := s;
    }

    /** `setStrategy`: `null` keeps the strategy in use. */
    method SetStrategy(s: Option<Strategy>)
      modifies this
      ensures strategy == if s.Some? then s.value else old(strategy)
    {
      if s.Some? {
        strategy := s.value;
      }
    }

    /** `executeSearch`: delegates to the current strategy. */
    method ExecuteSearch(docs: seq<Document>, query: Option<string>) returns (r: seq<Document>)
      ensures r == Search(strategy, docs, query)
      ensures IsSubsequence(r, docs)
    {
      r := Search(strategy, docs, query);
      SearchIsSubsequence(strategy, docs, query);
    }

    function GetCurrentStrategyName(): (name: string)
      reads this
      ensures name == StrategyName(strategy)
    {
      StrategyName(strategy)
    }
  }
}
