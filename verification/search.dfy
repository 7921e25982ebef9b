/**
  `searchNodes` of `src/utils/dataTransform.ts`: a blank search term finds
  nothing; otherwise the term is lower-cased and trimmed, and the nodes whose
  lower-cased name, leaf code or unit name contain it are kept, in order.
 */
module Search {
  import opened Basics
  import opened OrgTypes

  /** A node matches a (normalised) term when its name, leaf code or unit name contains it, ignoring ASCII case. */
  predicate NodeMatches(n: Node, term: string) {
    || Includes(Lower(n.name), term)
    || Includes(Lower(n.beblCode), term)
    || Includes(Lower(n.businessUnit), term)
  }

  /** `searchTerm.toLowerCase().trim()`. */
  function NormalizeTerm(searchTerm: string): string {
    Trim(Lower(searchTerm))
  }

  /** `nodes.filter(...)` with the match test above; `FilterSpec` states what it keeps. */
  function FilterMatching(nodes: seq<Node>, term: string): (r: seq<Node>)
    ensures |r| <= |nodes|
  {
    if nodes == [] then []
    else
      var rest := FilterMatching(nodes[1..], term);
      if NodeMatches(nodes[0], term) then [nodes[0]] + rest else rest
  }

  /** The filter keeps exactly the matching nodes, each as often as it occurs. */
  lemma {:induction false} FilterSpec(nodes: seq<Node>, term: string)
    ensures forall n :: n in FilterMatching(nodes, term) <==> n in nodes && NodeMatches(n, term)
    ensures forall n ::
      multiset(FilterMatching(nodes, term))[n] == (if NodeMatches(n, term) then multiset(nodes)[n] else 0)
    decreases |nodes|
  {
    if nodes != [] {
      FilterSpec(nodes[1..], term);
      assert nodes == [nodes[0]] + nodes[1..];
    }
  }

  /** `searchNodes(nodes, searchTerm)`. */
  function SearchNodes(nodes: seq<Node>, searchTerm: string): (r: seq<Node>)
    ensures Trim(searchTerm) == "" ==> r == []
    ensures Trim(searchTerm) != "" ==>
      forall n :: n in r <==> n in nodes && NodeMatches(n, NormalizeTerm(searchTerm))
    ensures forall n | n in r :: multiset(r)[n] == multiset(nodes)[n]
  {
    if searchTerm == [] || Trim(searchTerm) == "" then []
    else
      FilterSpec(nodes, NormalizeTerm(searchTerm));
      FilterMatching(nodes, NormalizeTerm(searchTerm))
  }

  /** The elements of `xs` occur in `ys` in the same order, not necessarily next to each other. */
  predicate IsSubsequence<T(==)>(xs: seq<T>, ys: seq<T>)
    decreases |ys|
  {
    if ys == [] then xs == []
    else
      || (xs != [] && xs[0] == ys[0] && IsSubsequence(xs[1..], ys[1..]))
      || IsSubsequence(xs, ys[1..])
  }

  /** The filter keeps the surviving nodes in their original order. */
  lemma {:induction false} FilterIsSubsequence(nodes: seq<Node>, term: string)
    ensures IsSubsequence(FilterMatching(nodes, term), nodes)
    decreases |nodes|
  {
    if nodes != [] {
      FilterIsSubsequence(nodes[1..], term);
    }
  }

  /** Filtering a concatenation filters each part. */
  lemma {:induction false} FilterAppend(a: seq<Node>, b: seq<Node>, term: string)
    ensures FilterMatching(a + b, term) == FilterMatching(a, term) + FilterMatching(b, term)
    decreases |a|
  {
    if a == [] {
      assert a + b == b;
    } else {
      assert (a + b)[1..] == a[1..] + b;
      FilterAppend(a[1..], b, term);
    }
  }

  /** Filtering twice with the same term changes nothing. */
  lemma {:induction false} FilterIdempotent(nodes: seq<Node>, term: string)
    ensures FilterMatching(FilterMatching(nodes, term), term) == FilterMatching(nodes, term)
    decreases |nodes|
  {
    if nodes != [] {
      FilterIdempotent(nodes[1..], term);
    }
  }

  /** Searching the results of a search again with the same term gives the same results. */
  lemma SearchIdempotent(nodes: seq<Node>, searchTerm: string)
    ensures SearchNodes(SearchNodes(nodes, searchTerm), searchTerm) == SearchNodes(nodes, searchTerm)
  {
    if searchTerm != [] && Trim(searchTerm) != "" {
      FilterIdempotent(nodes, NormalizeTerm(searchTerm));
    }
  }

  /** The search result is an order-preserving selection of the nodes. */
  lemma SearchIsSubsequence(nodes: seq<Node>, searchTerm: string)
    ensures IsSubsequence(SearchNodes(nodes, searchTerm), nodes)
  {
    if searchTerm != [] && Trim(searchTerm) != "" {
      FilterIsSubsequence(nodes, NormalizeTerm(searchTerm));
    } else {
      EmptyIsSubsequence(nodes);
    }
  }

  /** The empty sequence is a subsequence of every sequence. */
  lemma {:induction false} EmptyIsSubsequence<T>(ys: seq<T>)
    ensures IsSubsequence([], ys)
    decreases |ys|
  {
    if ys != [] {
      EmptyIsSubsequence(ys[1..]);
    }
  }

  /** A non-blank search term stays non-empty after normalising, so a search never matches vacuously. */
  lemma NormalizedTermNonEmpty(searchTerm: string)
    ensures Trim(searchTerm) != "" <==> NormalizeTerm(searchTerm) != ""
  {
    LowerKeepsSpaces(searchTerm);
    TrimEmptyIffBlank(searchTerm);
    TrimEmptyIffBlank(Lower(searchTerm));
  }

  /** Searching ignores the ASCII case of the term. */
  lemma SearchCaseInsensitive(nodes: seq<Node>, searchTerm: string)
    ensures SearchNodes(nodes, Lower(searchTerm)) == SearchNodes(nodes, searchTerm)
  {
    LowerIdempotent(searchTerm);
    NormalizedTermNonEmpty(searchTerm);
    NormalizedTermNonEmpty(Lower(searchTerm));
  }
}
