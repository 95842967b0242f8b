/**
 The search action (`handleSearch`): validating the typed term, and turning
 the product source's answer into the new result set. The request itself is
 asynchronous, so the action is split at the `fetch`: `StartSearch` runs when
 the button is clicked, `ResolveSearch` when the response arrives.
 */
module Search {
  import opened Seqs
  import opened Text
  import opened Catalog

  /** Exact, case-insensitive match of the offer's name against the term. */
  predicate NameMatches(term: string, o: Offer): (b: bool)
    ensures b <==> |o.name| == |term| && forall i :: 0 <= i < |term| ==> LowerChar(o.name[i]) == LowerChar(term[i])
  {
    ToLower(o.name) == ToLower(term)
  }

  /** The catalog entries whose name matches `term`, in catalog order. */
  function FilterByName(catalog: seq<Offer>, term: string): (r: seq<Offer>)
    ensures forall i :: 0 <= i < |r| ==> NameMatches(term, r[i])
    ensures IsSubseq(r, catalog)
    ensures forall o :: multiset(r)[o] == if NameMatches(term, o) then multiset(catalog)[o] else 0
  {
    Filter((o: Offer) => NameMatches(term, o), catalog)
  }

  /** Two terms that lower-case alike select the same entries. */
  lemma {:induction false} FilterByNameIgnoresCase(catalog: seq<Offer>, t1: string, t2: string)
    requires ToLower(t1) == ToLower(t2)
    ensures FilterByName(catalog, t1) == FilterByName(catalog, t2)
    decreases |catalog|
  {
    if catalog != [] {
      FilterByNameIgnoresCase(catalog[1..], t1, t2);
    }
  }

  const EmptyTermMessage: string := "Please enter a product name."

  /** What clicking the search button does before any response arrives. */
  datatype SearchStart =
    | Rejected(message: string)   // an alert; nothing is fetched
    | Requested(term: string)     // the catalog is fetched; `term` is kept for filtering

  function StartSearch(searchTerm: string): (r: SearchStart)
    ensures r.Rejected? <==> forall i :: 0 <= i < |searchTerm| ==> IsTrimmable(searchTerm[i])
    ensures r.Rejected? ==> r.message == EmptyTermMessage
    // the request carries the trimmed term: the input less its white-space padding,
    // and by `TrimUnique` the only such window with no white space at either end
    ensures r.Requested? ==> r.term != [] && exists i :: PaddedAt(searchTerm, r.term, i)
    ensures r.Requested? ==> r.term == Trim(searchTerm)
  {
    TrimEmptyIff(searchTerm);
    var trimmed := Trim(searchTerm);
    if trimmed == [] then Rejected(EmptyTermMessage) else Requested(trimmed)
  }

  /** The outcome of `fetch` followed by `response.json()`. */
  datatype FetchResponse =
    | Fetched(catalog: seq<Offer>)
    | FetchFailed   // network error or a body that is not a product array; logged to the console

  /** The result set after the response to a request for `term` arrives. */
  function ResolveSearch(results: seq<Offer>, term: string, response: FetchResponse): (r: seq<Offer>)
    ensures response.FetchFailed? ==> r == results
    ensures response.Fetched? ==>
      && (forall i :: 0 <= i < |r| ==> NameMatches(term, r[i]))
      && IsSubseq(r, response.catalog)
      && (forall o :: multiset(r)[o] == if NameMatches(term, o) then multiset(response.catalog)[o] else 0)
  {
    match response
    case Fetched(catalog) => FilterByName(catalog, term)
    case FetchFailed => results
  }

  /** The new result set is exactly the order-preserving name filter of the catalog, whatever the old one was. */
  lemma ResolveSearchIsNameFilter(results: seq<Offer>, term: string, catalog: seq<Offer>, r: seq<Offer>)
    requires IsSubseq(r, catalog)
    requires forall i :: 0 <= i < |r| ==> NameMatches(term, r[i])
    requires forall o :: multiset(r)[o] == if NameMatches(term, o) then multiset(catalog)[o] else 0
    ensures ResolveSearch(results, term, Fetched(catalog)) == r
  {
    FilterUnique((o: Offer) => NameMatches(term, o), catalog, r);
  }
}
