/**
 The `PriceComparison` component as an explicit state and a step function
 over the user's actions. React's hooks become the fields of `AppState`;
 the effect that derives `filteredResults` is re-run after every step, which
 is what React does whenever one of its three dependencies has changed
 (and re-running it when none has changed gives the same list).
 */
module Component {
  import opened Seqs
  import opened Sorting
  import opened Text
  import opened Catalog
  import opened Search
  import opened View
  import opened Grouping
  import opened Cart

  datatype AppState = AppState(
    searchTerm: string,
    results: seq<Offer>,
    filteredResults: seq<Offer>,
    cart: seq<LineItem>,
    filterEcoFriendly: bool,
    sortOption: string,
    showCart: bool)

  /** The derived list agrees with the state it is derived from, and every cart line holds at least one unit. */
  ghost predicate Consistent(s: AppState)
  {
    && s.filteredResults == ApplyView(s.results, s.filterEcoFriendly, s.sortOption)
    && WellFormed(s.cart)
  }

  /** The `useState` initial values. */
  function Initial(): (s: AppState)
    ensures Consistent(s)
    ensures s.results == [] && s.filteredResults == [] && s.cart == []
    ensures s.sortOption == "priceAsc" && !s.filterEcoFriendly && !s.showCart
  {
    AppState("", [], ApplyView([], false, "priceAsc"), [], false, "priceAsc", false)
  }

  /** What the user (or the arriving response) does. */
  datatype Event =
    | EditSearchTerm(text: string)
    | ClickSearch
    | SearchResponse(term: string, response: FetchResponse)
    | CheckEcoFriendly(checked: bool)
    | SelectSort(option: string)
    | ClickAddToCart(item: Offer, entered: ParsedInt)
    | OpenCart
    | CloseCart

  /** What a step asks of the browser. */
  datatype Effect =
    | NoEffect
    | Alert(message: string)
    | LogError                // `console.error` after a failed fetch
    | FetchProducts(term: string)  // `GET /products`; answered later by a `SearchResponse` for `term`

  /** Re-runs the effect that derives `filteredResults`. */
  function Settle(s: AppState): (r: AppState)
    ensures r.filteredResults == ApplyView(r.results, r.filterEcoFriendly, r.sortOption)
    ensures r.(filteredResults := s.filteredResults) == s
  {
    s.(filteredResults := ApplyView(s.results, s.filterEcoFriendly, s.sortOption))
  }

  /** What the search button asks for: an alert for a blank term, otherwise the catalog. */
  function SearchEffect(searchTerm: string): (e: Effect)
    ensures e == Alert(EmptyTermMessage) <==> forall i :: 0 <= i < |searchTerm| ==> IsTrimmable(searchTerm[i])
    ensures e.FetchProducts? <==> !(forall i :: 0 <= i < |searchTerm| ==> IsTrimmable(searchTerm[i]))
    ensures e.Alert? || e.FetchProducts?
    ensures e.FetchProducts? ==> exists i :: PaddedAt(searchTerm, e.term, i)
    ensures e.FetchProducts? ==> e.term == Trim(searchTerm)
  {
    match StartSearch(searchTerm)
    case Rejected(message) => Alert(message)
    case Requested(term) => FetchProducts(term)
  }

  /** The state setters an event calls, before the derived list is recomputed. */
  function Update(s: AppState, e: Event): (r: (AppState, Effect))
    ensures r.0.filterEcoFriendly == (if e.CheckEcoFriendly? then e.checked else s.filterEcoFriendly)
    ensures r.0.sortOption == (if e.SelectSort? then e.option else s.sortOption)
    ensures r.0.searchTerm == (if e.EditSearchTerm? then e.text else s.searchTerm)
    ensures r.0.showCart == (if e.OpenCart? then true else if e.CloseCart? then false else s.showCart)
    ensures WellFormed(s.cart) ==> WellFormed(r.0.cart)
    ensures !e.SearchResponse? ==> r.0.results == s.results
    ensures !e.ClickAddToCart? ==> r.0.cart == s.cart
    // typing, the checkbox, the selector and the cart buttons only call their setter
    ensures e.EditSearchTerm? || e.CheckEcoFriendly? || e.SelectSort? || e.OpenCart? || e.CloseCart? ==> r.1 == NoEffect
    ensures e.ClickSearch? ==> r.0 == s && r.1 == SearchEffect(s.searchTerm)
    ensures e.SearchResponse? ==>
      && r.0 == s.(results := ResolveSearch(s.results, e.term, e.response))
      && r.1 == (if e.response.FetchFailed? then LogError else NoEffect)
    ensures e.ClickAddToCart? ==>
      if e.entered.Number? && e.entered.value > 0 then
        r.0 == s.(cart := s.cart + [LineItem(e.item, e.entered.value)]) && r.1 == NoEffect
      else
        r.0 == s && r.1 == Alert(InvalidQuantityMessage)
  {
    match e
    case EditSearchTerm(text) => (s.(searchTerm := text), NoEffect)
    case ClickSearch => (s, SearchEffect(s.searchTerm))
    case SearchResponse(term, response) =>
      (s.(results := ResolveSearch(s.results, term, response)), if response.FetchFailed? then LogError else NoEffect)
    case CheckEcoFriendly(checked) => (s.(filterEcoFriendly := checked), NoEffect)
    case SelectSort(option) => (s.(sortOption := option), NoEffect)
    case ClickAddToCart(item, entered) =>
      (match AddToCart(s.cart, item, entered)
       case Added(c) =>
         assert c == s.cart + [LineItem(item, entered.value)];
         (s.(cart := c), NoEffect)
       case Refused(message) => (s, Alert(message)))
    case OpenCart => (s.(showCart := true), NoEffect)
    case CloseCart => (s.(showCart := false), NoEffect)
  }

  /** One event: its state setters, then the derived-list effect. */
  function Step(s: AppState, e: Event): (r: (AppState, Effect))
    ensures r.0.filteredResults == ApplyView(r.0.results, r.0.filterEcoFriendly, r.0.sortOption)
    // each control's setter changes its own field and no other
    ensures r.0.filterEcoFriendly == (if e.CheckEcoFriendly? then e.checked else s.filterEcoFriendly)
    ensures r.0.sortOption == (if e.SelectSort? then e.option else s.sortOption)
    ensures r.0.searchTerm == (if e.EditSearchTerm? then e.text else s.searchTerm)
    ensures r.0.showCart == (if e.OpenCart? then true else if e.CloseCart? then false else s.showCart)
    ensures WellFormed(s.cart) ==> WellFormed(r.0.cart)
    // only a search response replaces the results
    ensures !e.SearchResponse? ==> r.0.results == s.results
    // only an add to cart touches the cart, and only by appending
    ensures !e.ClickAddToCart? ==> r.0.cart == s.cart
    // typing, the checkbox, the selector and the cart buttons only call their setter
    ensures e.EditSearchTerm? || e.CheckEcoFriendly? || e.SelectSort? || e.OpenCart? || e.CloseCart? ==> r.1 == NoEffect
    // a click alerts on a blank term and otherwise fetches for the trimmed term
    ensures e.ClickSearch? ==>
      && r.0 == Settle(s)
      && (r.1 == Alert(EmptyTermMessage) <==> forall i :: 0 <= i < |s.searchTerm| ==> IsTrimmable(s.searchTerm[i]))
      && (r.1.FetchProducts? <==> !(forall i :: 0 <= i < |s.searchTerm| ==> IsTrimmable(s.searchTerm[i])))
      && (r.1.FetchProducts? ==> r.1.term == Trim(s.searchTerm))
    ensures e.SearchResponse? && e.response.FetchFailed? ==> r.0 == Settle(s) && r.1 == LogError
    ensures e.SearchResponse? && e.response.Fetched? ==>
      && r.1 == NoEffect
      && IsSubseq(r.0.results, e.response.catalog)
      && (forall i :: 0 <= i < |r.0.results| ==> NameMatches(e.term, r.0.results[i]))
      && (forall o :: multiset(r.0.results)[o] == if NameMatches(e.term, o) then multiset(e.response.catalog)[o] else 0)
    ensures e.ClickAddToCart? ==>
      if e.entered.Number? && e.entered.value > 0 then
        r.0.cart == s.cart + [LineItem(e.item, e.entered.value)] && r.1 == NoEffect
      else
        r.0.cart == s.cart && r.1 == Alert(InvalidQuantityMessage)
  {
    var u := Update(s, e);
    (Settle(u.0), u.1)
  }

  /**
   `handleSearch` end to end: a click on a non-blank term fetches for the
   trimmed term, and the catalog arriving for that request leaves exactly the
   offers named like the trimmed term as the results.
   */
  lemma ClickThenResponse(s: AppState, catalog: seq<Offer>)
    requires !(forall i :: 0 <= i < |s.searchTerm| ==> IsTrimmable(s.searchTerm[i]))
    ensures var click := Step(s, ClickSearch);
      && click.1 == FetchProducts(Trim(s.searchTerm))
      && Step(click.0, SearchResponse(click.1.term, Fetched(catalog))).0.results == FilterByName(catalog, Trim(s.searchTerm))
  {
    var click := Step(s, ClickSearch);
    assert click.1 == FetchProducts(Trim(s.searchTerm));
  }

  /** The state after a sequence of events. */
  function Run(s: AppState, events: seq<Event>): (last: AppState)
    decreases |events|
  {
    if events == [] then s else Run(Step(s, events[0]).0, events[1..])
  }

  /** Every state reachable from a consistent one is consistent. */
  lemma {:induction false} RunKeepsConsistent(s: AppState, events: seq<Event>)
    requires Consistent(s)
    ensures Consistent(Run(s, events))
    decreases |events|
  {
    if events != [] {
      RunKeepsConsistent(Step(s, events[0]).0, events[1..]);
    }
  }

  /** The cart only ever grows: every earlier cart is a prefix of every later one. */
  lemma {:induction false} RunCartOnlyGrows(s: AppState, events: seq<Event>)
    ensures var c := Run(s, events).cart; |s.cart| <= |c| && c[..|s.cart|] == s.cart
    decreases |events|
  {
    if events != [] {
      var s1 := Step(s, events[0]).0;
      RunCartOnlyGrows(s1, events[1..]);
      assert s1.cart[..|s.cart|] == s.cart;
    }
  }

  /** The tables on the page, in the order they are drawn. */
  function Render(s: AppState): (tables: seq<Group>)
    ensures multiset(Flatten(GroupByProduct(s.filteredResults))) == multiset(s.filteredResults)
    ensures multiset(tables) == multiset(GroupByProduct(s.filteredResults))
    // the tables on the page show every offer of the derived list exactly as often as it occurs there
    ensures multiset(Flatten(tables)) == multiset(s.filteredResults)
  {
    FlattenIsPermutation(s.filteredResults);
    FlattenPermutation(DisplayOrder(GroupByProduct(s.filteredResults)), GroupByProduct(s.filteredResults));
    DisplayOrder(GroupByProduct(s.filteredResults))
  }

  /**
   Line 87 as written: the grouping throws when an offer on screen carries a
   name every object inherits, and otherwise the page draws `Render`'s tables.
   */
  function RenderAsWritten(s: AppState): (r: GroupOutcome)
    ensures r.TypeError? <==> exists j :: 0 <= j < |s.filteredResults| && s.filteredResults[j].name in InheritedNames
    ensures r.Grouped? ==> r.groups == Render(s)
  {
    match GroupAsWritten(s.filteredResults)
    case TypeError => TypeError
    case Grouped(g) => Grouped(DisplayOrder(g))
  }

  /**
   Searching "Widget" over two offers, A at 10.00 (eco) and B at 8.00 (not
   eco), shows one table, "Widget", with B above A.
   */
  lemma WidgetExample(s: AppState, a: Offer, b: Offer)
    requires s.sortOption == "priceAsc" && !s.filterEcoFriendly
    requires a.name == "Widget" && a.price == 10.0 && a.ecoFriendly
    requires b.name == "Widget" && b.price == 8.0 && !b.ecoFriendly
    ensures var s1 := Step(s, SearchResponse("Widget", Fetched([a, b]))).0;
      && s1.results == [a, b]
      && s1.filteredResults == [b, a]
      && Render(s1) == [Group("Widget", [b, a])]
  {
    WidgetSearch(s.results, a, b);
    WidgetSorted(a, b);
    WidgetTables(a, b);
  }

  lemma WidgetSearch(results: seq<Offer>, a: Offer, b: Offer)
    requires a.name == "Widget" && b.name == "Widget"
    ensures ResolveSearch(results, "Widget", Fetched([a, b])) == [a, b]
  {
    SubseqRefl([a, b]);
    ResolveSearchIsNameFilter(results, "Widget", [a, b], [a, b]);
  }

  lemma WidgetSorted(a: Offer, b: Offer)
    requires a.price == 10.0 && b.price == 8.0
    ensures ApplyView([a, b], false, "priceAsc") == [b, a]
  {
    assert Sorted([b, a], PriceOf, false);
    assert Stable([a, b], [b, a], PriceOf) by {
      forall k ensures SameKey([b, a], PriceOf, k) == SameKey([a, b], PriceOf, k) {
        assert [b, a][1..] == [a] && [a, b][1..] == [b];
        assert [a][1..] == [] && [b][1..] == [];
      }
    }
    ApplyViewUnique([a, b], false, "priceAsc", SortRule(Price, false), [b, a]);
  }

  lemma WidgetTables(a: Offer, b: Offer)
    requires a.name == "Widget" && b.name == "Widget"
    ensures DisplayOrder(GroupByProduct([b, a])) == [Group("Widget", [b, a])]
  {
    assert [b, a][..1] == [b];
    assert [b][..0] == [];
    assert GroupByProduct([b]) == [Group("Widget", [b])];
    assert FindGroup([Group("Widget", [b])], a.name) == Some(0);
    assert [b] + [a] == [b, a];
    var g := GroupByProduct([b, a]);
    assert g == [Group("Widget", [b, a])];
    assert IsPlainGroup(g[0]);
  }
}
