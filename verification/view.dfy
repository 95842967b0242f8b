/**
 The derived list the component shows (`filteredResults`): the effect that
 runs whenever the result set, the eco-friendly checkbox or the sort option
 changes. It copies the results, optionally keeps only eco-friendly offers,
 then sorts according to the option string.
 */
module View {
  import opened Seqs
  import opened Sorting
  import opened Catalog

  datatype Field = Price | Rating

  /** Which comparator an option selects. */
  datatype SortRule = SortRule(field: Field, descending: bool)

  /** The option strings the effect tests for; any other string selects no sort. */
  function ParseSortOption(option: string): (r: Option<SortRule>)
    ensures r == Some(SortRule(Price, false)) <==> option == "priceAsc"
    ensures r == Some(SortRule(Price, true)) <==> option == "priceDesc"
    ensures r == Some(SortRule(Rating, false)) <==> option == "ratingAsc"
    ensures r == Some(SortRule(Rating, true)) <==> option == "ratingDesc"
    ensures r.None? <==> option !in {"priceAsc", "priceDesc", "ratingAsc", "ratingDesc"}
  {
    if option == "priceAsc" then Some(SortRule(Price, false))
    else if option == "priceDesc" then Some(SortRule(Price, true))
    else if option == "ratingAsc" then Some(SortRule(Rating, false))
    else if option == "ratingDesc" then Some(SortRule(Rating, true))
    else None
  }

  function KeyOf(field: Field): (key: Offer -> real)
  {
    match field
    case Price => PriceOf
    case Rating => RatingOf
  }

  /** Step one: the copy of the results, without non-eco offers when the checkbox is on. */
  function EcoStage(results: seq<Offer>, ecoOnly: bool): (r: seq<Offer>)
    ensures IsSubseq(r, results)
    ensures ecoOnly ==> forall i :: 0 <= i < |r| ==> r[i].ecoFriendly
    ensures ecoOnly ==> forall o :: multiset(r)[o] == if o.ecoFriendly then multiset(results)[o] else 0
    ensures !ecoOnly ==> r == results
  {
    if ecoOnly then Filter(IsEco, results) else
      assert IsSubseq(results, results) by { SubseqRefl(results); }
      results
  }

  /** Step two: the sort the option selects, or none. */
  function SortStage(kept: seq<Offer>, option: string): (r: seq<Offer>)
    ensures multiset(r) == multiset(kept)
    ensures ParseSortOption(option).None? ==> r == kept
    ensures ParseSortOption(option).Some? ==>
      var rule := ParseSortOption(option).value;
      Sorted(r, KeyOf(rule.field), rule.descending) && Stable(kept, r, KeyOf(rule.field))
  {
    match ParseSortOption(option)
    case None => kept
    case Some(rule) => SortBy(kept, KeyOf(rule.field), rule.descending)
  }

  /** The whole effect: what `filteredResults` becomes. */
  function ApplyView(results: seq<Offer>, ecoOnly: bool, option: string): (view: seq<Offer>)
    ensures ecoOnly ==> forall i :: 0 <= i < |view| ==> view[i].ecoFriendly
    ensures ecoOnly ==> forall o :: multiset(view)[o] == if o.ecoFriendly then multiset(results)[o] else 0
    ensures !ecoOnly ==> multiset(view) == multiset(results)
    ensures option !in {"priceAsc", "priceDesc", "ratingAsc", "ratingDesc"} ==> IsSubseq(view, results)
    ensures option == "priceAsc" ==> forall i :: 0 <= i < |view| - 1 ==> view[i].price <= view[i + 1].price
    ensures option == "priceDesc" ==> forall i :: 0 <= i < |view| - 1 ==> view[i].price >= view[i + 1].price
    ensures option == "ratingAsc" ==> forall i :: 0 <= i < |view| - 1 ==> view[i].rating <= view[i + 1].rating
    ensures option == "ratingDesc" ==> forall i :: 0 <= i < |view| - 1 ==> view[i].rating >= view[i + 1].rating
    ensures option in {"priceAsc", "priceDesc"} ==> Stable(EcoStage(results, ecoOnly), view, PriceOf)
    ensures option in {"ratingAsc", "ratingDesc"} ==> Stable(EcoStage(results, ecoOnly), view, RatingOf)
  {
    var kept := EcoStage(results, ecoOnly);
    var view := SortStage(kept, option);
    AdjacentOrder(kept, option);
    view
  }

  /** The adjacent-pair reading of `Sorted` for each of the four options. */
  lemma AdjacentOrder(kept: seq<Offer>, option: string)
    ensures var view := SortStage(kept, option);
      && (option == "priceAsc" ==> forall i :: 0 <= i < |view| - 1 ==> view[i].price <= view[i + 1].price)
      && (option == "priceDesc" ==> forall i :: 0 <= i < |view| - 1 ==> view[i].price >= view[i + 1].price)
      && (option == "ratingAsc" ==> forall i :: 0 <= i < |view| - 1 ==> view[i].rating <= view[i + 1].rating)
      && (option == "ratingDesc" ==> forall i :: 0 <= i < |view| - 1 ==> view[i].rating >= view[i + 1].rating)
  {
    var view := SortStage(kept, option);
    match ParseSortOption(option)
    case None =>
    case Some(rule) =>
      forall i | 0 <= i < |view| - 1
        ensures Compare(KeyOf(rule.field), rule.descending, view[i], view[i + 1]) <= 0.0
      {
      }
  }

  /**
   For a sorting option, the list on screen is the one and only sorted,
   stable rearrangement of the eco-filtered results: any conforming
   `Array.prototype.sort` would have produced the same list.
   */
  lemma ApplyViewUnique(results: seq<Offer>, ecoOnly: bool, option: string, rule: SortRule, r: seq<Offer>)
    requires ParseSortOption(option) == Some(rule)
    requires Sorted(r, KeyOf(rule.field), rule.descending)
    requires Stable(EcoStage(results, ecoOnly), r, KeyOf(rule.field))
    ensures ApplyView(results, ecoOnly, option) == r
  {
    SortByIsTheStableSort(EcoStage(results, ecoOnly), r, KeyOf(rule.field), rule.descending);
  }

  /** With pairwise different prices, "High to Low" is "Low to High" read backwards. */
  lemma PriceDescReversesPriceAsc(results: seq<Offer>, ecoOnly: bool)
    requires DistinctKeys(results, PriceOf)
    ensures ApplyView(results, ecoOnly, "priceDesc") == Reverse(ApplyView(results, ecoOnly, "priceAsc"))
  {
    var kept := EcoStage(results, ecoOnly);
    if ecoOnly {
      FilterDistinctKeys(IsEco, results, PriceOf);
    }
    DescendingReversesAscending(kept, PriceOf);
  }

  /** The same for ratings. */
  lemma RatingDescReversesRatingAsc(results: seq<Offer>, ecoOnly: bool)
    requires DistinctKeys(results, RatingOf)
    ensures ApplyView(results, ecoOnly, "ratingDesc") == Reverse(ApplyView(results, ecoOnly, "ratingAsc"))
  {
    var kept := EcoStage(results, ecoOnly);
    if ecoOnly {
      FilterDistinctKeys(IsEco, results, RatingOf);
    }
    DescendingReversesAscending(kept, RatingOf);
  }
}
