# PriceComparison in Dafny

This project models the `PriceComparison` component of the vendi-mvp
shopping page, written in Dafny. The component:

- searches a product catalog by exact, case-insensitive name;
- derives an on-screen list by an optional eco-friendly filter and one of four sort orders;
- files that list into one table per product name;
- lets the user add offers to a cart with a typed quantity;
- prices the cart: subtotal, 8% tax, a flat 112.00 delivery fee, a 3% discount and the total.

All amounts are exact reals. The modules follow the component's parts:

| module | what it holds |
|---|---|
| `Seqs` | order-preserving filter, subsequences, reversal |
| `Sorting` | the stable sort `Array.prototype.sort` performs with a key-difference comparator, and why it is unique |
| `Text` | `String.prototype.trim` (the full ECMAScript white-space and line-terminator set) and `toLowerCase` on ASCII letters |
| `Catalog` | the offer record |
| `Search` | `handleSearch`, split at the `fetch` into the click and the arriving response |
| `View` | the effect that derives `filteredResults` |
| `Grouping` | `groupByProduct`, and the order `Object.keys` lists its tables in |
| `Cart` | `handleAddToCart` and `calculateSubtotal` |
| `Invoice` | `calculateTotalCost` and the five money lines of the cart dialog |
| `Component` | the component's state, one step per user action, and runs of steps |

## Model

| member | source | states |
|---|---|---|
| Text.Trim | src/PriceComparison.js:17 | the result is the input with a padding of white space removed at each end, and neither end of the result is white space |
| Text.TrimEmptyIff | src/PriceComparison.js:17-18 | the trimmed term is empty exactly when every character of the input is white space or a line terminator |
| Text.TrimIdempotent | src/PriceComparison.js:17 | trimming twice is trimming once |
| Text.TrimUnique | src/PriceComparison.js:17 | any window of the input with only white space around it and none at either of its own ends is the trimmed string, so `trim` has exactly one possible result |
| Text.ToLower | src/PriceComparison.js:27 | `toLowerCase` keeps the length and maps each ASCII capital to its lower-case letter, leaving every other character as it is |
| Text.ToLowerHasNoUpper | src/PriceComparison.js:27 | a lower-cased name holds no upper-case ASCII letter |
| Text.ToLowerIdempotent | src/PriceComparison.js:27 | lower-casing twice is lower-casing once |
| Text.ToLowerIgnoresCase | src/PriceComparison.js:27 | two strings that differ only in the case of ASCII letters lower-case to the same string |
| Seqs.Filter | src/PriceComparison.js:38 | `filter` keeps exactly the elements that satisfy the predicate, each as often as in the input, in input order |
| Seqs.FilterUnique | src/PriceComparison.js:38 | any subsequence that holds exactly the satisfying elements with their multiplicities is the filter's result |
| Search.NameMatches | src/PriceComparison.js:27 | the `===` test on lower-cased strings holds exactly when name and term have the same length and agree letter by letter ignoring ASCII case |
| Search.FilterByName | src/PriceComparison.js:26-28 | the results are the catalog entries whose name equals the term ignoring ASCII case, with their multiplicities, in catalog order |
| Search.FilterByNameIgnoresCase | src/PriceComparison.js:27 | terms that differ only in letter case select the same entries |
| Search.StartSearch | src/PriceComparison.js:16-21 | a click is refused with "Please enter a product name." exactly when the term is blank; otherwise the request carries `Trim` of the term, which is non-empty and sits inside the input between white-space padding |
| Search.ResolveSearch | src/PriceComparison.js:23-31 | a failed fetch leaves the results as they were; a response replaces them with the catalog's name matches in catalog order |
| Search.ResolveSearchIsNameFilter | src/PriceComparison.js:26-29 | the new result set is the only list that is a subsequence of the catalog with exactly the matching entries, whatever the old results were |
| Sorting.SortBy | src/PriceComparison.js:41-49 | the sort returns a permutation of its input that no comparator call would reorder and that keeps the input order of equal keys |
| Sorting.SortedStableUnique | src/PriceComparison.js:41-49 | two lists that are both sorted and stable rearrangements of the same input are equal |
| Sorting.SortByIsTheStableSort | src/PriceComparison.js:41-49 | every sorted, stable rearrangement of the input is the one `SortBy` returns, so any conforming stable `sort` gives this list |
| Sorting.DescendingReversesAscending | src/PriceComparison.js:42-44 | with pairwise different keys, the descending comparator yields the ascending order reversed |
| View.ParseSortOption | src/PriceComparison.js:41-49 | each of the four option strings selects its field and direction, and any other string selects no sort |
| View.EcoStage | src/PriceComparison.js:35-39 | with the checkbox on, the copy keeps exactly the eco-friendly offers in order; with it off, the copy equals the results |
| View.SortStage | src/PriceComparison.js:41-49 | a recognised option sorts the copy stably by its field and direction; any other option leaves it as it is |
| View.ApplyView | src/PriceComparison.js:34-52 | the derived list holds only eco offers with the checkbox on and is otherwise a permutation of the results; it is ordered by the chosen field and direction and stable, and an unknown option gives a subsequence of the results |
| View.AdjacentOrder | src/PriceComparison.js:41-48 | under each option, every neighbouring pair of the derived list is in the promised order of price or rating |
| View.ApplyViewUnique | src/PriceComparison.js:41-51 | for a sorting option, the derived list is the only sorted, stable rearrangement of the eco-filtered results |
| View.PriceDescReversesPriceAsc | src/PriceComparison.js:42-44 | when prices are pairwise different, "High to Low" is "Low to High" reversed |
| View.RatingDescReversesRatingAsc | src/PriceComparison.js:46-48 | when ratings are pairwise different, "High to Low" is "Low to High" reversed |
| Grouping.FindGroup | src/PriceComparison.js:56 | finds the group keyed by the name exactly when one exists |
| Grouping.FileOffer | src/PriceComparison.js:55-60 | one reduce step adds the offer's name to the keys and keeps keys distinct; a new name opens one group at the end holding just the offer; otherwise the offer is pushed onto the end of its own group and every other group is left as it was |
| Grouping.GroupByProduct | src/PriceComparison.js:54-62 | the tables have pairwise different names, and those names are exactly the names in the list |
| Grouping.OffersNamedIsFilter | src/PriceComparison.js:59 | a table's offers are the list filtered on its name |
| Grouping.GroupsAreNameFilters | src/PriceComparison.js:54-62 | every table holds exactly the list's offers with its name, in list order |
| Grouping.GroupByProductPartition | src/PriceComparison.js:54-62 | every offer of the list sits in the table of its name, every table's offers come from the list with that name, and no table is empty |
| Grouping.FlattenIsPermutation | src/PriceComparison.js:54-62 | reading all tables shows every offer of the list as often as it occurs there |
| Grouping.FlattenPermutation | src/PriceComparison.js:193-194 | listing the same tables in another order shows the same offers, each as often |
| Grouping.GroupsInFirstSeenOrder | src/PriceComparison.js:54-62 | tables are created in the order their names first occur in the list |
| Grouping.GroupAsWritten | src/PriceComparison.js:54-62 | the reduce over `{}` finishes exactly when no name is one of the names every object inherits, and then agrees with the intended grouping |
| Grouping.InheritedNameBreaksGrouping | src/PriceComparison.js:55-59 | a single offer named "constructor" makes the reduce as written throw, while the intended grouping gives one table |
| Grouping.GroupAsWrittenAgrees | src/PriceComparison.js:54-62 | away from inherited names the reduce as written yields the intended grouping |
| Grouping.DisplayOrder | src/PriceComparison.js:193-194 | the tables are drawn as a permutation of the groups: names that are array indices first, in numeric order, then all other names in creation order |
| Cart.AddToCart | src/PriceComparison.js:64-72 | a positive parsed quantity appends one new line at the end and leaves earlier lines alone; anything else is refused with "Invalid quantity." |
| Cart.RepeatedAddKeepsSeparateLines | src/PriceComparison.js:67-68 | adding the same offer twice gives two lines, not one merged line |
| Cart.Subtotal | src/PriceComparison.js:74-76 | the reduce starts from 0, and a one-line cart costs that line's price times its quantity |
| Cart.SubtotalAppend | src/PriceComparison.js:74-76 | the subtotal of two carts in sequence is the sum of their subtotals |
| Cart.SubtotalAddLine | src/PriceComparison.js:75 | an appended line raises the subtotal by its price times its quantity |
| Cart.SubtotalNonNegative | src/PriceComparison.js:74-76 | with non-negative prices and positive quantities the subtotal is non-negative |
| Cart.SubtotalPermutation | src/PriceComparison.js:74-76 | the order of the cart lines does not change the subtotal |
| Invoice.TotalCost | src/PriceComparison.js:78-85 | the total is 1.05 times the subtotal plus 108.64 |
| Invoice.CartSummary | src/PriceComparison.js:129-133 | the dialog shows this cart's subtotal, 8% of it as tax, 112 for delivery, 3% of subtotal plus delivery as discount, and `calculateTotalCost` of the cart as total; the lines add up to that total, which is 1.05 times the subtotal plus 108.64 |
| Invoice.EmptyCartTotal | src/PriceComparison.js:78-85 | an empty cart still costs 108.64: delivery less its 3% discount |
| Invoice.TotalMonotone | src/PriceComparison.js:78-85 | a larger subtotal never gives a smaller total |
| Invoice.TotalAfterAdd | src/PriceComparison.js:64-85 | a successful add raises the total by 105% of the new line's amount; a refused add leaves it unchanged |
| Invoice.WorkedExample | src/PriceComparison.js:129-133 | three units at 20.00 and one at 5.00 print 65.00, 5.20, 112.00, 5.31 and 176.89 |
| Component.Initial | src/PriceComparison.js:8-14 | the initial state is consistent: no results, no cart, price ascending, eco filter off, cart closed |
| Component.Settle | src/PriceComparison.js:34-52 | re-running the effect sets the derived list from the results, checkbox and option, and changes nothing else |
| Component.SearchEffect | src/PriceComparison.js:16-23 | a click alerts "Please enter a product name." exactly when the term is blank, and fetches exactly when it is not, for `Trim` of the term |
| Component.Update | src/PriceComparison.js:16-72 | each action calls only its own setters: typing sets the term, the checkbox and selector set their own fields, the cart icon and close button open and close the dialog, and none of these five asks anything of the browser; only a response replaces the results, and only an add changes the cart, by appending a line |
| Component.Step | src/PriceComparison.js:34-52 | after every action the derived list agrees with the state and cart lines keep a positive quantity; each control changes its own field and no other and has no effect; a non-blank click fetches for the trimmed term and a blank one alerts; a fetched response replaces the results with the catalog's name matches and has no effect, a failed one only logs |
| Component.ClickThenResponse | src/PriceComparison.js:16-31 | a click on a non-blank term fetches for the trimmed term, and the catalog answering that request leaves exactly the offers named like the trimmed term as the results |
| Component.RunKeepsConsistent | src/PriceComparison.js:34-52 | every state reached from a consistent state by any sequence of actions is consistent |
| Component.RunCartOnlyGrows | src/PriceComparison.js:64-72 | over any sequence of actions, each earlier cart is a prefix of every later one |
| Component.Render | src/PriceComparison.js:87 | the tables drawn are a rearrangement of the groups, and together they show every offer of the derived list exactly as often as it occurs there |
| Component.RenderAsWritten | src/PriceComparison.js:87 | as written, the grouping throws exactly when an offer on screen has a name every object inherits; otherwise the page draws `Render`'s tables |
| Component.WidgetSearch | src/PriceComparison.js:26-29 | a catalog of two "Widget" offers searched for "Widget" gives both, in catalog order |
| Component.WidgetSorted | src/PriceComparison.js:41-42 | with price ascending, the 8.00 offer goes above the 10.00 offer |
| Component.WidgetTables | src/PriceComparison.js:54-62 | two "Widget" offers form one table named "Widget" holding both in list order |
| Component.WidgetExample | src/PriceComparison.js:16-62 | searching "Widget" over offers at 10.00 and 8.00 shows one table "Widget" with the 8.00 offer first |

## Left out

- React itself is not modelled. Rendering, hooks and batching are replaced by the explicit state `AppState`, with the derived-list effect re-run after every step.
- The network is not modelled. `fetch` and `response.json()` become the `FetchResponse` value an event carries.
- Responses may arrive in any order. Each response is a separate `SearchResponse` event, and the last one applied wins, as in the component.
- A `SearchResponse` event carries its own term, which the model does not tie to an earlier click: any term may arrive. `Component.ClickThenResponse` states the case where the response answers the click just made.
- `prompt`, `alert` and `console.error` are not modelled. They are replaced by the `ParsedInt` input and the `Effect` values.
- `parseInt` is not modelled. Its result is the `ParsedInt` input, so how text becomes a number is left out.
- IEEE-754 doubles and `toFixed(2)` are not modelled, because money is exact reals. The printed, rounded amounts in `Invoice.WorkedExample` are exact in the model.
- Text.ToLower: only ASCII letters are mapped, because full Unicode case mapping needs the Unicode tables.
- The page only shows the eco checkbox, the sort selector and the cart icon when the list is non-empty. The model allows those actions in every state, so it covers strictly more runs.
- Component.Render: draws the corrected grouping; as written, src/PriceComparison.js:87 throws for an inherited name (see Findings). `Component.RenderAsWritten` models that throw. The order of the tables is stated by `Grouping.DisplayOrder`, not by `Render`.
- Grouping.DisplayOrder: array-index names are stated to come in non-decreasing numeric order, which is weaker than the strictly ascending order `Object.keys` produces. Strict order follows from the names being distinct, but that step is not proved.
- The entry component `src/App.js` is not part of this model.
- The PDF invoice export is not part of this model.
- The vendor-keyed grouping variant is not part of this model.
- Field values the catalog might lack or mistype (a missing `name`, a string `price`) are not modelled. `Offer` has typed fields.

Tables are drawn in `Object.keys` order, which puts names that are array indices, such as "42", first and in numeric order (src/PriceComparison.js:193-194). `Grouping.DisplayOrder` models that order. `Grouping.GroupsInFirstSeenOrder` covers the order in which the groups are created.

With the eco filter on and no sort, the derived list is a subsequence of the results. After a sort it is a permutation of the eco-filtered results, not a subsequence of the results, and `View.ApplyView` states exactly that.

## Findings

| source | as written | input that shows it | evidently intended | confidence | as-written member | corrected member |
|---|---|---|---|---|---|---|
| src/PriceComparison.js:55-59 | the reduce collects into `{}`, so `grouped[name]` is already truthy for names that every object inherits, and `.push` is not a function there | a search for "constructor" that matches one offer; `groupByProduct` then throws a TypeError and the page breaks | one table per name for every name, as with `Object.create(null)` or a `Map` | not executed | Grouping.GroupAsWritten, Grouping.InheritedNameBreaksGrouping, Component.RenderAsWritten | Grouping.GroupByProduct |
