/**
 `groupByProduct`: the `reduce` that files the on-screen list into one table
 per product name, and the order in which `Object.keys` then lists those
 tables.
 */
module Grouping {
  import opened Seqs
  import opened Sorting
  import opened Catalog

  /** One table on screen: a product name and its offers. */
  datatype Group = Group(name: string, offers: seq<Offer>)

  /** The offers of `products` named `name`, in list order. */
  function OffersNamed(products: seq<Offer>, name: string): (r: seq<Offer>)
    ensures forall o :: o in r ==> o in products && o.name == name
  {
    if products == [] then []
    else (if products[0].name == name then [products[0]] else []) + OffersNamed(products[1..], name)
  }

  /** The same selection, as the order-preserving filter on the name. */
  lemma {:induction false} OffersNamedIsFilter(products: seq<Offer>, name: string)
    ensures OffersNamed(products, name) == Filter((o: Offer) => o.name == name, products)
    decreases |products|
  {
    if products != [] {
      OffersNamedIsFilter(products[1..], name);
    }
  }

  lemma {:induction false} OffersNamedAppend(init: seq<Offer>, last: Offer, name: string)
    ensures OffersNamed(init + [last], name) == OffersNamed(init, name) + (if last.name == name then [last] else [])
    decreases |init|
  {
    if init == [] {
      assert init + [last] == [last];
      assert [last][1..] == [];
    } else {
      assert (init + [last])[1..] == init[1..] + [last];
      OffersNamedAppend(init[1..], last, name);
    }
  }

  lemma {:induction false} OffersNamedAbsent(products: seq<Offer>, name: string)
    requires name !in NamesOf(products)
    ensures OffersNamed(products, name) == []
    decreases |products|
  {
    if products != [] {
      assert products[0] in products;
      assert NamesOf(products[1..]) <= NamesOf(products) by {
        forall n | n in NamesOf(products[1..]) ensures n in NamesOf(products) {
          var o :| o in products[1..] && o.name == n;
          assert o in products;
        }
      }
      OffersNamedAbsent(products[1..], name);
    }
  }

  ghost predicate DistinctNames(groups: seq<Group>)
  {
    forall i, j :: 0 <= i < j < |groups| ==> groups[i].name != groups[j].name
  }

  function Keys(groups: seq<Group>): (names: set<string>)
  {
    set i | 0 <= i < |groups| :: groups[i].name
  }

  /** The position of the group keyed `name`, if there is one. */
  function FindGroup(groups: seq<Group>, name: string): (r: Option<nat>)
    ensures r.Some? ==> r.value < |groups| && groups[r.value].name == name
    ensures r.None? <==> name !in Keys(groups)
  {
    if groups == [] then None
    else if groups[0].name == name then Some(0)
    else
      assert Keys(groups) == {groups[0].name} + Keys(groups[1..]) by {
        forall n | n in Keys(groups) ensures n in {groups[0].name} + Keys(groups[1..]) {
          var i :| 0 <= i < |groups| && groups[i].name == n;
          if i > 0 {
            assert groups[1..][i - 1] == groups[i];
          }
        }
      }
      match FindGroup(groups[1..], name)
      case None => None
      case Some(i) => Some(i + 1)
  }

  /**
   One step of the `reduce` over a null-prototype accumulator: file `o` under
   its name, creating the group the first time the name is seen.
   */
  function FileOffer(groups: seq<Group>, o: Offer): (r: seq<Group>)
    ensures Keys(r) == Keys(groups) + {o.name}
    ensures DistinctNames(groups) ==> DistinctNames(r)
    // a new name opens one group, at the end, holding just `o`
    ensures |r| == |groups| + (if o.name in Keys(groups) then 0 else 1)
    ensures o.name !in Keys(groups) ==> r[|groups|] == Group(o.name, [o])
    // `o` is pushed onto the end of its own group; every other group is left as it was
    ensures DistinctNames(groups) ==>
      forall j :: 0 <= j < |groups| ==>
        r[j] == Group(groups[j].name, groups[j].offers + (if groups[j].name == o.name then [o] else []))
  {
    match FindGroup(groups, o.name)
    case Some(i) =>
      var r := groups[i := Group(o.name, groups[i].offers + [o])];
      assert DistinctNames(groups) ==> forall j :: 0 <= j < |groups| && j != i ==> groups[j].name != o.name;
      assert Keys(r) == Keys(groups) by {
        forall n | n in Keys(groups) ensures n in Keys(r) {
          var j :| 0 <= j < |groups| && groups[j].name == n;
          assert r[j].name == n;
        }
      }
      r
    case None =>
      var r := groups + [Group(o.name, [o])];
      assert Keys(r) == Keys(groups) + {o.name} by {
        assert r[|groups|].name == o.name;
        forall n | n in Keys(groups) ensures n in Keys(r) {
          var j :| 0 <= j < |groups| && groups[j].name == n;
          assert r[j].name == n;
        }
      }
      r
  }

  /** The names occurring in `products`. */
  function NamesOf(products: seq<Offer>): (names: set<string>)
  {
    set o | o in products :: o.name
  }

  /** The grouping the component means to compute (see the Findings in README). */
  function GroupByProduct(products: seq<Offer>): (g: seq<Group>)
    ensures DistinctNames(g)
    ensures Keys(g) == NamesOf(products)
  {
    if products == [] then []
    else
      var init, last := products[..|products| - 1], products[|products| - 1];
      assert products == init + [last];
      assert NamesOf(products) == NamesOf(init) + {last.name};
      FileOffer(GroupByProduct(init), last)
  }

  /** Every group holds exactly the offers of `products` named like it, in list order. */
  ghost predicate HoldsNameFilters(groups: seq<Group>, products: seq<Offer>)
  {
    forall i :: 0 <= i < |groups| ==> groups[i].offers == OffersNamed(products, groups[i].name)
  }

  /** Each group holds exactly its product's offers, in list order. */
  lemma {:induction false} GroupsAreNameFilters(products: seq<Offer>)
    ensures HoldsNameFilters(GroupByProduct(products), products)
    decreases |products|
  {
    if products != [] {
      var init, last := products[..|products| - 1], products[|products| - 1];
      assert products == init + [last];
      GroupsAreNameFilters(init);
      FileOfferKeepsFilters(GroupByProduct(init), init, last);
    }
  }

  lemma FileOfferKeepsFilters(g0: seq<Group>, init: seq<Offer>, last: Offer)
    requires DistinctNames(g0) && Keys(g0) == NamesOf(init)
    requires HoldsNameFilters(g0, init)
    ensures HoldsNameFilters(FileOffer(g0, last), init + [last])
  {
    var g := FileOffer(g0, last);
    forall i | 0 <= i < |g| ensures g[i].offers == OffersNamed(init + [last], g[i].name) {
      var n := g[i].name;
      OffersNamedAppend(init, last, n);
      match FindGroup(g0, last.name)
      case Some(k) =>
        if i != k {
          assert g[i] == g0[i];
        }
      case None =>
        if i < |g0| {
          assert g[i] == g0[i];
          assert n in Keys(g0);
        } else {
          OffersNamedAbsent(init, n);
        }
    }
  }

  /** Every offer named `name` is selected by `OffersNamed`. */
  lemma {:induction false} OffersNamedContains(products: seq<Offer>, j: nat, name: string)
    requires j < |products| && products[j].name == name
    ensures products[j] in OffersNamed(products, name)
    decreases |products|
  {
    if j > 0 {
      assert products[1..][j - 1] == products[j];
      OffersNamedContains(products[1..], j - 1, name);
    }
  }

  /** Some group keyed by `o`'s name holds `o`. */
  ghost predicate FiledUnderName(groups: seq<Group>, o: Offer)
  {
    exists i :: 0 <= i < |groups| && groups[i].name == o.name && o in groups[i].offers
  }

  /**
   `groups` partitions `products` by name: every offer sits in the group
   keyed by its name, every offer of a group carries the group's name, and
   no group is empty.
   */
  ghost predicate IsNamePartition(groups: seq<Group>, products: seq<Offer>)
  {
    && (forall j :: 0 <= j < |products| ==> FiledUnderName(groups, products[j]))
    && (forall i, o :: 0 <= i < |groups| && o in groups[i].offers ==> o in products && o.name == groups[i].name)
    && (forall i :: 0 <= i < |groups| ==> groups[i].offers != [])
  }

  lemma GroupByProductPartition(products: seq<Offer>)
    ensures IsNamePartition(GroupByProduct(products), products)
  {
    var g := GroupByProduct(products);
    GroupsAreNameFilters(products);
    EveryOfferFiled(g, products);
    NoGroupEmpty(g, products);
  }

  lemma EveryOfferFiled(g: seq<Group>, products: seq<Offer>)
    requires HoldsNameFilters(g, products) && Keys(g) == NamesOf(products)
    ensures forall j :: 0 <= j < |products| ==> FiledUnderName(g, products[j])
  {
    forall j | 0 <= j < |products| ensures FiledUnderName(g, products[j]) {
      assert products[j] in products;
      assert products[j].name in Keys(g);
      var i :| 0 <= i < |g| && g[i].name == products[j].name;
      OffersNamedContains(products, j, g[i].name);
    }
  }

  lemma NoGroupEmpty(g: seq<Group>, products: seq<Offer>)
    requires HoldsNameFilters(g, products) && Keys(g) == NamesOf(products)
    ensures forall i :: 0 <= i < |g| ==> g[i].offers != []
  {
    forall i | 0 <= i < |g| ensures g[i].offers != [] {
      assert g[i].name in Keys(g);
      var o :| o in products && o.name == g[i].name;
      var j :| 0 <= j < |products| && products[j] == o;
      OffersNamedContains(products, j, g[i].name);
    }
  }

  /** All offers of all groups, group after group. */
  function Flatten(groups: seq<Group>): (products: seq<Offer>)
  {
    if groups == [] then [] else groups[0].offers + Flatten(groups[1..])
  }

  lemma {:induction false} FlattenAppend(a: seq<Group>, b: seq<Group>)
    ensures Flatten(a + b) == Flatten(a) + Flatten(b)
    decreases |a|
  {
    if a == [] {
      assert a + b == b;
    } else {
      assert (a + b)[1..] == a[1..] + b;
      FlattenAppend(a[1..], b);
    }
  }

  lemma {:induction false} FlattenSplit(groups: seq<Group>, i: nat)
    requires i < |groups|
    ensures Flatten(groups) == Flatten(groups[..i]) + groups[i].offers + Flatten(groups[i + 1..])
  {
    var tail := [groups[i]] + groups[i + 1..];
    assert groups == groups[..i] + tail;
    FlattenAppend(groups[..i], tail);
    assert tail[0] == groups[i] && tail[1..] == groups[i + 1..];
    assert Flatten(tail) == groups[i].offers + Flatten(groups[i + 1..]);
  }

  /** Rearranging the tables does not change which offers they show, or how often. */
  lemma {:induction false} FlattenPermutation(a: seq<Group>, b: seq<Group>)
    requires multiset(a) == multiset(b)
    ensures multiset(Flatten(a)) == multiset(Flatten(b))
    decreases |a|
  {
    if a == [] {
      assert |b| == |multiset(b)| == 0;
    } else {
      var x := a[0];
      assert a == [x] + a[1..];
      assert x in multiset(b);
      var k :| 0 <= k < |b| && b[k] == x;
      var rest := b[..k] + b[k + 1..];
      SpliceAt(b, k);
      assert multiset(b) == multiset(rest) + multiset{x};
      MultisetCancel(a[1..], rest, x, multiset(a));
      FlattenPermutation(a[1..], rest);
      FlattenSplit(b, k);
      FlattenAppend(b[..k], b[k + 1..]);
    }
  }

  /** Reading the tables top to bottom shows every offer of the list exactly once. */
  lemma {:induction false} FlattenIsPermutation(products: seq<Offer>)
    ensures multiset(Flatten(GroupByProduct(products))) == multiset(products)
    decreases |products|
  {
    if products != [] {
      var init, last := products[..|products| - 1], products[|products| - 1];
      assert products == init + [last];
      var g0 := GroupByProduct(init);
      var g := GroupByProduct(products);
      FlattenIsPermutation(init);
      match FindGroup(g0, last.name)
      case Some(k) =>
        FlattenSplit(g0, k);
        FlattenSplit(g, k);
        assert g[..k] == g0[..k] && g[k + 1..] == g0[k + 1..];
      case None =>
        FlattenAppend(g0, [Group(last.name, [last])]);
    }
  }

  /** Index of the first offer named `name`, or `|products|` when there is none. */
  function FirstIndex(products: seq<Offer>, name: string): (k: nat)
    ensures k <= |products|
    ensures k < |products| <==> name in NamesOf(products)
    ensures k < |products| ==> products[k].name == name
    ensures forall j :: 0 <= j < k ==> products[j].name != name
  {
    if products == [] then 0
    else if products[0].name == name then 0
    else
      var k := FirstIndex(products[1..], name);
      assert NamesOf(products) == {products[0].name} + NamesOf(products[1..]) by {
        assert products == [products[0]] + products[1..];
      }
      assert forall j :: 1 <= j < k + 1 ==> products[j] == products[1..][j - 1];
      k + 1
  }

  /** Groups are listed in the order their names first occur in `products`. */
  ghost predicate InFirstSeenOrder(groups: seq<Group>, products: seq<Offer>)
  {
    forall i, j :: 0 <= i < j < |groups| ==> FirstIndex(products, groups[i].name) < FirstIndex(products, groups[j].name)
  }

  /** Tables appear in the order their product names first occur in the list. */
  lemma {:induction false} GroupsInFirstSeenOrder(products: seq<Offer>)
    ensures InFirstSeenOrder(GroupByProduct(products), products)
    decreases |products|
  {
    if products != [] {
      var init, last := products[..|products| - 1], products[|products| - 1];
      assert products == init + [last];
      GroupsInFirstSeenOrder(init);
      FileOfferKeepsOrder(GroupByProduct(init), init, last);
    }
  }

  lemma FileOfferKeepsOrder(g0: seq<Group>, init: seq<Offer>, last: Offer)
    requires Keys(g0) == NamesOf(init)
    requires InFirstSeenOrder(g0, init)
    ensures InFirstSeenOrder(FileOffer(g0, last), init + [last])
  {
    var products := init + [last];
    forall i | 0 <= i < |g0|
      ensures FirstIndex(products, g0[i].name) == FirstIndex(init, g0[i].name) < |init|
    {
      assert g0[i].name in Keys(g0);
      FirstIndexExtend(init, last, g0[i].name);
    }
    match FindGroup(g0, last.name)
    case Some(k) =>
      RenamedNothingKeepsOrder(g0, FileOffer(g0, last), init, products);
    case None =>
      assert last.name !in NamesOf(init);
      FirstIndexExtend(init, last, last.name);
      NewNameLastKeepsOrder(g0, Group(last.name, [last]), init, products);
  }

  /** Groups whose names are unchanged, over a list whose earlier first occurrences are unchanged. */
  lemma RenamedNothingKeepsOrder(g0: seq<Group>, g: seq<Group>, init: seq<Offer>, products: seq<Offer>)
    requires |g| == |g0| && forall i :: 0 <= i < |g| ==> g[i].name == g0[i].name
    requires forall i :: 0 <= i < |g0| ==> FirstIndex(products, g0[i].name) == FirstIndex(init, g0[i].name)
    requires InFirstSeenOrder(g0, init)
    ensures InFirstSeenOrder(g, products)
  {
    forall i, j | 0 <= i < j < |g|
      ensures FirstIndex(products, g[i].name) < FirstIndex(products, g[j].name)
    {
      assert g[i].name == g0[i].name && g[j].name == g0[j].name;
    }
  }

  /** A group for a name first seen at the end goes after every older group. */
  lemma NewNameLastKeepsOrder(g0: seq<Group>, added: Group, init: seq<Offer>, products: seq<Offer>)
    requires forall i :: 0 <= i < |g0| ==> FirstIndex(products, g0[i].name) == FirstIndex(init, g0[i].name) < |init|
    requires FirstIndex(products, added.name) == |init|
    requires InFirstSeenOrder(g0, init)
    ensures InFirstSeenOrder(g0 + [added], products)
  {
    var g := g0 + [added];
    forall i, j | 0 <= i < j < |g|
      ensures FirstIndex(products, g[i].name) < FirstIndex(products, g[j].name)
    {
      assert g[i] == g0[i];
      if j < |g0| {
        assert g[j] == g0[j];
      } else {
        assert g[j] == added;
      }
    }
  }

  lemma FirstIndexExtend(init: seq<Offer>, last: Offer, name: string)
    ensures name in NamesOf(init) ==> FirstIndex(init + [last], name) == FirstIndex(init, name)
    ensures name !in NamesOf(init) && last.name == name ==> FirstIndex(init + [last], name) == |init|
  {
    if name in NamesOf(init) {
      FirstIndexSeen(init, last, name);
    } else if last.name == name {
      FirstIndexNew(init, last, name);
    }
  }

  lemma FirstIndexSeen(init: seq<Offer>, last: Offer, name: string)
    requires name in NamesOf(init)
    ensures FirstIndex(init + [last], name) == FirstIndex(init, name)
  {
    var p := init + [last];
    var k := FirstIndex(init, name);
    assert p[k] == init[k];
    assert forall j :: 0 <= j < k ==> p[j] == init[j];
    var kp := FirstIndex(p, name);
    assert p[k].name == name;
  }

  lemma FirstIndexNew(init: seq<Offer>, last: Offer, name: string)
    requires name !in NamesOf(init) && last.name == name
    ensures FirstIndex(init + [last], name) == |init|
  {
    var p := init + [last];
    assert p[|init|] == last;
    forall j | 0 <= j < |init| ensures p[j].name != name {
      assert p[j] == init[j];
      assert init[j] in init;
    }
    assert name in NamesOf(p) by {
      assert last in p;
    }
  }

  // ---------------------------------------------------------------------
  // The reduce as written, with `{}` as the accumulator.

  /**
   The properties every plain object inherits from `Object.prototype`
   (ECMA-262, section 20.1.3, with the Annex B accessors). For these names
   `grouped[name]` is already a truthy function (or, for `__proto__`, the
   prototype object), so the group is never created and `.push` is not a
   function.
   */
  const InheritedNames: set<string> := {
    "constructor", "hasOwnProperty", "isPrototypeOf", "propertyIsEnumerable",
    "toLocaleString", "toString", "valueOf", "__proto__",
    "__defineGetter__", "__defineSetter__", "__lookupGetter__", "__lookupSetter__"
  }

  datatype GroupOutcome = Grouped(groups: seq<Group>) | TypeError

  /** No offer in `products` carries a name every object inherits. */
  ghost predicate NoInheritedName(products: seq<Offer>)
  {
    forall j :: 0 <= j < |products| ==> products[j].name !in InheritedNames
  }

  lemma NoInheritedNameSnoc(products: seq<Offer>)
    requires products != []
    ensures NoInheritedName(products) <==>
      NoInheritedName(products[..|products| - 1]) && products[|products| - 1].name !in InheritedNames
  {
    assert forall j :: 0 <= j < |products| - 1 ==> products[..|products| - 1][j] == products[j];
  }

  /** `groupByProduct` exactly as written: it throws on the first inherited name. */
  function GroupAsWritten(products: seq<Offer>): (r: GroupOutcome)
    ensures r.Grouped? <==> NoInheritedName(products)
    ensures r.Grouped? ==> r.groups == GroupByProduct(products)
  {
    if products == [] then Grouped([])
    else
      var init, last := products[..|products| - 1], products[|products| - 1];
      NoInheritedNameSnoc(products);
      match GroupAsWritten(init)
      case TypeError => TypeError
      case Grouped(g) =>
        if last.name in InheritedNames then TypeError
        else
          GroupByProductSnoc(products);
          Grouped(FileOffer(g, last))
  }

  /** The grouping of a non-empty list files its last offer into the grouping of the rest. */
  lemma GroupByProductSnoc(products: seq<Offer>)
    requires products != []
    ensures GroupByProduct(products) == FileOffer(GroupByProduct(products[..|products| - 1]), products[|products| - 1])
  {
  }

  /** A search for "constructor" that finds an offer breaks the page; the intended grouping files it normally. */
  lemma InheritedNameBreaksGrouping(o: Offer)
    requires o.name == "constructor"
    ensures GroupAsWritten([o]) == TypeError
    ensures GroupByProduct([o]) == [Group("constructor", [o])]
  {
    assert [o][..0] == [];
  }

  /** Away from inherited names the written reduce and the intended grouping agree. */
  lemma GroupAsWrittenAgrees(products: seq<Offer>)
    requires NoInheritedName(products)
    ensures GroupAsWritten(products) == Grouped(GroupByProduct(products))
  {
  }

  // ---------------------------------------------------------------------
  // The order of `Object.keys(groupedProducts)`.

  predicate IsDigit(c: char) { '0' <= c <= '9' }

  /** The value of a string of decimal digits. */
  function DecimalValue(s: string): (value: nat)
    requires forall i :: 0 <= i < |s| ==> IsDigit(s[i])
  {
    if s == [] then 0 else
      assert IsDigit(s[|s| - 1]);
      10 * DecimalValue(s[..|s| - 1]) + (s[|s| - 1] as int - '0' as int)
  }

  /**
   An array index (ECMA-262, section 6.1.7): the canonical decimal spelling
   of an integer from 0 to 2^32 - 2. Object.keys lists such keys first.
   */
  predicate IsArrayIndex(name: string)
  {
    && |name| > 0
    && (forall i :: 0 <= i < |name| ==> IsDigit(name[i]))
    && (name[0] != '0' || |name| == 1)
    && DecimalValue(name) < 0xFFFF_FFFF
  }

  predicate IsIndexGroup(g: Group) { IsArrayIndex(g.name) }

  predicate IsPlainGroup(g: Group) { !IsArrayIndex(g.name) }

  function IndexValue(g: Group): (value: real)
  {
    if IsArrayIndex(g.name) then DecimalValue(g.name) as real else 0.0
  }

  /**
   The order in which `Object.keys` lists the groups (OrdinaryOwnPropertyKeys,
   section 10.1.11.1 of ECMA-262): array-index names in ascending numeric
   order, then every other name in creation order.
   */
  function DisplayOrder(groups: seq<Group>): (r: seq<Group>)
    ensures multiset(r) == multiset(groups)
    ensures forall i, j :: 0 <= i < j < |r| && IsIndexGroup(r[j]) ==> IsIndexGroup(r[i]) && IndexValue(r[i]) <= IndexValue(r[j])
    ensures Filter(IsPlainGroup, r) == Filter(IsPlainGroup, groups)
    ensures (forall i :: 0 <= i < |groups| ==> IsPlainGroup(groups[i])) ==> r == groups
  {
    var front := SortBy(Filter(IsIndexGroup, groups), IndexValue, false);
    var back := Filter(IsPlainGroup, groups);
    FrontHoldsIndexGroups(groups, front);
    FrontNeedsIndexGroup(groups, front);
    DisplayPermutation(groups, front, back);
    PlainGroupsKeepOrder(groups, front, back);
    IndexGroupsFirst(front, back);
    front + back
  }

  lemma IndexGroupsFirst(front: seq<Group>, back: seq<Group>)
    requires forall i :: 0 <= i < |front| ==> IsIndexGroup(front[i])
    requires Sorted(front, IndexValue, false)
    requires forall i :: 0 <= i < |back| ==> IsPlainGroup(back[i])
    ensures var r := front + back;
      forall i, j :: 0 <= i < j < |r| && IsIndexGroup(r[j]) ==> IsIndexGroup(r[i]) && IndexValue(r[i]) <= IndexValue(r[j])
  {
    var r := front + back;
    assert forall k :: |front| <= k < |r| ==> r[k] == back[k - |front|];
    forall i, j | 0 <= i < j < |r| && IsIndexGroup(r[j])
      ensures IsIndexGroup(r[i]) && IndexValue(r[i]) <= IndexValue(r[j])
    {
      assert j < |front|;
      assert r[i] == front[i] && r[j] == front[j];
      assert Compare(IndexValue, false, front[i], front[j]) <= 0.0;
    }
  }

  lemma PlainGroupsKeepOrder(groups: seq<Group>, front: seq<Group>, back: seq<Group>)
    requires forall i :: 0 <= i < |front| ==> IsIndexGroup(front[i])
    requires back == Filter(IsPlainGroup, groups)
    requires front == [] || exists i :: 0 <= i < |groups| && IsIndexGroup(groups[i])
    ensures Filter(IsPlainGroup, front + back) == back
    ensures (forall i :: 0 <= i < |groups| ==> IsPlainGroup(groups[i])) ==> front + back == groups
  {
    FilterAppend(IsPlainGroup, front, back);
    FilterDropsAll(IsPlainGroup, front);
    FilterKeepsAll(IsPlainGroup, back);
    if forall i :: 0 <= i < |groups| ==> IsPlainGroup(groups[i]) {
      FilterKeepsAll(IsPlainGroup, groups);
    }
  }

  lemma FrontHoldsIndexGroups(groups: seq<Group>, front: seq<Group>)
    requires front == SortBy(Filter(IsIndexGroup, groups), IndexValue, false)
    ensures forall i :: 0 <= i < |front| ==> IsIndexGroup(front[i])
  {
    var f := Filter(IsIndexGroup, groups);
    forall i | 0 <= i < |front| ensures IsIndexGroup(front[i]) {
      assert front[i] in multiset(f);
      var j :| 0 <= j < |f| && f[j] == front[i];
    }
  }

  lemma FrontNeedsIndexGroup(groups: seq<Group>, front: seq<Group>)
    requires forall i :: 0 <= i < |front| ==> IsIndexGroup(front[i])
    requires multiset(front) == multiset(Filter(IsIndexGroup, groups))
    ensures front == [] || exists i :: 0 <= i < |groups| && IsIndexGroup(groups[i])
  {
    if front != [] {
      var x := front[0];
      assert x in multiset(Filter(IsIndexGroup, groups));
      assert multiset(groups)[x] > 0;
      assert x in groups;
      var i :| 0 <= i < |groups| && groups[i] == x;
    }
  }

  lemma DisplayPermutation(groups: seq<Group>, front: seq<Group>, back: seq<Group>)
    requires multiset(front) == multiset(Filter(IsIndexGroup, groups))
    requires back == Filter(IsPlainGroup, groups)
    ensures multiset(front + back) == multiset(groups)
  {
    var f := Filter(IsIndexGroup, groups);
    forall g ensures multiset(front + back)[g] == multiset(groups)[g] {
      assert multiset(front)[g] == multiset(f)[g];
    }
  }
}
