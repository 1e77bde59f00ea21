/**
 * The product listing page: filter the catalogue by search text, category
 * and price range, then optionally sort the matches.
 */
module Products {
  import opened Collections
  import opened Text

  /**
   * One catalogue entry. `price` is in cents and `rating` in tenths of a
   * star, standing for the page's decimal numbers.
   */
  datatype Product = Product(
    id: int,
    title: string,
    price: int,
    category: string,
    rating: int,
    img: string)

  /** The sort select's choices; any other value leaves the order alone. */
  datatype SortOrder = Unsorted | PriceAsc | PriceDesc | RatingDesc

  /** The sort select's value read as a sort order. */
  function ParseSortOrder(value: string): (order: SortOrder)
    ensures order == PriceAsc <==> value == "price-asc"
    ensures order == PriceDesc <==> value == "price-desc"
    ensures order == RatingDesc <==> value == "rating-desc"
  {
    if value == "price-asc" then PriceAsc
    else if value == "price-desc" then PriceDesc
    else if value == "rating-desc" then RatingDesc
    else Unsorted
  }

  /**
   * The search text as the filter uses it: lowercased, then trimmed. It is
   * also the search text trimmed, then lowercased, so it has neither
   * surrounding whitespace nor upper-case letters.
   */
  function Query(search: string): (q: string)
    ensures q == ToLower(Trim(search))
    ensures IsTrimmed(q) && ToLower(q) == q
  {
    ToLowerTrimCommute(search);
    assert IsTrimmed(Trim(ToLower(search))) by {
      var _, _ := TrimIsSlice(ToLower(search));
    }
    ToLowerIdempotent(Trim(search));
    Trim(ToLower(search))
  }

  /** The category select value as the filter uses it: empty means `all`, then lowercased. */
  function CategoryChoice(catValue: string): (cat: string)
    ensures catValue == [] ==> cat == "all"
    ensures catValue != [] ==> cat == ToLower(catValue)
    ensures ToLower(cat) == cat
  {
    ToLowerIdempotent(if catValue == [] then "all" else catValue);
    assert ToLower("all") == "all";
    ToLower(if catValue == [] then "all" else catValue)
  }

  /**
   * The three conditions of the filter for one product: the query occurs in
   * the lowercased title or category, the lowercased category is the chosen
   * one (unless `all`), and the price lies in the inclusive range, where a
   * missing upper bound stands for `Infinity`.
   */
  predicate Matches(p: Product, q: string, cat: string, min: int, max: Option<int>)
  {
    && (Includes(ToLower(p.title), q) || Includes(ToLower(p.category), q))
    && (cat == "all" || ToLower(p.category) == cat)
    && min <= p.price && (max.None? || p.price <= max.value)
  }

  /** The filter's test for one product as the predicate handed to `filter`. */
  function MatchesBy(q: string, cat: string, min: int, max: Option<int>): Product -> bool
  {
    (p: Product) => Matches(p, q, cat, min, max)
  }

  /**
   * The three conditions stated on their own terms: the normalised query
   * occurs at some position of the lowercased title or category, the
   * lowercased category is the chosen one unless that is `all`, and the
   * price lies in the range.
   */
  ghost predicate Listed(p: Product, search: string, catValue: string, min: int, max: Option<int>)
  {
    && (Occurs(Query(search), ToLower(p.title)) || Occurs(Query(search), ToLower(p.category)))
    && (CategoryChoice(catValue) != "all" ==> ToLower(p.category) == CategoryChoice(catValue))
    && min <= p.price && (max.Some? ==> p.price <= max.value)
  }

  /** The filter's test decides exactly the three conditions. */
  lemma MatchesListed(p: Product, search: string, catValue: string, min: int, max: Option<int>)
    ensures Matches(p, Query(search), CategoryChoice(catValue), min, max) <==> Listed(p, search, catValue, min, max)
  {
    var q := Query(search);
    assert Includes(ToLower(p.title), q) <==> Occurs(q, ToLower(p.title));
    assert Includes(ToLower(p.category), q) <==> Occurs(q, ToLower(p.category));
  }

  /** `products.filter(...)`: the matching products in catalogue order. */
  function FilterProducts(products: seq<Product>, search: string, catValue: string, min: int, max: Option<int>): (r: seq<Product>)
    ensures IsSubsequence(r, products)
    ensures forall i :: 0 <= i < |r| ==> Listed(r[i], search, catValue, min, max)
    ensures forall i :: 0 <= i < |products| && Listed(products[i], search, catValue, min, max) ==> products[i] in r
  {
    var f := MatchesBy(Query(search), CategoryChoice(catValue), min, max);
    assert forall p :: f(p) <==> Listed(p, search, catValue, min, max) by {
      forall p ensures f(p) <==> Listed(p, search, catValue, min, max) {
        MatchesListed(p, search, catValue, min, max);
      }
    }
    Filter(f, products)
  }

  /** Each product that meets the conditions is listed exactly as often as the catalogue holds it; no other is. */
  lemma FilterProductsCount(products: seq<Product>, search: string, catValue: string, min: int, max: Option<int>, p: Product)
    ensures Count(FilterProducts(products, search, catValue, min, max), p) ==
      if Listed(p, search, catValue, min, max) then Count(products, p) else 0
  {
    FilterCount(MatchesBy(Query(search), CategoryChoice(catValue), min, max), products, p);
  }

  /**
   * The sort key: sorting by ascending key is what each comparator does
   * (`a.price - b.price`, `b.price - a.price`, `b.rating - a.rating`).
   */
  function Key(p: Product, order: SortOrder): int
  {
    match order
    case Unsorted => 0
    case PriceAsc => p.price
    case PriceDesc => -p.price
    case RatingDesc => -p.rating
  }

  ghost predicate SortedBy(s: seq<Product>, order: SortOrder)
  {
    forall i, j :: 0 <= i < j < |s| ==> Key(s[i], order) <= Key(s[j], order)
  }

  /** The first `n` elements of `s` are in key order. */
  ghost predicate SortedPrefix(s: seq<Product>, n: int, order: SortOrder)
  {
    forall i, j :: 0 <= i < j < n && j < |s| ==> Key(s[i], order) <= Key(s[j], order)
  }

  /** The products whose key is `k`. */
  function KeyIs(k: int, order: SortOrder): Product -> bool
  {
    (p: Product) => Key(p, order) == k
  }

  /**
   * Products with equal keys come in the same relative order in `s` as in
   * `t`: the stability that `Array.prototype.sort` guarantees.
   */
  ghost predicate SameOrderPerKey(s: seq<Product>, t: seq<Product>, order: SortOrder)
  {
    forall k :: Filter(KeyIs(k, order), s) == Filter(KeyIs(k, order), t)
  }

  /** Exchanging two neighbours with different keys keeps the order among equal keys. */
  lemma SwapKeepsOrderPerKey(s: seq<Product>, j: int, order: SortOrder)
    requires 0 < j < |s| && Key(s[j - 1], order) != Key(s[j], order)
    ensures SameOrderPerKey(s[j - 1 := s[j]][j := s[j - 1]], s, order)
  {
    var t := s[j - 1 := s[j]][j := s[j - 1]];
    var pre, x, y, post := s[..j - 1], s[j - 1], s[j], s[j + 1..];
    assert s == (pre + [x, y]) + post;
    assert t == (pre + [y, x]) + post;
    forall k ensures Filter(KeyIs(k, order), t) == Filter(KeyIs(k, order), s) {
      var p := KeyIs(k, order);
      FilterAppend(p, pre + [x, y], post);
      FilterAppend(p, pre, [x, y]);
      FilterAppend(p, pre + [y, x], post);
      FilterAppend(p, pre, [y, x]);
      FilterAppend(p, [x], [y]);
      FilterAppend(p, [y], [x]);
      assert [x] + [y] == [x, y] && [y] + [x] == [y, x];
      assert Filter(p, [x, y]) == Filter(p, [y, x]);
    }
  }

  lemma SameOrderPerKeyTrans(s: seq<Product>, t: seq<Product>, u: seq<Product>, order: SortOrder)
    requires SameOrderPerKey(s, t, order) && SameOrderPerKey(t, u, order)
    ensures SameOrderPerKey(s, u, order)
  {
    forall k ensures Filter(KeyIs(k, order), s) == Filter(KeyIs(k, order), u) {
      assert Filter(KeyIs(k, order), s) == Filter(KeyIs(k, order), t);
    }
  }

  /** `result.sort(comparator)`, in place, as an insertion sort. */
  method SortInPlace(a: array<Product>, order: SortOrder)
    modifies a
    ensures SortedBy(a[..], order)
    ensures multiset(a[..]) == multiset(old(a[..]))
    ensures SameOrderPerKey(a[..], old(a[..]), order)
  {
    var i := 0;
    while i < a.Length
      invariant 0 <= i <= a.Length
      invariant SortedPrefix(a[..], i, order)
      invariant multiset(a[..]) == multiset(old(a[..]))
      invariant SameOrderPerKey(a[..], old(a[..]), order)
    {
      Insert(a, i, order);
      i := i + 1;
    }
  }

  /** Moves `a[i]` left past every larger key, so that the first `i + 1` elements are in order. */
  method Insert(a: array<Product>, i: int, order: SortOrder)
    requires 0 <= i < a.Length
    requires SortedPrefix(a[..], i, order)
    modifies a
    ensures SortedPrefix(a[..], i + 1, order)
    ensures multiset(a[..]) == multiset(old(a[..]))
    ensures SameOrderPerKey(a[..], old(a[..]), order)
  {
    var j := i;
    InsertStart(a[..], i, order);
    while j > 0 && Key(a[j - 1], order) > Key(a[j], order)
      invariant InsertInv(a[..], old(a[..]), i, j, order)
    {
      ghost var before := a[..];
      InsertStep(before, old(a[..]), i, j, order);
      Swap(a, j - 1, j);
      j := j - 1;
    }
    InsertDone(a[..], old(a[..]), i, j, order);
  }

  /**
   * The state of `Insert` with the moving element at `j`: the first `i + 1`
   * elements are in order except around `j`, and the array holds the
   * original elements with equal keys in their original order.
   */
  ghost predicate InsertInv(s: seq<Product>, s0: seq<Product>, i: int, j: int, order: SortOrder)
  {
    && 0 <= j <= i < |s|
    && (forall m, n :: 0 <= m < n <= i && n != j ==> Key(s[m], order) <= Key(s[n], order))
    && (0 < j < i ==> Key(s[j - 1], order) <= Key(s[j + 1], order))
    && multiset(s) == multiset(s0)
    && SameOrderPerKey(s, s0, order)
  }

  lemma InsertStart(s: seq<Product>, i: int, order: SortOrder)
    requires 0 <= i < |s| && SortedPrefix(s, i, order)
    ensures InsertInv(s, s, i, i, order)
  {
  }

  /** One exchange of `Insert`'s loop keeps its invariant. */
  lemma InsertStep(s: seq<Product>, s0: seq<Product>, i: int, j: int, order: SortOrder)
    requires InsertInv(s, s0, i, j, order) && j > 0 && Key(s[j - 1], order) > Key(s[j], order)
    ensures InsertInv(s[j - 1 := s[j]][j := s[j - 1]], s0, i, j - 1, order)
  {
    var t := s[j - 1 := s[j]][j := s[j - 1]];
    SwapKeepsOrderPerKey(s, j, order);
    SameOrderPerKeyTrans(t, s, s0, order);
    assert multiset(t) == multiset(s);
  }

  /** When the moving element has stopped, the first `i + 1` elements are in order. */
  lemma InsertDone(s: seq<Product>, s0: seq<Product>, i: int, j: int, order: SortOrder)
    requires InsertInv(s, s0, i, j, order) && (j == 0 || Key(s[j - 1], order) <= Key(s[j], order))
    ensures SortedPrefix(s, i + 1, order)
    ensures multiset(s) == multiset(s0) && SameOrderPerKey(s, s0, order)
  {
  }

  /** Exchanges two elements; the multiset of elements stays the same. */
  method Swap(a: array<Product>, i: int, j: int)
    requires 0 <= i < j < a.Length
    modifies a
    ensures a[..] == old(a[..])[i := old(a[j])][j := old(a[i])]
    ensures multiset(a[..]) == multiset(old(a[..]))
  {
    a[i], a[j] := a[j], a[i];
  }

  /**
   * `let result = ...; if (...) result.sort(...)`: the filtered list copied
   * into an array and sorted there unless no sort is chosen.
   */
  method SortResult(filtered: seq<Product>, order: SortOrder) returns (result: seq<Product>)
    ensures multiset(result) == multiset(filtered)
    ensures order == Unsorted ==> result == filtered
    ensures SortedBy(result, order)
    ensures SameOrderPerKey(result, filtered, order)
  {
    var a := new Product[|filtered|](k requires 0 <= k < |filtered| => filtered[k]);
    assert a[..] == filtered;
    if order != Unsorted {
      SortInPlace(a, order);
    }
    result := a[..];
  }

  /** `FilterProductsCount` for every product at once. */
  lemma FilterProductsCounts(products: seq<Product>, search: string, catValue: string, min: int, max: Option<int>)
    ensures forall p :: multiset(FilterProducts(products, search, catValue, min, max))[p] ==
                        (if Listed(p, search, catValue, min, max) then multiset(products)[p] else 0)
  {
    forall p ensures multiset(FilterProducts(products, search, catValue, min, max))[p] ==
      if Listed(p, search, catValue, min, max) then multiset(products)[p] else 0
    {
      FilterProductsCount(products, search, catValue, min, max, p);
    }
  }

  /**
   * `applyFilters`: the filtered products, sorted in place when the sort
   * select names a sort. The result holds each matching product as often
   * as the catalogue does, and nothing else; with no sort it is in
   * catalogue order, otherwise in the chosen order, with products of equal
   * key in catalogue order.
   */
  method ApplyFilters(products: seq<Product>, search: string, catValue: string, min: int, max: Option<int>, sortValue: string)
    returns (result: seq<Product>)
    ensures multiset(result) == multiset(FilterProducts(products, search, catValue, min, max))
    ensures forall p :: multiset(result)[p] == if Listed(p, search, catValue, min, max) then multiset(products)[p] else 0
    ensures forall i :: 0 <= i < |result| ==> Listed(result[i], search, catValue, min, max)
    ensures ParseSortOrder(sortValue) == Unsorted ==> result == FilterProducts(products, search, catValue, min, max)
    ensures sortValue == "price-asc" ==> forall i, j :: 0 <= i < j < |result| ==> result[i].price <= result[j].price
    ensures sortValue == "price-desc" ==> forall i, j :: 0 <= i < j < |result| ==> result[i].price >= result[j].price
    ensures sortValue == "rating-desc" ==> forall i, j :: 0 <= i < j < |result| ==> result[i].rating >= result[j].rating
    ensures SameOrderPerKey(result, FilterProducts(products, search, catValue, min, max), ParseSortOrder(sortValue))
  {
    var filtered := FilterProducts(products, search, catValue, min, max);
    result := SortResult(filtered, ParseSortOrder(sortValue));
    forall i | 0 <= i < |result| ensures result[i] in filtered {
      assert result[i] in multiset(result);
    }
    FilterProductsCounts(products, search, catValue, min, max);
  }

  /** `sampleProducts()`: the built-in catalogue used when `products.json` cannot be fetched. */
  function SampleProducts(): (r: seq<Product>)
    ensures |r| == 6
    ensures forall i, j :: 0 <= i < j < |r| ==> r[i].id != r[j].id
    ensures forall i :: 0 <= i < |r| ==> 0 < r[i].price && 0 <= r[i].rating <= 50
  {
    [ Product(1, "Eco Water Bottle", 1999, "Home", 45, "https://picsum.photos/seed/p1/400/300"),
      Product(2, "Wireless Headphones", 8999, "Electronics", 48, "https://picsum.photos/seed/p2/400/300"),
      Product(3, "Yoga Mat", 2999, "Fitness", 42, "https://picsum.photos/seed/p3/400/300"),
      Product(4, "Coffee Maker", 5999, "Home", 40, "https://picsum.photos/seed/p4/400/300"),
      Product(5, "Running Shoes", 12000, "Fitness", 47, "https://picsum.photos/seed/p5/400/300"),
      Product(6, "Smart Lamp", 3950, "Electronics", 39, "https://picsum.photos/seed/p6/400/300") ]
  }

  /**
   * On the sample catalogue the query `shoe` finds the running shoes when
   * the range reaches 120.00, and does not when it stops at 100.00: their
   * price is outside `[20, 100]`.
   */
  lemma SampleShoeQuery()
    ensures SampleProducts()[4] in FilterProducts(SampleProducts(), "shoe", "all", 2000, Some(12000))
    ensures SampleProducts()[4] !in FilterProducts(SampleProducts(), "shoe", "all", 2000, Some(10000))
  {
    var shoes := SampleProducts()[4];
    var title := ToLower(shoes.title);
    assert title[8..12] == "shoe";
    assert OccursAt("shoe", title, 8);
    assert Query("shoe") == "shoe" by {
      assert ToLower("shoe") == "shoe";
      TrimTrimmed("shoe");
    }
    EmptyQueryAndAll();
    assert Listed(shoes, "shoe", "all", 2000, Some(12000));
    assert !Listed(shoes, "shoe", "all", 2000, Some(10000));
  }

  /**
   * The lower bound as the page reads it, `parseFloat(min || '0') || 0`:
   * `None` stands for a field that does not parse, which counts as 0.
   */
  function MinBound(minField: Option<int>): (min: int)
    ensures minField.Some? ==> min == minField.value
    ensures minField.None? ==> min == 0
  {
    match minField
    case None => 0
    case Some(m) => m
  }

  /**
   * The upper bound as the page reads it, `parseFloat(max || '') || Infinity`:
   * a field that does not parse gives no bound, and so does a field of 0,
   * because 0 is falsy.
   */
  function MaxBoundAsWritten(maxField: Option<int>): (max: Option<int>)
    ensures max.None? <==> maxField.None? || maxField == Some(0)
    ensures max.Some? ==> max == maxField
  {
    match maxField
    case None => None
    case Some(m) => if m == 0 then None else Some(m)
  }

  /** The normalised values of an empty search and of the `all` category. */
  lemma EmptyQueryAndAll()
    ensures Query("") == []
    ensures CategoryChoice("") == "all" && CategoryChoice("all") == "all"
  {
    assert ToLower("all") == "all";
  }

  /** A maximum price of 0 does not filter: a product of 5.00 is still listed. */
  lemma MaxZeroIsIgnored()
    ensures MaxBoundAsWritten(Some(0)) == None
    ensures var p := Product(7, "Mug", 500, "Home", 40, "");
      p in FilterProducts([p], "", "all", MinBound(None), MaxBoundAsWritten(Some(0)))
  {
    var p := Product(7, "Mug", 500, "Home", 40, "");
    EmptyQueryAndAll();
    assert OccursAt([], ToLower(p.title), 0);
    assert Listed(p, "", "all", 0, None);
    assert [p][0] == p;
  }

  /**
   * The upper bound with only a field that does not parse meaning "no
   * bound": it agrees with the page's reading on every field except 0,
   * which it keeps as a bound.
   */
  function MaxBound(maxField: Option<int>): (max: Option<int>)
    ensures maxField != Some(0) ==> max == MaxBoundAsWritten(maxField)
    ensures maxField == Some(0) ==> max == Some(0) && MaxBoundAsWritten(maxField) == None
  {
    maxField
  }

  /**
   * With the search, category and both price fields empty, the whole
   * catalogue is listed, in order, provided no price is negative.
   */
  lemma EmptyFiltersListAll(products: seq<Product>)
    requires forall i :: 0 <= i < |products| ==> 0 <= products[i].price
    ensures FilterProducts(products, "", "", MinBound(None), MaxBound(None)) == products
  {
    EmptyQueryAndAll();
    forall i | 0 <= i < |products| ensures MatchesBy([], "all", 0, None)(products[i]) {
      IncludesEmpty(ToLower(products[i].title));
    }
    FilterAll(MatchesBy([], "all", 0, None), products);
  }

  /** Every product listed under a typed maximum costs at most that maximum, 0 included. */
  lemma TypedMaxIsRespected(products: seq<Product>, search: string, catValue: string, minField: Option<int>, m: int)
    ensures forall p :: p in FilterProducts(products, search, catValue, MinBound(minField), MaxBound(Some(m))) ==> p.price <= m
  {
  }
}
