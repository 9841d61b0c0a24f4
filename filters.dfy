/** `ProductFilter`: the product list filters. Each keeps the products that pass its test,
    in their original order. */
module ProductFilters {
  import opened Common
  import opened Products

  /** The query parameters, already parsed; an absent parameter is None. */
  datatype FilterParams = FilterParams(
    category: Option<nat>, minPrice: Option<real>, maxPrice: Option<real>, inStock: Option<bool>)

  predicate PassesStock(p: Product, value: Option<bool>) {
    (value != Some(true) || InStock(p)) && (value != Some(false) || p.stockQuantity == 0)
  }

  predicate PassesMin(p: Product, bound: Option<real>) {
    bound.None? || FinalPrice(p) >= bound.value
  }

  predicate PassesMax(p: Product, bound: Option<real>) {
    bound.None? || FinalPrice(p) <= bound.value
  }

  predicate PassesCategory(p: Product, category: Option<nat>) {
    category.None? || p.category == category.value
  }

  /** `filter_in_stock`: True keeps the products in stock, False those with none left, and
      no value returns the input as it is. */
  function FilterInStock(ps: seq<Product>, value: Option<bool>): (r: seq<Product>)
    ensures IsSubsequence(r, ps)
    ensures value == Some(true) ==> forall p :: p in r <==> p in ps && p.stockQuantity > 0
    ensures value == Some(false) ==> forall p :: p in r <==> p in ps && p.stockQuantity == 0
    ensures value.None? ==> r == ps
  {
    if value.None? then SubsequenceOfItself(ps); ps
    else
      var keep := (p: Product) => PassesStock(p, value);
      SelectIsSubsequence(ps, keep);
      Select(ps, keep)
  }

  /** `min_price`: final price at least the bound. */
  function FilterMinPrice(ps: seq<Product>, bound: Option<real>): (r: seq<Product>)
    ensures IsSubsequence(r, ps)
    ensures bound.Some? ==> forall p :: p in r <==> p in ps && FinalPrice(p) >= bound.value
    ensures bound.None? ==> r == ps
  {
    if bound.None? then SubsequenceOfItself(ps); ps
    else
      var keep := (p: Product) => PassesMin(p, bound);
      SelectIsSubsequence(ps, keep);
      Select(ps, keep)
  }

  /** `max_price`: final price at most the bound. */
  function FilterMaxPrice(ps: seq<Product>, bound: Option<real>): (r: seq<Product>)
    ensures IsSubsequence(r, ps)
    ensures bound.Some? ==> forall p :: p in r <==> p in ps && FinalPrice(p) <= bound.value
    ensures bound.None? ==> r == ps
  {
    if bound.None? then SubsequenceOfItself(ps); ps
    else
      var keep := (p: Product) => PassesMax(p, bound);
      SelectIsSubsequence(ps, keep);
      Select(ps, keep)
  }

  /** `category`: products of the given category. */
  function FilterCategory(ps: seq<Product>, category: Option<nat>): (r: seq<Product>)
    ensures IsSubsequence(r, ps)
    ensures category.Some? ==> forall p :: p in r <==> p in ps && p.category == category.value
    ensures category.None? ==> r == ps
  {
    if category.None? then SubsequenceOfItself(ps); ps
    else
      var keep := (p: Product) => PassesCategory(p, category);
      SelectIsSubsequence(ps, keep);
      Select(ps, keep)
  }

  /** Whether one product passes every given parameter. */
  predicate Matches(p: Product, params: FilterParams) {
    PassesCategory(p, params.category) && PassesMin(p, params.minPrice) &&
    PassesMax(p, params.maxPrice) && PassesStock(p, params.inStock)
  }

  /** The filter set: a category the default manager does not find is rejected (None);
      otherwise the filters apply one after another. */
  function ApplyFilters(ps: seq<Product>, params: FilterParams, liveCategories: set<nat>): Option<seq<Product>> {
    if params.category.Some? && params.category.value !in liveCategories then None
    else
      Some(FilterInStock(FilterMaxPrice(FilterMinPrice(FilterCategory(ps, params.category),
                                                       params.minPrice), params.maxPrice),
                         params.inStock))
  }

  /** Applied together, the filters keep exactly the products that pass all of them,
      in their original order. */
  lemma FiltersIntersect(ps: seq<Product>, params: FilterParams, liveCategories: set<nat>)
    requires params.category.None? || params.category.value in liveCategories
    ensures ApplyFilters(ps, params, liveCategories) == Some(Select(ps, p => Matches(p, params)))
  {
    var c, lo, hi, st := params.category, params.minPrice, params.maxPrice, params.inStock;
    var f1 := (p: Product) => PassesCategory(p, c);
    var f2 := (p: Product) => f1(p) && PassesMin(p, lo);
    var f3 := (p: Product) => f2(p) && PassesMax(p, hi);
    var f4 := (p: Product) => f3(p) && PassesStock(p, st);
    var s1 := Select(ps, f1);
    var s2 := Select(ps, f2);
    var s3 := Select(ps, f3);
    CategoryStep(ps, c);
    MinStep(ps, f1, lo);
    MaxStep(ps, f2, hi);
    StockStep(ps, f3, st);
    SelectSameTest(ps, f4, p => Matches(p, params));
  }

  lemma CategoryStep(ps: seq<Product>, c: Option<nat>)
    ensures FilterCategory(ps, c) == Select(ps, (p: Product) => PassesCategory(p, c))
  {
    KeepAll(ps, (p: Product) => PassesCategory(p, c), c.None?);
  }

  lemma MinStep(ps: seq<Product>, f: Product -> bool, bound: Option<real>)
    ensures FilterMinPrice(Select(ps, f), bound) == Select(ps, (p: Product) => f(p) && PassesMin(p, bound))
  {
    var g := (p: Product) => PassesMin(p, bound);
    KeepAll(Select(ps, f), g, bound.None?);
    SelectTwice(ps, f, g);
    SelectSameTest(ps, x => f(x) && g(x), (p: Product) => f(p) && PassesMin(p, bound));
  }

  lemma MaxStep(ps: seq<Product>, f: Product -> bool, bound: Option<real>)
    ensures FilterMaxPrice(Select(ps, f), bound) == Select(ps, (p: Product) => f(p) && PassesMax(p, bound))
  {
    var g := (p: Product) => PassesMax(p, bound);
    KeepAll(Select(ps, f), g, bound.None?);
    SelectTwice(ps, f, g);
    SelectSameTest(ps, x => f(x) && g(x), (p: Product) => f(p) && PassesMax(p, bound));
  }

  lemma StockStep(ps: seq<Product>, f: Product -> bool, value: Option<bool>)
    ensures FilterInStock(Select(ps, f), value) == Select(ps, (p: Product) => f(p) && PassesStock(p, value))
  {
    var g := (p: Product) => PassesStock(p, value);
    KeepAll(Select(ps, f), g, value.None?);
    SelectTwice(ps, f, g);
    SelectSameTest(ps, x => f(x) && g(x), (p: Product) => f(p) && PassesStock(p, value));
  }

  /** A test every element passes keeps the sequence as it is. */
  lemma {:induction false} KeepAll(s: seq<Product>, keep: Product -> bool, always: bool)
    requires always ==> forall p :: keep(p)
    ensures always ==> Select(s, keep) == s
  {
    if always && s != [] {
      KeepAll(s[..|s| - 1], keep, always);
      assert s == s[..|s| - 1] + [s[|s| - 1]];
    }
  }

  /** Two tests that agree everywhere select the same elements. */
  lemma {:induction false} SelectSameTest(s: seq<Product>, f: Product -> bool, g: Product -> bool)
    requires forall p :: f(p) == g(p)
    ensures Select(s, f) == Select(s, g)
  {
    if s != [] {
      SelectSameTest(s[..|s| - 1], f, g);
    }
  }

  lemma InStockExample(a: Product, b: Product)
    requires a.stockQuantity == 5 && b.stockQuantity == 0
    ensures FilterInStock([a, b], Some(true)) == [a]
    ensures FilterInStock([a, b], Some(false)) == [b]
  {
    assert [a, b][..1] == [a];
    assert [a][..0] == [];
    assert Select([a], (p: Product) => PassesStock(p, Some(false))) == [];
  }
}
