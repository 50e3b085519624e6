/** The catalog page's query, filterProducts: the products of the active category, narrowed by
    the trimmed search text over name, description, category and code, sorted by name, by
    category or not at all, after which only the complete products are rendered. */
module Query {
  import opened Seqs
  import opened Strings
  import opened Sorting
  import opened Catalog

  /** `product => product.category === selectedCategory`. */
  function InCategory(selected: string): Product -> bool {
    (p: Product) => p.category == selected
  }

  /** The category step: `'all'` keeps every product. */
  function ByCategory(products: seq<Product>, selected: string): seq<Product> {
    if selected == "all" then products else Filter(products, InCategory(selected))
  }

  /** `x && x.toLowerCase().includes(term.toLowerCase())` for a string field. */
  predicate FieldHit(x: string, term: string, lower: string -> string) {
    x != "" && Contains(lower(x), lower(term))
  }

  /** The search test of one product. The four tests are tried in order and the first hit ends
      the test; a truthy description that is not a string has no toLowerCase, so reaching it throws. */
  function SearchHit(term: string, lower: string -> string): Product -> Result<bool> {
    (p: Product) =>
      if FieldHit(p.name, term, lower) then Ok(true)
      else if Truthy(p.description) && !p.description.Str? then
        Err("TypeError: product.description.toLowerCase is not a function")
      else if p.description.Str? && FieldHit(p.description.s, term, lower) then Ok(true)
      else Ok(FieldHit(p.category, term, lower) || FieldHit(p.code, term, lower))
  }

  /** `f` accepts `x` without throwing. */
  function Accepts<T>(f: T -> Result<bool>): T -> bool {
    x => f(x) == Ok(true)
  }

  /** Array.prototype.filter with a predicate that may throw: the first throw ends the filter. */
  function FilterOrThrow<T(!new)>(s: seq<T>, f: T -> Result<bool>): (r: Result<seq<T>>)
    ensures r.Ok? <==> forall i :: 0 <= i < |s| ==> f(s[i]).Ok?
    ensures r.Ok? ==> r.value == Filter(s, Accepts(f))
    ensures r.Err? ==> exists i :: 0 <= i < |s| && f(s[i]) == Err(r.message) && forall j :: 0 <= j < i ==> f(s[j]).Ok?
  {
    if s == [] then Ok([])
    else match f(s[0])
      case Err(e) => Err(e)
      case Ok(keep) =>
        var rest := FilterOrThrow(s[1..], f);
        assert forall i :: 1 <= i < |s| ==> s[i] == s[1..][i - 1];
        match rest
        case Err(e) =>
          assert exists i :: 1 <= i < |s| && f(s[i]) == Err(e) && forall j :: 0 <= j < i ==> f(s[j]).Ok? by {
            var i :| 0 <= i < |s[1..]| && f(s[1..][i]) == Err(e) && forall j :: 0 <= j < i ==> f(s[1..][j]).Ok?;
            assert forall j :: 1 <= j < i + 1 ==> f(s[j]) == f(s[1..][j - 1]);
          }
          Err(e)
        case Ok(kept) => Ok((if keep then [s[0]] else []) + kept)
  }

  /** The category and search steps. */
  function Candidates(products: seq<Product>, selected: string, term: string, lower: string -> string): (r: Result<seq<Product>>)
    ensures term == "" ==> r.Ok?
    ensures r.Ok? ==> forall p :: p in r.value ==> p in products
  {
    var byCategory := ByCategory(products, selected);
    if term == "" then Ok(byCategory) else FilterOrThrow(byCategory, SearchHit(term, lower))
  }

  function NameOf(p: Product): string { p.name }

  function CategoryOf(p: Product): string { p.category }

  /** The sort step: `'name'` and `'category'` sort stably with the comparison; any other value,
      `'newest'` among them, keeps the order. */
  function ApplySort(s: seq<Product>, sortBy: string, leq: (string, string) -> bool): (r: seq<Product>)
    ensures multiset(r) == multiset(s)
    ensures sortBy != "name" && sortBy != "category" ==> r == s
  {
    if sortBy == "name" then SortBy(s, NameOf, leq)
    else if sortBy == "category" then SortBy(s, CategoryOf, leq)
    else s
  }

  /** What a call leaves on the page. Skipped: the function returned before filtering. Threw:
      the search raised an error and nothing was rendered. Rendered: the filtered, sorted list and
      the cards renderProducts shows for it (none means the "no products" message). */
  datatype QueryOutcome = Skipped | Threw(error: string) | Rendered(filtered: seq<Product>, shown: seq<Product>)

  /** The whole query as one value. */
  function CatalogQuery(products: seq<Product>, selected: string, searchText: string, sortBy: string,
                        lower: string -> string, leq: (string, string) -> bool): (r: QueryOutcome)
    ensures r.Skipped? <==> |products| == 0
    ensures r.Threw? ==> JsTrim(searchText) != ""
    ensures r.Rendered? ==> r.shown == Filter(r.filtered, IsProductComplete)
  {
    if |products| == 0 then Skipped
    else match Candidates(products, selected, JsTrim(searchText), lower)
      case Err(e) => Threw(e)
      case Ok(c) =>
        var sorted := ApplySort(c, sortBy, leq);
        Rendered(sorted, Filter(sorted, IsProductComplete))
  }

  /** filterProducts, step by step as the script reassigns its working list. The DOM's active
      category button, sort selector and search box are passed in as their values. */
  method FilterProducts(products: seq<Product>, selectedCategory: string, searchText: string, sortBy: string,
                        lower: string -> string, leq: (string, string) -> bool) returns (outcome: QueryOutcome)
    ensures outcome == CatalogQuery(products, selectedCategory, searchText, sortBy, lower, leq)
    ensures outcome.Skipped? <==> |products| == 0
    ensures outcome.Rendered? ==> outcome.shown == Filter(outcome.filtered, IsProductComplete)
  {
    if |products| == 0 {
      return Skipped;
    }
    var filteredProducts := products;
    if selectedCategory != "all" {
      filteredProducts := Filter(filteredProducts, InCategory(selectedCategory));
    }
    var searchTerm := JsTrim(searchText);
    if searchTerm != "" {
      var hits := FilterOrThrow(filteredProducts, SearchHit(searchTerm, lower));
      if hits.Err? {
        return Threw(hits.message);
      }
      filteredProducts := hits.value;
    }
    if sortBy == "name" {
      filteredProducts := SortBy(filteredProducts, NameOf, leq);
    } else if sortBy == "category" {
      filteredProducts := SortBy(filteredProducts, CategoryOf, leq);
    }
    outcome := Rendered(filteredProducts, Filter(filteredProducts, IsProductComplete));
  }

  /** A product the query keeps: in the selected category (or any for `'all'`) and, for a
      non-empty term, accepted by the search test. */
  function QueryHit(selected: string, term: string, lower: string -> string): Product -> bool {
    (p: Product) => (selected == "all" || p.category == selected) && (term == "" || SearchHit(term, lower)(p) == Ok(true))
  }

  /** Without a throw, the candidates are exactly the products the query keeps, in catalog order. */
  lemma CandidatesAreHits(products: seq<Product>, selected: string, term: string, lower: string -> string)
    requires Candidates(products, selected, term, lower).Ok?
    ensures Candidates(products, selected, term, lower).value == Filter(products, QueryHit(selected, term, lower))
  {
    var hit := QueryHit(selected, term, lower);
    var accept := Accepts(SearchHit(term, lower));
    if selected == "all" {
      if term == "" {
        FilterAll(products, hit);
      } else {
        FilterFilter(products, (p: Product) => true, accept, hit);
        FilterAll(products, (p: Product) => true);
      }
    } else {
      if term == "" {
        FilterFilter(products, InCategory(selected), (p: Product) => true, hit);
        FilterAll(Filter(products, InCategory(selected)), (p: Product) => true);
      } else {
        FilterFilter(products, InCategory(selected), accept, hit);
      }
    }
  }

  /** The search throws exactly when the term is not empty and a product of the category has a
      truthy non-string description and is reached before any field matches. */
  lemma ThrowsExactly(products: seq<Product>, selected: string, searchText: string, sortBy: string,
                      lower: string -> string, leq: (string, string) -> bool)
    ensures CatalogQuery(products, selected, searchText, sortBy, lower, leq).Threw? <==>
      && |products| > 0 && JsTrim(searchText) != ""
      && exists p :: p in ByCategory(products, selected) && Throws(p, JsTrim(searchText), lower)
  {
    var term := JsTrim(searchText);
    if |products| > 0 && term != "" {
      SearchThrows(ByCategory(products, selected), term, lower);
    }
  }

  /** A product on which the search test throws. */
  predicate Throws(p: Product, term: string, lower: string -> string) {
    !FieldHit(p.name, term, lower) && Truthy(p.description) && !p.description.Str?
  }

  /** The search step throws exactly when one of its products makes the test throw. */
  lemma SearchThrows(c: seq<Product>, term: string, lower: string -> string)
    ensures FilterOrThrow(c, SearchHit(term, lower)).Err? <==> exists p :: p in c && Throws(p, term, lower)
  {
    var f := SearchHit(term, lower);
    forall p ensures f(p).Err? <==> Throws(p, term, lower) {
    }
    if exists p :: p in c && Throws(p, term, lower) {
      var p :| p in c && Throws(p, term, lower);
      var i :| 0 <= i < |c| && c[i] == p;
      assert f(c[i]).Err?;
    }
  }

  /** With a category selected, every listed product is one of the catalog's products of that category. */
  lemma QueryKeepsCategory(products: seq<Product>, selected: string, searchText: string, sortBy: string,
                           lower: string -> string, leq: (string, string) -> bool)
    requires selected != "all"
    ensures var r := CatalogQuery(products, selected, searchText, sortBy, lower, leq);
      r.Rendered? ==> forall p :: p in r.filtered ==> p in products && p.category == selected
  {
    var term := JsTrim(searchText);
    var cand := Candidates(products, selected, term, lower);
    if |products| > 0 && cand.Ok? {
      CandidatesAreHits(products, selected, term, lower);
      var sorted := ApplySort(cand.value, sortBy, leq);
      assert multiset(sorted) == multiset(cand.value);
      forall p | p in sorted ensures p in products && p.category == selected {
        assert p in multiset(sorted);
        assert p in cand.value;
      }
    }
  }

  /** `'all'`, an empty or blank search and `'newest'` list the whole catalog as it is. */
  lemma QueryAllListsCatalog(products: seq<Product>, searchText: string, lower: string -> string,
                             leq: (string, string) -> bool)
    requires |products| > 0 && JsTrim(searchText) == ""
    ensures CatalogQuery(products, "all", searchText, "newest", lower, leq) ==
      Rendered(products, Filter(products, IsProductComplete))
  {
  }

  /** Without a sort key the list keeps catalog order: it is the catalog filtered by the query. */
  lemma QueryNewestKeepsOrder(products: seq<Product>, selected: string, searchText: string, sortBy: string,
                              lower: string -> string, leq: (string, string) -> bool)
    requires sortBy != "name" && sortBy != "category"
    ensures var r := CatalogQuery(products, selected, searchText, sortBy, lower, leq);
      r.Rendered? ==> r.filtered == Filter(products, QueryHit(selected, JsTrim(searchText), lower))
  {
    if |products| > 0 && Candidates(products, selected, JsTrim(searchText), lower).Ok? {
      CandidatesAreHits(products, selected, JsTrim(searchText), lower);
    }
  }

  /** Sorting by name orders the hits by name, holds each hit once, and keeps products with equal
      names in catalog order. */
  lemma QueryByNameSorted(products: seq<Product>, selected: string, searchText: string,
                          lower: string -> string, leq: (string, string) -> bool, k: string)
    requires TotalPreorder(leq)
    ensures var r := CatalogQuery(products, selected, searchText, "name", lower, leq);
      var hits := Filter(products, QueryHit(selected, JsTrim(searchText), lower));
      r.Rendered? ==>
        && SortedBy(r.filtered, NameOf, leq)
        && multiset(r.filtered) == multiset(hits)
        && Tied(r.filtered, NameOf, leq, k) == Tied(hits, NameOf, leq, k)
  {
    var term := JsTrim(searchText);
    if |products| > 0 && Candidates(products, selected, term, lower).Ok? {
      CandidatesAreHits(products, selected, term, lower);
      var hits := Filter(products, QueryHit(selected, term, lower));
      SortBySorted(hits, NameOf, leq);
      SortByStable(hits, NameOf, leq, k);
    }
  }

  /** Sorting by category orders the hits by category, holds each hit once, and keeps products of
      one category in catalog order. */
  lemma QueryByCategorySorted(products: seq<Product>, selected: string, searchText: string,
                              lower: string -> string, leq: (string, string) -> bool, k: string)
    requires TotalPreorder(leq)
    ensures var r := CatalogQuery(products, selected, searchText, "category", lower, leq);
      var hits := Filter(products, QueryHit(selected, JsTrim(searchText), lower));
      r.Rendered? ==>
        && SortedBy(r.filtered, CategoryOf, leq)
        && multiset(r.filtered) == multiset(hits)
        && Tied(r.filtered, CategoryOf, leq, k) == Tied(hits, CategoryOf, leq, k)
  {
    var term := JsTrim(searchText);
    if |products| > 0 && Candidates(products, selected, term, lower).Ok? {
      CandidatesAreHits(products, selected, term, lower);
      var hits := Filter(products, QueryHit(selected, term, lower));
      SortBySorted(hits, CategoryOf, leq);
      SortByStable(hits, CategoryOf, leq, k);
    }
  }

  /** A list whose every product the query keeps passes the category and search steps whole. */
  lemma CandidatesOfHits(s: seq<Product>, selected: string, term: string, lower: string -> string)
    requires forall p :: p in s ==> QueryHit(selected, term, lower)(p)
    ensures Candidates(s, selected, term, lower) == Ok(s)
  {
    if selected != "all" {
      FilterAll(s, InCategory(selected));
    }
    if term != "" {
      assert forall i :: 0 <= i < |s| ==> SearchHit(term, lower)(s[i]) == Ok(true) by {
        forall i | 0 <= i < |s| ensures SearchHit(term, lower)(s[i]) == Ok(true) {
          assert s[i] in s;
        }
      }
      FilterOrThrowAll(s, SearchHit(term, lower));
    }
  }

  /** A filter that accepts every element neither throws nor drops anything. */
  lemma FilterOrThrowAll<T(!new)>(s: seq<T>, f: T -> Result<bool>)
    requires forall i :: 0 <= i < |s| ==> f(s[i]) == Ok(true)
    ensures FilterOrThrow(s, f) == Ok(s)
  {
    forall x | x in s ensures Accepts(f)(x) {
      var i :| 0 <= i < |s| && s[i] == x;
    }
    FilterAll(s, Accepts(f));
  }

  /** Sorting an already sorted list again keeps it as it is. */
  lemma ApplySortTwice(s: seq<Product>, sortBy: string, leq: (string, string) -> bool)
    requires TotalPreorder(leq)
    ensures ApplySort(ApplySort(s, sortBy, leq), sortBy, leq) == ApplySort(s, sortBy, leq)
  {
    if sortBy == "name" {
      SortBySorted(s, NameOf, leq);
      SortBySortedIsIdentity(SortBy(s, NameOf, leq), NameOf, leq);
    } else if sortBy == "category" {
      SortBySorted(s, CategoryOf, leq);
      SortBySortedIsIdentity(SortBy(s, CategoryOf, leq), CategoryOf, leq);
    }
  }

  /** Running the same query on its own list changes nothing. */
  lemma QueryIdempotent(products: seq<Product>, selected: string, searchText: string, sortBy: string,
                        lower: string -> string, leq: (string, string) -> bool)
    requires TotalPreorder(leq)
    requires CatalogQuery(products, selected, searchText, sortBy, lower, leq).Rendered?
    ensures var r := CatalogQuery(products, selected, searchText, sortBy, lower, leq);
      r.filtered != [] ==> CatalogQuery(r.filtered, selected, searchText, sortBy, lower, leq) == r
  {
    var term := JsTrim(searchText);
    CandidatesAreHits(products, selected, term, lower);
    var c := Candidates(products, selected, term, lower).value;
    var sorted := ApplySort(c, sortBy, leq);
    SortedAreHits(products, c, sortBy, QueryHit(selected, term, lower), leq);
    CandidatesOfHits(sorted, selected, term, lower);
    ApplySortTwice(c, sortBy, leq);
    assert CatalogQuery(products, selected, searchText, sortBy, lower, leq) == Rendered(sorted, Filter(sorted, IsProductComplete));
  }

  /** Sorting keeps the products a filter kept. */
  lemma SortedAreHits(products: seq<Product>, c: seq<Product>, sortBy: string, hit: Product -> bool,
                      leq: (string, string) -> bool)
    requires c == Filter(products, hit)
    ensures forall p :: p in ApplySort(c, sortBy, leq) ==> hit(p)
  {
    var sorted := ApplySort(c, sortBy, leq);
    assert multiset(sorted) == multiset(c);
    forall p | p in sorted ensures hit(p) {
      assert p in multiset(sorted);
      assert p in c;
    }
  }
}
