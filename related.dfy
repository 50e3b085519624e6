/** The related-products strip of the product page: up to four complete products other than
    the one shown, same category first, then other categories. */
module Related {
  import opened Seqs
  import opened Catalog

  /** `p => p.id == currentProductId`. */
  function MatchesId(id: string): Product -> bool {
    (p: Product) => LooseEquals(p.id, id)
  }

  /** `p => p.id != currentProductId`. */
  function NotCurrent(id: string): Product -> bool {
    (p: Product) => !LooseEquals(p.id, id)
  }

  /** The first tier's filter: same category, not the current product. */
  function SameCategory(category: string, id: string): Product -> bool {
    (p: Product) => p.category == category && !LooseEquals(p.id, id)
  }

  /** The second tier's filter: another category, not the current product. */
  function OtherCategory(category: string, id: string): Product -> bool {
    (p: Product) => p.category != category && !LooseEquals(p.id, id)
  }

  /** `related.some(rp => rp.id === p.id)`. */
  predicate IdChosen(related: seq<Product>, p: Product) {
    Any(related, (rp: Product) => rp.id == p.id)
  }

  /** The third tier's filter: not the current product and no id already chosen. */
  function NotChosen(id: string, related: seq<Product>): Product -> bool {
    (p: Product) => !LooseEquals(p.id, id) && !IdChosen(related, p)
  }

  /** Every product of `category` comes before every product of another category. */
  ghost predicate CategoryFirst(s: seq<Product>, category: string) {
    forall i, j :: 0 <= i < j < |s| && s[j].category == category ==> s[i].category == category
  }

  ghost predicate UniqueIds(s: seq<Product>) {
    forall i, j :: 0 <= i < j < |s| ==> s[i].id != s[j].id
  }

  /** The third tier: candidates whose id is not chosen yet, as many as there is room for. */
  function RemainingTier(complete: seq<Product>, id: string, related: seq<Product>): (r: seq<Product>)
    ensures |r| <= if |related| < 4 then 4 - |related| else 0
    ensures forall p :: p in r ==> p in complete && !LooseEquals(p.id, id) && !IdChosen(related, p)
  {
    Take(Filter(complete, NotChosen(id, related)), 4 - |related|)
  }

  /** The first two tiers: up to four same-category candidates, then other-category candidates
      up to four in all. */
  function Tiers(complete: seq<Product>, category: string, id: string): (r: seq<Product>)
    ensures |r| <= 4
  {
    var tier1 := Take(Filter(complete, SameCategory(category, id)), 4);
    tier1 + Take(Filter(complete, OtherCategory(category, id)), 4 - |tier1|)
  }

  /** The current product, as `productsData.find(p => p.id == currentProductId)` picks it. */
  function CurrentProduct(products: seq<Product>, id: string): (r: Option<Product>)
    ensures r.Some? ==> r.value in products && LooseEquals(r.value.id, id)
  {
    match FindIndex(products, MatchesId(id))
    case Some(i) => Some(products[i])
    case None => None
  }

  /** loadRelatedProducts. Nothing is rendered (None) without products, without an `id`
      parameter, or when no product has that id; otherwise the list of related cards, which may
      be empty. */
  method LoadRelatedProducts(products: seq<Product>, currentProductId: string) returns (related: Option<seq<Product>>)
    ensures related.None? <==>
      |products| == 0 || currentProductId == "" ||
      forall i :: 0 <= i < |products| ==> !LooseEquals(products[i].id, currentProductId)
    ensures related.Some? ==>
      && CurrentProduct(products, currentProductId).Some?
      && related.value == Tiers(Filter(products, IsProductComplete),
                                CurrentProduct(products, currentProductId).value.category, currentProductId)
    ensures related.Some? ==>
      forall p :: p in related.value ==> p in products && IsProductComplete(p) && !LooseEquals(p.id, currentProductId)
    ensures related.Some? ==>
      |related.value| == Min(4, |Filter(Filter(products, IsProductComplete), NotCurrent(currentProductId))|)
    ensures related.Some? ==>
      CategoryFirst(related.value, CurrentProduct(products, currentProductId).value.category)
    ensures related.Some? && UniqueIds(products) ==> UniqueIds(related.value)
  {
    CurrentProductFound(products, currentProductId);
    if |products| == 0 || currentProductId == "" {
      return None;
    }
    var found := FindIndex(products, MatchesId(currentProductId));
    if found.None? {
      return None;
    }
    var currentProduct := products[found.value];
    var completeProducts := Filter(products, IsProductComplete);
    var relatedProducts := PickRelated(completeProducts, currentProduct.category, currentProductId);
    TiersProperties(products, currentProduct.category, currentProductId);
    related := Some(relatedProducts);
  }

  /** The three tiers of loadRelatedProducts over the complete products: same category, other
      categories, then any product whose id is not chosen yet, four in all at most. */
  method PickRelated(completeProducts: seq<Product>, category: string, currentProductId: string)
    returns (relatedProducts: seq<Product>)
    ensures relatedProducts == Tiers(completeProducts, category, currentProductId)
  {
    var same := Filter(completeProducts, SameCategory(category, currentProductId));
    var other := Filter(completeProducts, OtherCategory(category, currentProductId));
    relatedProducts := Take(same, 4);
    if |relatedProducts| < 4 {
      var otherProducts := Take(other, 4 - |relatedProducts|);
      relatedProducts := relatedProducts + otherProducts;
    } else {
      assert relatedProducts + Take(other, 4 - |relatedProducts|) == relatedProducts;
    }
    if |relatedProducts| < 4 {
      var remainingProducts := RemainingTier(completeProducts, currentProductId, relatedProducts);
      ThirdTierEmpty(completeProducts, category, currentProductId);
      assert relatedProducts + remainingProducts == relatedProducts;
      relatedProducts := relatedProducts + remainingProducts;
    }
  }

  /** `find` reports no product exactly when no id matches, and otherwise the first match. */
  lemma CurrentProductFound(products: seq<Product>, id: string)
    ensures CurrentProduct(products, id).None? <==>
      forall i :: 0 <= i < |products| ==> !LooseEquals(products[i].id, id)
    ensures FindIndex(products, MatchesId(id)).Some? ==>
      CurrentProduct(products, id) == Some(products[FindIndex(products, MatchesId(id)).value])
  {
    var found := FindIndex(products, MatchesId(id));
    if found.Some? {
      assert MatchesId(id)(products[found.value]);
    } else {
      forall i | 0 <= i < |products| ensures !LooseEquals(products[i].id, id) {
        assert !MatchesId(id)(products[i]);
      }
    }
  }

  /** What the two tiers guarantee: only complete products other than the current one, taken
      from the catalog; min(4, number of candidates) of them; same category first; no id twice
      when the catalog has none twice. */
  lemma TiersProperties(products: seq<Product>, category: string, id: string)
    ensures var r := Tiers(Filter(products, IsProductComplete), category, id);
      && (forall p :: p in r ==> p in products && IsProductComplete(p) && !LooseEquals(p.id, id))
      && |r| == Min(4, |Filter(Filter(products, IsProductComplete), NotCurrent(id))|)
      && CategoryFirst(r, category)
      && (UniqueIds(products) ==> UniqueIds(r))
  {
    var complete := Filter(products, IsProductComplete);
    TiersMembers(complete, category, id);
    TiersCount(complete, category, id);
    TiersOrdered(complete, category, id);
    if UniqueIds(products) {
      FilterUniqueIds(products, IsProductComplete);
      TiersUnique(complete, category, id);
    }
  }

  lemma TiersMembers(complete: seq<Product>, category: string, id: string)
    ensures forall p :: p in Tiers(complete, category, id) ==> p in complete && !LooseEquals(p.id, id)
  {
    var same := Filter(complete, SameCategory(category, id));
    var other := Filter(complete, OtherCategory(category, id));
    var t1 := Take(same, 4);
    var t2 := Take(other, 4 - |t1|);
    TakeMembers(same, 4);
    TakeMembers(other, 4 - |t1|);
    assert Tiers(complete, category, id) == t1 + t2;
    forall p | p in t1 + t2 ensures p in complete && !LooseEquals(p.id, id) {
      if p in t1 {
        assert p in same;
      } else {
        assert p in other;
      }
    }
  }

  lemma TakeMembers<T>(s: seq<T>, n: int)
    ensures forall x :: x in Take(s, n) ==> x in s
  {
    if 0 < n < |s| {
      forall x | x in s[..n] ensures x in s {
        var i :| 0 <= i < n && s[..n][i] == x;
        assert s[i] == x;
      }
    }
  }

  /** When the first two tiers leave room, they already hold every candidate, so the third tier
      finds nothing to add: its filter excludes every id already chosen. */
  lemma ThirdTierEmpty(complete: seq<Product>, category: string, id: string)
    requires |Tiers(complete, category, id)| < 4
    ensures RemainingTier(complete, id, Tiers(complete, category, id)) == []
  {
    var related := Tiers(complete, category, id);
    var same := Filter(complete, SameCategory(category, id));
    var other := Filter(complete, OtherCategory(category, id));
    assert Take(same, 4) == same;
    assert Take(other, 4 - |same|) == other;
    forall p | p in complete ensures !NotChosen(id, related)(p) {
      if !LooseEquals(p.id, id) {
        assert p in same || p in other;
        assert p in related;
        var k :| 0 <= k < |related| && related[k] == p;
        assert IdChosen(related, p);
      }
    }
    FilterNone(complete, NotChosen(id, related));
  }

  /** The two tiers together hold min(4, number of candidates) products. */
  lemma TiersCount(complete: seq<Product>, category: string, id: string)
    ensures |Tiers(complete, category, id)| == Min(4, |Filter(complete, NotCurrent(id))|)
  {
    FilterSplitCount(complete, NotCurrent(id), SameCategory(category, id), OtherCategory(category, id));
  }

  /** Same-category products come before products of other categories. */
  lemma TiersOrdered(complete: seq<Product>, category: string, id: string)
    ensures CategoryFirst(Tiers(complete, category, id), category)
  {
    var same := Filter(complete, SameCategory(category, id));
    var other := Filter(complete, OtherCategory(category, id));
    var t1 := Take(same, 4);
    var t2 := Take(other, 4 - |t1|);
    var r := t1 + t2;
    assert r == Tiers(complete, category, id);
    forall k | 0 <= k < |r| ensures (k < |t1| <==> r[k].category == category) {
      if k < |t1| {
        assert r[k] == t1[k] && t1[k] in same;
      } else {
        assert r[k] == t2[k - |t1|] && t2[k - |t1|] in other;
      }
    }
  }

  lemma DistinctMembersDistinctIds(s: seq<Product>, x: Product, y: Product)
    requires UniqueIds(s) && x in s && y in s && x != y
    ensures x.id != y.id
  {
    var i :| 0 <= i < |s| && s[i] == x;
    var j :| 0 <= j < |s| && s[j] == y;
  }

  lemma {:induction false} FilterUniqueIds(s: seq<Product>, f: Product -> bool)
    requires UniqueIds(s)
    ensures UniqueIds(Filter(s, f))
  {
    if s != [] {
      assert UniqueIds(s[1..]) by {
        forall i, j | 0 <= i < j < |s[1..]| ensures s[1..][i].id != s[1..][j].id {
          assert s[1..][i] == s[i + 1] && s[1..][j] == s[j + 1];
        }
      }
      FilterUniqueIds(s[1..], f);
      var rest := Filter(s[1..], f);
      if f(s[0]) {
        var r := Filter(s, f);
        assert r == [s[0]] + rest;
        forall j | 0 < j < |r| ensures r[0].id != r[j].id {
          assert r[j] in s[1..];
          var k :| 0 <= k < |s[1..]| && s[1..][k] == r[j];
          assert s[k + 1] == r[j];
        }
      }
    }
  }

  lemma PrefixUniqueIds(s: seq<Product>, n: int)
    requires UniqueIds(s)
    ensures UniqueIds(Take(s, n))
  {
  }

  /** The two tiers never repeat an id when the complete products do not. */
  lemma TiersUnique(complete: seq<Product>, category: string, id: string)
    requires UniqueIds(complete)
    ensures UniqueIds(Tiers(complete, category, id))
  {
    var same := Filter(complete, SameCategory(category, id));
    var other := Filter(complete, OtherCategory(category, id));
    FilterUniqueIds(complete, SameCategory(category, id));
    FilterUniqueIds(complete, OtherCategory(category, id));
    var t1 := Take(same, 4);
    var t2 := Take(other, 4 - |t1|);
    PrefixUniqueIds(same, 4);
    PrefixUniqueIds(other, 4 - |t1|);
    TakeMembers(same, 4);
    TakeMembers(other, 4 - |t1|);
    forall x, y | x in t1 && y in t2 ensures x.id != y.id {
      assert x in same && y in other;
      DistinctMembersDistinctIds(complete, x, y);
    }
    AppendUniqueIds(t1, t2);
    assert Tiers(complete, category, id) == t1 + t2;
  }

  lemma AppendUniqueIds(a: seq<Product>, b: seq<Product>)
    requires UniqueIds(a) && UniqueIds(b)
    requires forall x, y :: x in a && y in b ==> x.id != y.id
    ensures UniqueIds(a + b)
  {
    var r := a + b;
    forall i, j | 0 <= i < j < |r| ensures r[i].id != r[j].id {
      if j < |a| {
        assert r[i] == a[i] && r[j] == a[j];
      } else if i >= |a| {
        assert r[i] == b[i - |a|] && r[j] == b[j - |a|];
      } else {
        assert r[i] == a[i] && r[j] == b[j - |a|];
      }
    }
  }
}
