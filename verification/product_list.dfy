/**
 * The product records of the dashboard and the pure list operations its
 * handlers apply to them: the search-and-category projection, the
 * replace-by-id patch of an update, the remove-by-id patch of a delete.
 * Each is a JavaScript `filter` or `map`; none of them loops.
 */
module ProductList {
  import opened JsText

  /**
   * A product as the server returns it. The `price` is kept as an opaque
   * text: the model never gives it a numeric meaning.
   */
  datatype Product = Product(id: int, title: string, price: string, category: string)

  /** `xs` is `ys` with some entries dropped and the others kept in order. */
  predicate IsSubsequence<T(==)>(xs: seq<T>, ys: seq<T>)
    decreases |ys|
  {
    if ys == [] then xs == []
    else (xs != [] && xs[0] == ys[0] && IsSubsequence(xs[1..], ys[1..])) || IsSubsequence(xs, ys[1..])
  }

  /** Everything in a subsequence is in the sequence it was taken from. */
  lemma {:induction false} SubsequenceMembers<T>(xs: seq<T>, ys: seq<T>)
    requires IsSubsequence(xs, ys)
    ensures forall x :: x in xs ==> x in ys
    decreases |ys|
  {
    if ys != [] {
      if xs != [] && xs[0] == ys[0] && IsSubsequence(xs[1..], ys[1..]) {
        SubsequenceMembers(xs[1..], ys[1..]);
        assert xs == [xs[0]] + xs[1..];
      } else {
        SubsequenceMembers(xs, ys[1..]);
      }
    }
  }

  // ---------------------------------------------------------------------
  // Search and category filter
  // ---------------------------------------------------------------------

  /** The lower-cased title contains the lower-cased search text. */
  predicate MatchesSearch(p: Product, search: string)
  {
    Contains(Lower(p.title), Lower(search))
  }

  /** An empty (falsy) selected category admits every product; otherwise the category must match exactly. */
  predicate MatchesCategory(p: Product, selectedCategory: string)
  {
    selectedCategory == "" || p.category == selectedCategory
  }

  /** The search ignores the case of the typed text: lower-casing it first changes nothing. */
  lemma SearchIgnoresQueryCase(p: Product, search: string)
    ensures MatchesSearch(p, search) <==> MatchesSearch(p, Lower(search))
  {
    assert Lower(Lower(search)) == Lower(search);
  }

  /** The test applied to each product by the visible-list projection. */
  predicate IsVisible(p: Product, search: string, selectedCategory: string)
  {
    MatchesSearch(p, search) && MatchesCategory(p, selectedCategory)
  }

  /**
   * The visible list: the products that pass `IsVisible`, in list order.
   * A product is in it exactly when it is in `products` and passes the test.
   */
  function Filtered(products: seq<Product>, search: string, selectedCategory: string): (r: seq<Product>)
    ensures IsSubsequence(r, products)
    ensures forall p :: p in r <==> p in products && IsVisible(p, search, selectedCategory)
    ensures |r| <= |products|
  {
    if products == [] then []
    else if IsVisible(products[0], search, selectedCategory) then
      [products[0]] + Filtered(products[1..], search, selectedCategory)
    else
      Filtered(products[1..], search, selectedCategory)
  }

  /**
   * The filter drops no copy of a visible product: each product occurs in the
   * visible list exactly as often as in the product list when it passes the
   * test, and not at all otherwise.
   */
  lemma {:induction false} FilteredCounts(products: seq<Product>, search: string, selectedCategory: string, p: Product)
    ensures multiset(Filtered(products, search, selectedCategory))[p]
         == if IsVisible(p, search, selectedCategory) then multiset(products)[p] else 0
    decreases |products|
  {
    if products != [] {
      FilteredCounts(products[1..], search, selectedCategory, p);
      assert products == [products[0]] + products[1..];
    }
  }

  /** Filtering a concatenation filters each part and keeps the parts in order. */
  lemma {:induction false} FilteredAppend(a: seq<Product>, b: seq<Product>, search: string, selectedCategory: string)
    ensures Filtered(a + b, search, selectedCategory)
         == Filtered(a, search, selectedCategory) + Filtered(b, search, selectedCategory)
    decreases |a|
  {
    if a != [] {
      assert (a + b)[1..] == a[1..] + b;
      FilteredAppend(a[1..], b, search, selectedCategory);
    } else {
      assert a + b == b;
    }
  }

  /** A single product survives the filter exactly when it passes the test. */
  lemma FilteredSingle(p: Product, search: string, selectedCategory: string)
    ensures Filtered([p], search, selectedCategory)
         == if IsVisible(p, search, selectedCategory) then [p] else []
  {
  }

  /** Empty search text and no selected category show every product, in the same order. */
  lemma {:induction false} FilteredShowsAllWhenUnfiltered(products: seq<Product>)
    ensures Filtered(products, "", "") == products
    decreases |products|
  {
    if products != [] {
      ContainsEmpty(Lower(products[0].title));
      assert Lower("") == "";
      FilteredShowsAllWhenUnfiltered(products[1..]);
      assert products == [products[0]] + products[1..];
    }
  }

  // ---------------------------------------------------------------------
  // Id bookkeeping
  // ---------------------------------------------------------------------

  /** How many entries carry id `id`. */
  function IdCount(products: seq<Product>, id: int): nat
    decreases |products|
  {
    if products == [] then 0
    else (if products[0].id == id then 1 else 0) + IdCount(products[1..], id)
  }

  /** No two entries carry the same id. The dashboard never enforces this. */
  ghost predicate UniqueIds(products: seq<Product>)
  {
    forall i, j :: 0 <= i < j < |products| ==> products[i].id != products[j].id
  }

  /** The id is carried by no entry exactly when its count is zero. */
  lemma {:induction false} IdCountZero(products: seq<Product>, id: int)
    ensures IdCount(products, id) == 0 <==> forall p :: p in products ==> p.id != id
    decreases |products|
  {
    if products != [] {
      IdCountZero(products[1..], id);
      assert products == [products[0]] + products[1..];
    }
  }

  // ---------------------------------------------------------------------
  // Delete patch: `products.filter((p) => p.id !== id)`
  // ---------------------------------------------------------------------

  /**
   * The list with every entry of id `id` removed. What is left is in the
   * original order, and exactly the `IdCount` entries of that id are gone.
   */
  function RemoveById(products: seq<Product>, id: int): (r: seq<Product>)
    ensures IsSubsequence(r, products)
    ensures forall p :: p in r <==> p in products && p.id != id
    ensures |r| == |products| - IdCount(products, id)
    decreases |products|
  {
    if products == [] then []
    else if products[0].id != id then [products[0]] + RemoveById(products[1..], id)
    else RemoveById(products[1..], id)
  }

  /** Deleting an id that no entry carries leaves the list as it was. */
  lemma {:induction false} RemoveAbsentIdIsIdentity(products: seq<Product>, id: int)
    requires forall p :: p in products ==> p.id != id
    ensures RemoveById(products, id) == products
    decreases |products|
  {
    if products != [] {
      assert products[0] in products;
      RemoveAbsentIdIsIdentity(products[1..], id);
      assert products == [products[0]] + products[1..];
    }
  }

  /** A subsequence of a list with distinct ids has distinct ids. */
  lemma {:induction false} SubsequenceKeepsUniqueIds(xs: seq<Product>, ys: seq<Product>)
    requires IsSubsequence(xs, ys) && UniqueIds(ys)
    ensures UniqueIds(xs)
    decreases |ys|
  {
    if ys != [] {
      assert UniqueIds(ys[1..]) by {
        forall i, j | 0 <= i < j < |ys| - 1 ensures ys[1..][i].id != ys[1..][j].id {
          assert ys[1..][i] == ys[i + 1] && ys[1..][j] == ys[j + 1];
        }
      }
      if xs != [] && xs[0] == ys[0] && IsSubsequence(xs[1..], ys[1..]) {
        SubsequenceKeepsUniqueIds(xs[1..], ys[1..]);
        SubsequenceMembers(xs[1..], ys[1..]);
        forall j | 0 < j < |xs| ensures xs[0].id != xs[j].id {
          assert xs[j] == xs[1..][j - 1];
          assert xs[j] in xs[1..];
          var k :| 0 <= k < |ys[1..]| && ys[1..][k] == xs[j];
          assert ys[k + 1] == xs[j];
        }
      } else {
        SubsequenceKeepsUniqueIds(xs, ys[1..]);
      }
    }
  }

  /** With distinct ids, deleting an id that is present shortens the list by exactly one. */
  lemma RemovePresentUniqueId(products: seq<Product>, id: int)
    requires UniqueIds(products)
    requires exists p :: p in products && p.id == id
    ensures |RemoveById(products, id)| == |products| - 1
    ensures UniqueIds(RemoveById(products, id))
  {
    SubsequenceKeepsUniqueIds(RemoveById(products, id), products);
    UniqueIdCountAtMostOne(products, id);
    IdCountZero(products, id);
  }

  /** In a list with distinct ids, each id is carried at most once. */
  lemma {:induction false} UniqueIdCountAtMostOne(products: seq<Product>, id: int)
    requires UniqueIds(products)
    ensures IdCount(products, id) <= 1
    decreases |products|
  {
    if products != [] {
      var tail := products[1..];
      assert UniqueIds(tail) by {
        forall i, j | 0 <= i < j < |tail| ensures tail[i].id != tail[j].id {
          assert tail[i] == products[i + 1] && tail[j] == products[j + 1];
        }
      }
      UniqueIdCountAtMostOne(tail, id);
      if products[0].id == id {
        IdCountZero(tail, id);
        forall p | p in tail ensures p.id != id {
          var k :| 0 <= k < |tail| && tail[k] == p;
          assert products[k + 1] == p;
        }
      }
    }
  }

  // ---------------------------------------------------------------------
  // Update patch: `products.map((p) => (p.id === editingId ? res.data : p))`
  // ---------------------------------------------------------------------

  /**
   * The list with every entry of id `id` replaced by `reply`: the length is
   * kept, each matching position holds `reply`, every other position is unchanged.
   */
  function ReplaceById(products: seq<Product>, id: int, reply: Product): (r: seq<Product>)
    ensures |r| == |products|
    ensures forall i :: 0 <= i < |products| ==> r[i] == if products[i].id == id then reply else products[i]
    decreases |products|
  {
    if products == [] then []
    else [if products[0].id == id then reply else products[0]] + ReplaceById(products[1..], id, reply)
  }

  /**
   * Updating an id that no entry carries (for instance one deleted while it
   * was being edited) leaves the list as it was: the server's reply is dropped.
   */
  lemma RemoveThenReplaceDropsReply(products: seq<Product>, id: int, reply: Product)
    ensures ReplaceById(RemoveById(products, id), id, reply) == RemoveById(products, id)
  {
  }

  /**
   * When the reply keeps the id it replaces, the update changes no id
   * count: with distinct ids there is still exactly one entry of that id,
   * and it is the reply.
   */
  lemma {:induction false} ReplaceKeepsIdCounts(products: seq<Product>, id: int, reply: Product, k: int)
    requires reply.id == id
    ensures IdCount(ReplaceById(products, id, reply), k) == IdCount(products, k)
    decreases |products|
  {
    if products != [] {
      ReplaceKeepsIdCounts(products[1..], id, reply, k);
      var r := ReplaceById(products, id, reply);
      assert r[1..] == ReplaceById(products[1..], id, reply);
    }
  }

  /**
   * An update of a present id whose reply keeps that id, on a list with
   * distinct ids, leaves exactly one entry of the id, and that entry is the reply.
   */
  lemma UpdatePresentUniqueId(products: seq<Product>, id: int, reply: Product)
    requires UniqueIds(products)
    requires exists p :: p in products && p.id == id
    requires reply.id == id
    ensures IdCount(ReplaceById(products, id, reply), id) == 1
    ensures reply in ReplaceById(products, id, reply)
  {
    var r := ReplaceById(products, id, reply);
    ReplaceKeepsIdCounts(products, id, reply, id);
    UniqueIdCountAtMostOne(products, id);
    IdCountZero(products, id);
    var k :| 0 <= k < |products| && products[k].id == id;
    assert r[k] == reply;
  }

  /**
   * The create prepends with no duplicate check: the result has distinct ids
   * exactly when the old list had them and none of its entries carries the reply's id.
   */
  lemma PrependUniqueIdsIff(products: seq<Product>, reply: Product)
    ensures UniqueIds([reply] + products)
        <==> UniqueIds(products) && forall p :: p in products ==> p.id != reply.id
  {
    var r := [reply] + products;
    if UniqueIds(r) {
      forall p | p in products ensures p.id != reply.id {
        var k :| 0 <= k < |products| && products[k] == p;
        assert r[0] == reply && r[k + 1] == p;
      }
      forall i, j | 0 <= i < j < |products| ensures products[i].id != products[j].id {
        assert r[i + 1] == products[i] && r[j + 1] == products[j];
      }
    }
    if UniqueIds(products) && forall p :: p in products ==> p.id != reply.id {
      forall i, j | 0 <= i < j < |r| ensures r[i].id != r[j].id {
        assert r[j] == products[j - 1];
        if i == 0 {
          assert r[j] in products;
        } else {
          assert r[i] == products[i - 1];
        }
      }
    }
  }

  /** Prepending a created product does no duplicate check: it can break distinct ids. */
  lemma PrependCanDuplicateIds()
    ensures exists products: seq<Product>, reply: Product ::
      UniqueIds(products) && !UniqueIds([reply] + products)
  {
    var p := Product(1, "Hat", "10", "clothing");
    assert UniqueIds([p]);
    assert ([p] + [p])[0].id == ([p] + [p])[1].id;
  }
}
