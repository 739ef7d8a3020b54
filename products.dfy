/** The widget's data model (the `Variant` and `Product` records of
    src/components/ProductList.tsx) and the array queries the components
    run over product lists: `find` and `findIndex` by id, `filter` of
    variants by id, and the case-insensitive title search. */
module Products {
  import opened Collections
  import opened Text

  /** `'Flat' | '% Off'`. */
  datatype DiscountType = Flat | PercentOff

  datatype Variant = Variant(
    id: int,
    productId: int,
    title: string,
    price: string,
    discount: int,
    discountType: DiscountType)

  datatype Image = Image(id: int, productId: int, src: string)

  datatype Product = Product(
    id: int,
    title: string,
    discount: int,
    discountType: DiscountType,
    variants: seq<Variant>,
    image: Image)

  function ProductIds(ps: seq<Product>): set<int>
  {
    set p | p in ps :: p.id
  }

  function VariantIds(vs: seq<Variant>): set<int>
  {
    set v | v in vs :: v.id
  }

  predicate UniqueProductIds(ps: seq<Product>)
  {
    forall i, j :: 0 <= i < j < |ps| ==> ps[i].id != ps[j].id
  }

  predicate UniqueVariantIds(vs: seq<Variant>)
  {
    forall i, j :: 0 <= i < j < |vs| ==> vs[i].id != vs[j].id
  }

  /** A product's own invariants: its variants have distinct ids and all
      belong to it. */
  predicate WellFormed(p: Product)
  {
    && UniqueVariantIds(p.variants)
    && forall v :: v in p.variants ==> v.productId == p.id
  }

  /** The invariants of a product list (the added list or a catalogue):
      distinct product ids and well-formed products. */
  predicate ValidList(ps: seq<Product>)
  {
    && UniqueProductIds(ps)
    && forall i :: 0 <= i < |ps| ==> WellFormed(ps[i])
  }

  /** `ps.find(p => p.id === id)`: the first product with that id. */
  function FindById(ps: seq<Product>, id: int): (r: Option<Product>)
    ensures r.None? <==> id !in ProductIds(ps)
    ensures r.Some? ==> r.value.id == id
    ensures r.Some? ==> exists i :: (0 <= i < |ps| && ps[i] == r.value
                                     && forall j :: 0 <= j < i ==> ps[j].id != id)
  {
    if ps == [] then None
    else if ps[0].id == id then Some(ps[0])
    else
      var r := FindById(ps[1..], id);
      assert ProductIds(ps) == {ps[0].id} + ProductIds(ps[1..]) by {
        assert ps == [ps[0]] + ps[1..];
      }
      if r.Some? then
        var i :| 0 <= i < |ps[1..]| && ps[1..][i] == r.value
               && forall j :: 0 <= j < i ==> ps[1..][j].id != id;
        assert ps[i + 1] == r.value;
        r
      else r
  }

  /** `ps.findIndex(p => p.id === id)`: the first index holding that id, or -1. */
  function IndexOfId(ps: seq<Product>, id: int): (i: int)
    ensures -1 <= i < |ps|
    ensures i == -1 <==> id !in ProductIds(ps)
    ensures i >= 0 ==> ps[i].id == id && forall j :: 0 <= j < i ==> ps[j].id != id
  {
    if ps == [] then -1
    else if ps[0].id == id then 0
    else
      var k := IndexOfId(ps[1..], id);
      assert ProductIds(ps) == {ps[0].id} + ProductIds(ps[1..]) by {
        assert ps == [ps[0]] + ps[1..];
      }
      if k == -1 then -1 else k + 1
  }

  /** `find` and `findIndex` look at the same entry. */
  lemma FindAtIndex(ps: seq<Product>, id: int)
    ensures FindById(ps, id) == (var i := IndexOfId(ps, id); if i == -1 then None else Some(ps[i]))
  {
    var i := IndexOfId(ps, id);
    if i >= 0 {
      var r := FindById(ps, id);
      var k :| 0 <= k < |ps| && ps[k] == r.value && forall j :: 0 <= j < k ==> ps[j].id != id;
      assert k == i;
    }
  }

  /** `findIndex` returns an index holding the id with no earlier match. */
  lemma IndexOfIdAt(ps: seq<Product>, id: int, i: int)
    requires 0 <= i < |ps| && ps[i].id == id
    requires forall j :: 0 <= j < i ==> ps[j].id != id
    ensures IndexOfId(ps, id) == i
  {
    assert ps[i] in ps;
  }

  /** With distinct ids, the entry with a given id is the one at the given index. */
  lemma IndexOfUnique(ps: seq<Product>, i: int)
    requires UniqueProductIds(ps) && 0 <= i < |ps|
    ensures IndexOfId(ps, ps[i].id) == i
  {
  }

  /** The variants of `vs` whose id is in `keep`, in their original order
      and each as often as `vs` holds it. */
  function FilterIds(vs: seq<Variant>, keep: set<int>): (r: seq<Variant>)
    ensures forall v :: v in r <==> v in vs && v.id in keep
    ensures IsSubseq(r, vs)
    ensures UniqueVariantIds(vs) ==> UniqueVariantIds(r)
  {
    if vs == [] then []
    else
      var rest := FilterIds(vs[1..], keep);
      assert vs == [vs[0]] + vs[1..];
      if vs[0].id in keep then
        var r := [vs[0]] + rest;
        assert r[1..] == rest;
        assert UniqueVariantIds(vs) ==> UniqueVariantIds(r) by {
          if UniqueVariantIds(vs) {
            ConsKeepsUniqueIds(vs[0], vs[1..], rest);
          }
        }
        r
      else
        rest
  }

  /** The id filter keeps each variant whose id is kept as often as `vs`
      holds it, and no copy of any other. */
  lemma {:induction false} FilterIdsCount(vs: seq<Variant>, keep: set<int>)
    ensures forall v :: multiset(FilterIds(vs, keep))[v] == if v.id in keep then multiset(vs)[v] else 0
  {
    if vs != [] {
      assert vs == [vs[0]] + vs[1..];
      FilterIdsCount(vs[1..], keep);
      var rest := FilterIds(vs[1..], keep);
      if vs[0].id in keep {
        assert FilterIds(vs, keep) == [vs[0]] + rest;
      }
    }
  }

  /** Putting `x` in front of a duplicate-free selection `rest` from `tail`
      stays duplicate-free when `x` could stand in front of `tail`. */
  lemma ConsKeepsUniqueIds(x: Variant, tail: seq<Variant>, rest: seq<Variant>)
    requires UniqueVariantIds([x] + tail) && UniqueVariantIds(rest)
    requires forall w :: w in rest ==> w in tail
    ensures UniqueVariantIds([x] + rest)
  {
    var r := [x] + rest;
    forall j | 0 < j < |r| ensures r[0].id != r[j].id {
      assert r[j] == rest[j - 1];
      assert rest[j - 1] in rest;
      var k :| 0 <= k < |tail| && tail[k] == r[j];
      assert ([x] + tail)[0] == x && ([x] + tail)[k + 1] == tail[k];
    }
    forall i, j | 0 < i < j < |r| ensures r[i].id != r[j].id {
      assert r[i] == rest[i - 1] && r[j] == rest[j - 1];
    }
  }

  /** Filtering by ids none of the variants carry yields nothing. */
  lemma {:induction false} FilterIdsNone(vs: seq<Variant>, keep: set<int>)
    requires forall v :: v in vs ==> v.id !in keep
    ensures FilterIds(vs, keep) == []
  {
    if vs != [] {
      assert vs == [vs[0]] + vs[1..];
      FilterIdsNone(vs[1..], keep);
    }
  }

  /** `product.title.toLowerCase().includes(term.toLowerCase())`. */
  predicate TitleMatches(p: Product, term: string)
    ensures TitleMatches(p, term) ==> |term| <= |p.title|
    ensures term == "" ==> TitleMatches(p, term)
  {
    IncludesEmpty(ToLower(p.title));
    assert Includes(ToLower(p.title), ToLower(term)) ==> |ToLower(term)| <= |ToLower(p.title)| by {
      if Includes(ToLower(p.title), ToLower(term)) {
        var i :| OccursAt(ToLower(p.title), ToLower(term), i);
      }
    }
    Includes(ToLower(p.title), ToLower(term))
  }

  /** `products.filter(p => TitleMatches(p, term))`: an order-preserving
      subsequence holding exactly the matching products, each as often as
      the input holds it. */
  function FilterByTitle(ps: seq<Product>, term: string): (r: seq<Product>)
    ensures forall p :: p in r <==> p in ps && TitleMatches(p, term)
    ensures forall p :: multiset(r)[p] == if TitleMatches(p, term) then multiset(ps)[p] else 0
    ensures IsSubseq(r, ps)
  {
    if ps == [] then []
    else
      var rest := FilterByTitle(ps[1..], term);
      assert ps == [ps[0]] + ps[1..];
      if TitleMatches(ps[0], term) then
        var r := [ps[0]] + rest;
        assert r[1..] == rest;
        r
      else rest
  }

  /** An empty search term keeps every product. */
  lemma {:induction false} EmptySearchKeepsAll(ps: seq<Product>)
    ensures FilterByTitle(ps, "") == ps
  {
    if ps != [] {
      IncludesEmpty(ToLower(ps[0].title));
      assert ToLower("") == "";
      EmptySearchKeepsAll(ps[1..]);
    }
  }

  /** Searching is insensitive to the case of the search term. */
  lemma {:induction false} SearchIgnoresTermCase(ps: seq<Product>, term: string)
    ensures FilterByTitle(ps, ToLower(term)) == FilterByTitle(ps, term)
  {
    ToLowerIdempotent(term);
    if ps != [] {
      SearchIgnoresTermCase(ps[1..], term);
    }
  }

  /** `ps.some(p => p.id === id)`: the `isProductAdded` query, which holds
      exactly when `findIndex` finds the id. */
  predicate IsProductAdded(ps: seq<Product>, id: int)
    ensures IsProductAdded(ps, id) <==> IndexOfId(ps, id) != -1
  {
    exists p :: p in ps && p.id == id
  }

  /** `ps.find(p => p.id === pid)?.variants.some(v => v.id === vid) || false`:
      the `isVariantAdded` query. */
  predicate IsVariantAdded(ps: seq<Product>, pid: int, vid: int)
    ensures IsVariantAdded(ps, pid, vid) <==>
              var i := IndexOfId(ps, pid);
              i != -1 && vid in VariantIds(ps[i].variants)
  {
    FindAtIndex(ps, pid);
    match FindById(ps, pid)
    case None => false
    case Some(p) => exists v :: v in p.variants && v.id == vid
  }

  /** A variant counts as added only if its product does, and when product
      ids are distinct it is added exactly when the product with that id
      lists it. */
  lemma VariantAddedMeans(ps: seq<Product>, pid: int, vid: int)
    ensures IsVariantAdded(ps, pid, vid) ==> IsProductAdded(ps, pid)
    ensures UniqueProductIds(ps) ==>
      (IsVariantAdded(ps, pid, vid) <==>
        exists i :: 0 <= i < |ps| && ps[i].id == pid && vid in VariantIds(ps[i].variants))
  {
    FindAtIndex(ps, pid);
    var k := IndexOfId(ps, pid);
    if IsVariantAdded(ps, pid, vid) {
      assert ps[k] in ps;
    }
    if UniqueProductIds(ps) {
      if i :| 0 <= i < |ps| && ps[i].id == pid && vid in VariantIds(ps[i].variants) {
        IndexOfUnique(ps, i);
        var v :| v in ps[i].variants && v.id == vid;
      }
    }
  }
}
