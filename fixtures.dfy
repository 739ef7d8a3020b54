/** The catalogue literal the list component picks from
    (src/components/ProductList.tsx, `availableProducts`) and concrete
    scenarios over it. */
module Fixtures {
  import opened Collections
  import opened Products
  import opened ProductList

  const V1: Variant := Variant(1, 77, "XS / Silver", "49", 0, PercentOff)
  const V2: Variant := Variant(2, 77, "S / Silver", "49", 0, PercentOff)
  const V3: Variant := Variant(3, 77, "M / Silver", "49", 0, PercentOff)
  const V64: Variant := Variant(64, 80, "Default Title", "109", 0, PercentOff)

  const Towel: Product := Product(
    77, "Fog Linen Chambray Towel - Beige Stripe", 0, PercentOff, [V1, V2, V3],
    Image(266, 77, "https://cdn11.bigcommerce.com/s-p1xcugzp89/products/77/images/266/foglinenbeigestripetowel1b.1647248662.386.513.jpg?c=1"))

  const Terrarium: Product := Product(
    80, "Orbit Terrarium - Large", 0, PercentOff, [V64],
    Image(272, 80, "https://cdn11.bigcommerce.com/s-p1xcugzp89/products/80/images/272/roundterrariumlarge.1647248662.386.513.jpg?c=1"))

  const Catalogue: seq<Product> := [Towel, Terrarium]

  /** The literal has distinct ids and well-formed products. */
  lemma CatalogueValid()
    ensures ValidList(Catalogue)
  {
  }

  lemma SortedSingle(k: int)
    ensures SortedKeys({k}) == [k]
  {
    assert Min({k}) == k;
    assert {k} - {k} == {};
  }

  lemma SortedPair(a: int, b: int)
    requires a < b
    ensures SortedKeys({a, b}) == [a, b]
  {
    assert Min({a, b}) == a;
    assert {a, b} - {a} == {b};
    SortedSingle(b);
  }

  /** One step of the filter over a literal list. */
  lemma FilterIdsCons(v: Variant, vs: seq<Variant>, keep: set<int>)
    ensures FilterIds([v] + vs, keep) == if v.id in keep then [v] + FilterIds(vs, keep) else FilterIds(vs, keep)
  {
    assert ([v] + vs)[1..] == vs;
  }

  lemma KeepCons(v: Variant, vs: seq<Variant>, keep: set<int>)
    requires v.id in keep
    ensures FilterIds([v] + vs, keep) == [v] + FilterIds(vs, keep)
  {
    assert ([v] + vs)[1..] == vs;
  }

  lemma DropCons(v: Variant, vs: seq<Variant>, keep: set<int>)
    requires v.id !in keep
    ensures FilterIds([v] + vs, keep) == FilterIds(vs, keep)
  {
    assert ([v] + vs)[1..] == vs;
  }

  /** Filtering three variants keeps the ones whose ids are in `keep`. */
  lemma FilterFirstTwo(a: Variant, b: Variant, c: Variant, keep: set<int>)
    requires a.id in keep && b.id in keep && c.id !in keep
    ensures FilterIds([a, b, c], keep) == [a, b]
  {
    FilterIdsNone([c], keep);
    KeepCons(b, [c], keep);
    assert [b] + [c] == [b, c];
    KeepCons(a, [b, c], keep);
    assert [a] + [b, c] == [a, b, c];
    assert [a] + ([b] + []) == [a, b];
  }

  lemma FilterFirst(a: Variant, b: Variant, c: Variant, keep: set<int>)
    requires a.id in keep && b.id !in keep && c.id !in keep
    ensures FilterIds([a, b, c], keep) == [a]
  {
    FilterIdsNone([b, c], keep);
    KeepCons(a, [b, c], keep);
    assert [a] + [b, c] == [a, b, c];
    assert [a] + [] == [a];
  }

  lemma FilterSecond(a: Variant, b: Variant, c: Variant, keep: set<int>)
    requires a.id !in keep && b.id in keep && c.id !in keep
    ensures FilterIds([a, b, c], keep) == [b]
  {
    FilterIdsNone([c], keep);
    KeepCons(b, [c], keep);
    assert [b] + [c] == [b, c];
    DropCons(a, [b, c], keep);
    assert [a] + [b, c] == [a, b, c];
    assert [b] + [] == [b];
  }

  /** The towel's variants filtered by the id sets the scenarios use. */
  lemma TowelFilters()
    ensures FilterIds([V1, V2, V3], {1, 2}) == [V1, V2]
    ensures FilterIds([V1, V2, V3], {1}) == [V1]
    ensures FilterIds([V1, V2, V3], {2}) == [V2]
    ensures FilterIds([V1, V2, V3], {}) == []
  {
    FilterFirstTwo(V1, V2, V3, {1, 2});
    FilterFirst(V1, V2, V3, {1});
    FilterSecond(V1, V2, V3, {2});
    FilterIdsNone([V1, V2, V3], {});
  }

  lemma MergeSingleKey(ps: seq<Product>, k: int, vids: seq<int>)
    ensures AddSelected(ps, Catalogue, map[k := vids]) == MergeEntry(ps, Catalogue, k, vids)
  {
    var sel := map[k := vids];
    assert sel.Keys == {k};
    SortedSingle(k);
    assert AddSelected(ps, Catalogue, sel) == MergeKeys(ps, Catalogue, sel, [k]);
    assert [k][..0] == [];
    assert MergeKeys(ps, Catalogue, sel, [k]) == MergeEntry(MergeKeys(ps, Catalogue, sel, []), Catalogue, k, sel[k]);
  }

  lemma MergeNewUnfold(ps: seq<Product>, catalogue: seq<Product>, pid: int, vids: seq<int>, cp: Product)
    requires FindById(catalogue, pid) == Some(cp) && IndexOfId(ps, pid) == -1
    ensures MergeEntry(ps, catalogue, pid, vids) == ps + [cp.(variants := FilterIds(cp.variants, IdSet(vids)))]
  {
  }

  lemma MergeExistingUnfold(ps: seq<Product>, catalogue: seq<Product>, pid: int, vids: seq<int>, cp: Product, i: nat)
    requires FindById(catalogue, pid) == Some(cp) && IndexOfId(ps, pid) == i
    ensures i < |ps|
    ensures MergeEntry(ps, catalogue, pid, vids)
            == ps[i := ps[i].(variants := ps[i].variants + FilterIds(cp.variants, IdSet(vids) - VariantIds(ps[i].variants)))]
  {
  }

  lemma FindTowel()
    ensures FindById(Catalogue, 77) == Some(Towel)
    ensures FindById(Catalogue, 80) == Some(Terrarium)
    ensures FindById(Catalogue, 999) == None
  {
    assert ProductIds(Catalogue) == {77, 80};
  }

  /** Merging a towel entry into an empty list. */
  lemma NewTowelEntry(vids: seq<int>)
    ensures MergeEntry([], Catalogue, 77, vids) == [Towel.(variants := FilterIds([V1, V2, V3], IdSet(vids)))]
  {
    FindTowel();
    MergeNewUnfold([], Catalogue, 77, vids, Towel);
  }

  /** Merging a towel entry into a list holding the towel with variant 1. */
  lemma ExistingTowelEntry(vids: seq<int>)
    ensures MergeEntry([Towel.(variants := [V1])], Catalogue, 77, vids)
            == [Towel.(variants := [V1] + FilterIds([V1, V2, V3], IdSet(vids) - {1}))]
  {
    var ps := [Towel.(variants := [V1])];
    FindTowel();
    assert IndexOfId(ps, 77) == 0;
    assert VariantIds([V1]) == {1};
    MergeExistingUnfold(ps, Catalogue, 77, vids, Towel, 0);
  }

  /** Ticking variants 1 and 2 of product 77 on an empty list adds product
      77 carrying exactly those two variants. */
  lemma AddTwoVariantsToEmptyList()
    ensures AddSelected([], Catalogue, map[77 := [1, 2]]) == [Towel.(variants := [V1, V2])]
  {
    MergeSingleKey([], 77, [1, 2]);
    NewTowelEntry([1, 2]);
    assert IdSet([1, 2]) == {1, 2};
    TowelFilters();
  }

  /** With product 77 already added with variant 1, confirming variant 2
      appends it after variant 1 and keeps the product's own fields. */
  lemma MergeSecondVariant()
    ensures AddSelected([Towel.(variants := [V1])], Catalogue, map[77 := [2]])
            == [Towel.(variants := [V1, V2])]
  {
    MergeSingleKey([Towel.(variants := [V1])], 77, [2]);
    ExistingTowelEntry([2]);
    assert IdSet([2]) - {1} == {2};
    TowelFilters();
    assert [V1] + [V2] == [V1, V2];
  }

  /** Re-confirming a variant that is already added changes nothing. */
  lemma ReselectAddedVariant()
    ensures AddSelected([Towel.(variants := [V1])], Catalogue, map[77 := [1]])
            == [Towel.(variants := [V1])]
  {
    MergeSingleKey([Towel.(variants := [V1])], 77, [1]);
    ExistingTowelEntry([1]);
    assert IdSet([1]) - {1} == {};
    TowelFilters();
    assert [V1] + [] == [V1];
  }

  lemma NewTerrariumAfterTowel()
    ensures MergeEntry([Towel.(variants := [V1])], Catalogue, 80, [64])
            == [Towel.(variants := [V1]), Terrarium]
  {
    var mid := [Towel.(variants := [V1])];
    FindTowel();
    assert IndexOfId(mid, 80) == -1;
    MergeNewUnfold(mid, Catalogue, 80, [64], Terrarium);
    assert IdSet([64]) == {64};
    FilterIdsCons(V64, [], {64});
    assert [V64] == [V64] + [];
  }

  /** Products ticked in the order 80 then 77 are appended in ascending id
      order, 77 first. */
  lemma AscendingIdOrder()
    ensures AddSelected([], Catalogue, map[80 := [64], 77 := [1]])
            == [Towel.(variants := [V1]), Terrarium]
  {
    var sel := map[80 := [64], 77 := [1]];
    assert sel.Keys == {77, 80};
    SortedPair(77, 80);
    assert [77, 80][..1] == [77];
    assert [77][..0] == [];
    NewTowelEntry([1]);
    assert IdSet([1]) == {1};
    TowelFilters();
    assert MergeKeys([], Catalogue, sel, [77]) == [Towel.(variants := [V1])];
    NewTerrariumAfterTowel();
  }

  /** A selection key with no catalogue product is skipped. */
  lemma UnknownKeySkipped()
    ensures AddSelected([Terrarium], Catalogue, map[999 := [5]]) == [Terrarium]
  {
    MergeSingleKey([Terrarium], 999, [5]);
    FindTowel();
  }

  /** Removing the terrarium's only variant keeps the terrarium, now
      without variants. */
  lemma RemoveOnlyVariant()
    ensures RemoveVariant([Terrarium], 80, 64) == [Terrarium.(variants := [])]
  {
    RemoveVariantSpec([Terrarium], 80, 64);
    assert VariantIds([V64]) == {64};
  }

  /** Dragging the first product onto the second place swaps the two. */
  lemma SwapTwoProducts()
    ensures DragOutcome(Catalogue, DragResult(ProductDrag, 0, "products", Some(1))) == [Terrarium, Towel]
  {
    assert Catalogue[..0] + Catalogue[1..] == [Terrarium];
  }

  lemma MoveFirstToLast()
    ensures Move([V1, V2, V3], 0, 2) == [V2, V3, V1]
  {
    assert [V1, V2, V3][..0] + [V1, V2, V3][1..] == [V2, V3];
  }

  /** Replacing the variants of the first of two products. */
  lemma ReplaceFirstOfTwo(p: Product, q: Product, vs: seq<Variant>)
    requires p.id != q.id
    ensures ReplaceVariants([p, q], p.id, vs) == [p.(variants := vs), q]
  {
    var out := ReplaceVariants([p, q], p.id, vs);
    assert out[0] == p.(variants := vs);
    assert out[1] == q;
  }

  /** Dragging the towel's first variant to the last place in its own drop
      area reorders only that product's variants. */
  lemma ReorderTowelVariants(area: string)
    requires area == VariantsDroppableId(77)
    ensures DragOutcome(Catalogue, DragResult(VariantDrag, 0, area, Some(2)))
            == [Towel.(variants := [V2, V3, V1]), Terrarium]
  {
    var pid: nat := 77;
    DroppableIdRoundTrip(pid);
    FindTowel();
    MoveFirstToLast();
    VariantDragMoves(Catalogue, DragResult(VariantDrag, 0, area, Some(2)), 77, Towel);
    ReplaceFirstOfTwo(Towel, Terrarium, [V2, V3, V1]);
  }
}
