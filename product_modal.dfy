/** The list-based picker of src/components/ProductModal.tsx. Its selection
    is a list of whole products plus a map from product id to the variant
    ids ticked for it; confirming projects each selected product onto its
    ticked variants and hands the result to the parent. */
module ProductModal {
  import opened Collections
  import opened Products
  import PL = ProductList

  /** `selected.some(p => p.id === id)`: the product checkbox's state,
      which holds exactly when `findIndex` finds the id. */
  predicate IsSelected(selected: seq<Product>, id: int)
    ensures IsSelected(selected, id) <==> IndexOfId(selected, id) != -1
  {
    exists p :: p in selected && p.id == id
  }

  /** Removes the product by id if it is selected, otherwise appends it. */
  function ToggleSelectedProduct(selected: seq<Product>, product: Product): (r: seq<Product>)
    ensures IsSelected(r, product.id) <==> !IsSelected(selected, product.id)
    ensures forall id :: id != product.id ==> (IsSelected(r, id) <==> IsSelected(selected, id))
    ensures !IsSelected(selected, product.id) ==> r == selected + [product]
    ensures IsSelected(selected, product.id) ==> IsSubseq(r, selected)
  {
    if IsSelected(selected, product.id) then
      PL.RemoveProduct(selected, product.id)
    else
      var r := selected + [product];
      assert product in r;
      assert forall p :: p in r <==> p in selected || p == product;
      r
  }

  /** Toggling keeps the selected products' ids distinct, and toggling the
      same product twice restores the set of selected ids. */
  lemma ToggleSelectedProductSpec(selected: seq<Product>, product: Product)
    requires UniqueProductIds(selected)
    ensures UniqueProductIds(ToggleSelectedProduct(selected, product))
    ensures forall id :: IsSelected(ToggleSelectedProduct(ToggleSelectedProduct(selected, product), product), id)
                         <==> IsSelected(selected, id)
  {
    if IsSelected(selected, product.id) {
      PL.RemoveProductSpec(selected, product.id);
    } else {
      forall i | 0 <= i < |selected| ensures selected[i].id != product.id {
        assert selected[i] in selected;
      }
    }
  }

  /** `list.filter(id => id !== x)`: every occurrence of `x` removed. */
  function RemoveAll(list: seq<int>, x: int): (r: seq<int>)
    ensures forall y :: y in r <==> y in list && y != x
    ensures forall y :: multiset(r)[y] == if y == x then 0 else multiset(list)[y]
    ensures IsSubseq(r, list)
    ensures NoDup(list) ==> NoDup(r)
  {
    if list == [] then []
    else
      var rest := RemoveAll(list[1..], x);
      assert list == [list[0]] + list[1..];
      if list[0] != x then
        var r := [list[0]] + rest;
        assert r[1..] == rest;
        assert NoDup(list) ==> NoDup(r) by {
          if NoDup(list) {
            assert list[0] !in list[1..];
            forall a, b | 0 <= a < b < |r| ensures r[a] != r[b] {
              if a > 0 { assert r[a] == rest[a - 1] && r[b] == rest[b - 1]; }
              else { assert r[b] in rest; }
            }
          }
        }
        r
      else rest
  }

  type VariantSelection = map<int, seq<int>>

  /** Ticks or unticks a variant: the product's list (created empty when
      missing) loses every copy of the id when it holds it, otherwise gets
      it appended. */
  function ToggleSelectedVariant(sv: VariantSelection, pid: int, vid: int): (r: VariantSelection)
    ensures pid in r
    ensures forall k :: k != pid ==> (k in r <==> k in sv) && (k in r ==> r[k] == sv[k])
  {
    var list := if pid in sv then sv[pid] else [];
    sv[pid := if vid in list then RemoveAll(list, vid) else list + [vid]]
  }

  /** A variant toggle flips that one id's membership and keeps every other
      id; toggling twice restores membership. */
  lemma ToggleSelectedVariantSpec(sv: VariantSelection, pid: int, vid: int)
    ensures var before := if pid in sv then sv[pid] else [];
            var after := ToggleSelectedVariant(sv, pid, vid)[pid];
            && (forall x :: x in after <==> (x in before <==> x != vid))
            && (vid !in before ==> after == before + [vid])
            && (NoDup(before) ==> NoDup(after))
    ensures var before := if pid in sv then sv[pid] else [];
            var twice := ToggleSelectedVariant(ToggleSelectedVariant(sv, pid, vid), pid, vid)[pid];
            forall x :: x in twice <==> x in before
  {
    var before := if pid in sv then sv[pid] else [];
    var once := ToggleSelectedVariant(sv, pid, vid);
    if vid !in before {
      assert NoDup(before) ==> NoDup(before + [vid]);
    }
  }

  /** The variant ids ticked for a product (`selectedVariants[id]?.includes`). */
  function Ticked(sv: VariantSelection, pid: int): (t: set<int>)
    ensures forall vid :: vid in t <==> pid in sv && vid in sv[pid]
  {
    if pid in sv then PL.IdSet(sv[pid]) else {}
  }

  /** The confirmed output: one entry per selected product, in selection
      order, each carrying exactly its ticked variants in catalogue order
      and otherwise unchanged. */
  function Project(selected: seq<Product>, sv: VariantSelection): (r: seq<Product>)
    ensures |r| == |selected|
    ensures forall i :: 0 <= i < |selected| ==> r[i] == selected[i].(variants := r[i].variants)
    ensures forall i :: 0 <= i < |selected| ==>
              (forall v :: v in r[i].variants <==>
                 v in selected[i].variants && selected[i].id in sv && v.id in sv[selected[i].id])
              && IsSubseq(r[i].variants, selected[i].variants)
    ensures forall i :: 0 <= i < |selected| ==>
              forall v :: multiset(r[i].variants)[v] ==
                if selected[i].id in sv && v.id in sv[selected[i].id] then multiset(selected[i].variants)[v] else 0
  {
    var r := seq(|selected|, i requires 0 <= i < |selected| =>
      selected[i].(variants := FilterIds(selected[i].variants, Ticked(sv, selected[i].id))));
    assert forall i :: 0 <= i < |selected| ==>
             forall v :: multiset(r[i].variants)[v] ==
               if v.id in Ticked(sv, selected[i].id) then multiset(selected[i].variants)[v] else 0 by {
      forall i | 0 <= i < |selected| {
        FilterIdsCount(selected[i].variants, Ticked(sv, selected[i].id));
      }
    }
    r
  }

  /** The output lists exactly the selected products: variants ticked for
      a product that is not selected are dropped, and a selected product
      with nothing ticked comes out with no variants. */
  lemma ProjectSpec(selected: seq<Product>, sv: VariantSelection)
    ensures ProductIds(Project(selected, sv)) == ProductIds(selected)
    ensures forall pid :: pid in sv && !IsSelected(selected, pid) ==> pid !in ProductIds(Project(selected, sv))
    ensures forall i :: 0 <= i < |selected| && Ticked(sv, selected[i].id) == {} ==>
              Project(selected, sv)[i].variants == []
  {
    var r := Project(selected, sv);
    forall id ensures id in ProductIds(r) <==> id in ProductIds(selected) {
      if id in ProductIds(r) {
        var p :| p in r && p.id == id;
        var i :| 0 <= i < |r| && r[i] == p;
        assert selected[i] in selected;
      }
      if id in ProductIds(selected) {
        var p :| p in selected && p.id == id;
        var i :| 0 <= i < |selected| && selected[i] == p;
        assert r[i] in r;
      }
    }
    forall i | 0 <= i < |selected| && Ticked(sv, selected[i].id) == {}
      ensures r[i].variants == []
    {
      FilterIdsNone(selected[i].variants, Ticked(sv, selected[i].id));
    }
  }

  /** `availableProducts ? availableProducts.filter(...) : []`. */
  function ModalFilter(available: Option<seq<Product>>, term: string): (r: seq<Product>)
    ensures available.None? ==> r == []
    ensures available.Some? ==>
              (forall p :: p in r <==> p in available.value && TitleMatches(p, term))
              && (forall p :: multiset(r)[p] == if TitleMatches(p, term) then multiset(available.value)[p] else 0)
              && IsSubseq(r, available.value)
  {
    match available
    case None => []
    case Some(ps) => FilterByTitle(ps, term)
  }

  /** With distinct ids, the "N product(s) selected" count is the number of
      distinct products ticked. */
  lemma {:induction false} CountIsDistinctIds(selected: seq<Product>)
    requires UniqueProductIds(selected)
    ensures |ProductIds(selected)| == |selected|
  {
    if selected != [] {
      var rest := selected[1..];
      assert selected == [selected[0]] + rest;
      assert ProductIds(selected) == {selected[0].id} + ProductIds(rest);
      assert selected[0].id !in ProductIds(rest) by {
        forall p | p in rest ensures p.id != selected[0].id {
          var k :| 0 <= k < |rest| && rest[k] == p;
          assert selected[k + 1] == p;
        }
      }
      CountIsDistinctIds(rest);
    }
  }

  /** The parent callbacks invoked on confirm. */
  datatype Callback = AddProducts(products: seq<Product>) | Close

  class ModalState {
    var isOpen: bool
    var searchTerm: string
    var selectedProducts: seq<Product>
    var selectedVariants: VariantSelection

    ghost predicate Valid()
      reads this
    {
      UniqueProductIds(selectedProducts)
    }

    /** Mount: the reset effect runs once, so the selection starts empty. */
    constructor (isOpen: bool)
      ensures Valid()
      ensures this.isOpen == isOpen && searchTerm == ""
      ensures selectedProducts == [] && selectedVariants == map[]
    {
      this.isOpen := isOpen;
      searchTerm := "";
      selectedProducts := [];
      selectedVariants := map[];
    }

    /** A new `isOpen` from the parent; the effect keyed on it clears
        both halves of the selection whenever it changes. */
    method SetOpen(open: bool)
      requires Valid()
      modifies this
      ensures Valid()
      ensures isOpen == open && searchTerm == old(searchTerm)
      ensures open != old(isOpen) ==> selectedProducts == [] && selectedVariants == map[]
      ensures open == old(isOpen) ==>
                selectedProducts == old(selectedProducts) && selectedVariants == old(selectedVariants)
    {
      if open != isOpen {
        selectedProducts := [];
        selectedVariants := map[];
      }
      isOpen := open;
    }

    method ToggleProductSelection(product: Product)
      requires Valid()
      modifies this
      ensures Valid()
      ensures selectedProducts == ToggleSelectedProduct(old(selectedProducts), product)
      ensures selectedVariants == old(selectedVariants)
      ensures isOpen == old(isOpen) && searchTerm == old(searchTerm)
    {
      ToggleSelectedProductSpec(selectedProducts, product);
      selectedProducts := ToggleSelectedProduct(selectedProducts, product);
    }

    method ToggleVariantSelection(productId: int, variantId: int)
      requires Valid()
      modifies this
      ensures Valid()
      ensures selectedVariants == ToggleSelectedVariant(old(selectedVariants), productId, variantId)
      ensures selectedProducts == old(selectedProducts)
      ensures isOpen == old(isOpen) && searchTerm == old(searchTerm)
    {
      selectedVariants := ToggleSelectedVariant(selectedVariants, productId, variantId);
    }

    method SetSearchTerm(term: string)
      requires Valid()
      modifies this
      ensures Valid()
      ensures searchTerm == term
      ensures selectedProducts == old(selectedProducts) && selectedVariants == old(selectedVariants)
      ensures isOpen == old(isOpen)
    {
      searchTerm := term;
    }

    /** Confirm: the parent first receives the projected selection, then is
        asked to close (which, by changing `isOpen`, resets the selection). */
    method HandleAddProducts() returns (calls: seq<Callback>)
      ensures |calls| == 2 && calls[1] == Close && calls[0].AddProducts?
      ensures calls[0].products == Project(selectedProducts, selectedVariants)
    {
      var productsWithVariants := Project(selectedProducts, selectedVariants);
      calls := [AddProducts(productsWithVariants), Close];
    }

    /** "N product(s) selected". */
    function SelectedCount(): (n: nat)
      reads this
      ensures Valid() ==> n == |ProductIds(selectedProducts)|
    {
      assert Valid() ==> |ProductIds(selectedProducts)| == |selectedProducts| by {
        if Valid() { CountIsDistinctIds(selectedProducts); }
      }
      |selectedProducts|
    }
  }
}
