/** The observation logic of src/components/ProductPicker.tsx: the guard
    that asks for the next page, the title filter, the checkbox rules, what
    the list area shows and the footer. The component has no state of its
    own; `inView` and the debounced search term are inputs. */
module ProductPicker {
  import opened Collections
  import opened Products
  import opened ProductQuery
  import PL = ProductList

  /** The effect that calls `fetchNextPage`: the sentinel is in view, a
      next page exists, and neither the first load nor a next-page fetch is
      in flight. */
  function ShouldFetchNextPage(inView: bool, hasNextPage: bool, isLoading: bool, isFetchingNextPage: bool): (fetch: bool)
    ensures fetch ==> inView && hasNextPage
    ensures fetch ==> !isLoading && !isFetchingNextPage
    ensures inView && hasNextPage && !isLoading && !isFetchingNextPage ==> fetch
  {
    inView && hasNextPage && !isLoading && !isFetchingNextPage
  }

  /** Wired to the paging rule, no page is ever requested after an empty
      page, however the sentinel and the loading flags stand; and with the
      sentinel in view and nothing in flight, the next page is requested
      exactly when the last page was not empty. */
  lemma NoFetchAfterEmptyPage(pages: seq<Page>, inView: bool, isLoading: bool, isFetchingNextPage: bool)
    requires |pages| > 0
    ensures pages[|pages| - 1] == [] ==>
              !ShouldFetchNextPage(inView, HasNextPage(pages), isLoading, isFetchingNextPage)
    ensures ShouldFetchNextPage(true, HasNextPage(pages), false, false) <==> pages[|pages| - 1] != []
  {
  }

  /** The product checkbox: an added product is ticked and disabled with no
      change handler; any other is ticked exactly when it is a key of the
      selection, and can be toggled. */
  function PickerProductCheckbox(products: seq<Product>, sel: PL.Selection, pid: int): (c: PL.Checkbox)
    ensures IsProductAdded(products, pid) ==> c.checked && c.disabled && !c.toggles
    ensures !IsProductAdded(products, pid) ==> (c.checked <==> pid in sel) && !c.disabled && c.toggles
  {
    if IsProductAdded(products, pid) then PL.Checkbox(true, true, false)
    else PL.Checkbox(pid in sel, false, true)
  }

  /** The variant checkbox: an added variant is ticked and disabled with no
      change handler; any other is ticked exactly when it is pending for
      its product (`undefined?.includes` is falsy). */
  function PickerVariantCheckbox(products: seq<Product>, sel: PL.Selection, pid: int, vid: int): (c: PL.Checkbox)
    ensures IsVariantAdded(products, pid, vid) ==> c.checked && c.disabled && !c.toggles
    ensures !IsVariantAdded(products, pid, vid) ==>
              (c.checked <==> pid in sel && vid in sel[pid]) && !c.disabled && c.toggles
  {
    if IsVariantAdded(products, pid, vid) then PL.Checkbox(true, true, false)
    else PL.Checkbox(pid in sel && vid in sel[pid], false, true)
  }

  /** This picker and the list's own dialog show every checkbox the same way
      (ticked and greyed alike); they differ only in that this one detaches
      the change handler of a disabled box. */
  lemma AgreesWithListDialog(products: seq<Product>, sel: PL.Selection, pid: int, vid: int)
    ensures var a := PickerProductCheckbox(products, sel, pid);
            var b := PL.ListProductCheckbox(products, sel, pid);
            a.checked == b.checked && a.disabled == b.disabled && (a.toggles <==> !b.disabled)
    ensures var a := PickerVariantCheckbox(products, sel, pid, vid);
            var b := PL.ListVariantCheckbox(products, sel, pid, vid);
            a.checked == b.checked && a.disabled == b.disabled && (a.toggles <==> !b.disabled)
  {
  }

  /** After confirming a selection, the picker reopens with every product
      and variant that was selected for a catalogue product shown ticked
      and locked. */
  lemma ConfirmedSelectionLocked(products: seq<Product>, catalogue: seq<Product>, sel: PL.Selection,
                                 pid: int, v: Variant)
    requires ValidList(products) && ValidList(catalogue)
    requires pid in sel && FindById(catalogue, pid).Some?
    requires v in FindById(catalogue, pid).value.variants && v.id in sel[pid]
    ensures var after := PL.AddSelected(products, catalogue, sel);
            && PickerProductCheckbox(after, map[], pid) == PL.Checkbox(true, true, false)
            && PickerVariantCheckbox(after, map[], pid, v.id) == PL.Checkbox(true, true, false)
  {
    PL.AddSelectedSpec(products, catalogue, sel);
    assert pid in ProductIds(catalogue);
  }

  /** What the scrollable list area shows. */
  datatype ListArea = Spinner | ErrorNotice | Rows(rows: seq<Product>)

  /** Loading takes precedence over an error, which takes precedence over
      the rows; the rows are the filtered products, in order. */
  function ShownListArea(isLoading: bool, hasError: bool, available: seq<Product>, debouncedTerm: string): (a: ListArea)
    ensures isLoading <==> a.Spinner?
    ensures a.ErrorNotice? <==> !isLoading && hasError
    ensures a.Rows? ==>
              (forall p :: p in a.rows <==> p in available && TitleMatches(p, debouncedTerm))
              && (forall p :: multiset(a.rows)[p] ==
                    if TitleMatches(p, debouncedTerm) then multiset(available)[p] else 0)
              && IsSubseq(a.rows, available)
  {
    if isLoading then Spinner
    else if hasError then ErrorNotice
    else Rows(FilterByTitle(available, debouncedTerm))
  }

  /** The footer parts that depend on state: the load-more sentinel, the
      small spinner inside it, and the selected-products count. */
  datatype Footer = Footer(sentinel: bool, spinner: bool, selectedCount: nat)

  function ShownFooter(hasNextPage: bool, isFetchingNextPage: bool, sel: PL.Selection): (f: Footer)
    ensures f.sentinel <==> hasNextPage
    ensures f.spinner <==> hasNextPage && isFetchingNextPage
    ensures f.selectedCount == |sel.Keys|
  {
    Footer(hasNextPage, hasNextPage && isFetchingNextPage, |sel.Keys|)
  }

  /** The count moves by one with every product toggle, and a variant
      toggle on a product that was not selected also selects the product. */
  lemma CountAfterToggles(sel: PL.Selection, pid: int, vid: int)
    ensures |PL.ToggleProduct(sel, pid).Keys| == if pid in sel then |sel.Keys| - 1 else |sel.Keys| + 1
    ensures |PL.ToggleVariant(sel, pid, vid).Keys| == if pid in sel then |sel.Keys| else |sel.Keys| + 1
  {
    var t := PL.ToggleProduct(sel, pid);
    if pid in sel {
      assert t.Keys == sel.Keys - {pid};
    } else {
      assert t.Keys == sel.Keys + {pid};
    }
    var u := PL.ToggleVariant(sel, pid, vid);
    assert u.Keys == sel.Keys + {pid};
  }
}
