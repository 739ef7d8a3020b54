# Product selection and reconciliation widget, in Dafny

This project models the state logic of a React merchandising widget. Beneath the widget's JSX, a merchant keeps a list of "added" products, and each product has its own ordered list of variants. The merchant picks more products and variants from a catalogue in a picker dialog, then confirms the pick. Confirming merges the pending selection into the added list, with duplicate variants removed. The merchant also edits fields, removes products and variants, and reorders both by drag and drop.

The model proves what each of these operations does to the list and to the selection. It covers:
- which entries change and which stay put;
- where new entries go, and in what order;
- that product ids stay unique in the list;
- that variant ids stay unique within each product, and that every variant belongs to its product;
- that moving an item and then moving it back restores the list.

## Modules

- `Collections`: `Option`, order-preserving subsequences, duplicate-free sequences, and `SortedKeys`. `SortedKeys` is the ascending order in which `Object.entries` visits the keys of an object that are array indices, 0 to 2^32 - 2.
- `Text`: ASCII lower-casing, substring search (`includes`), decimal rendering of a natural number, a `parseInt` reading leading digits, and splitting at `-`.
- `Products`: the `Variant` and `Product` records and the well-formedness of a product list. Also `find`, `findIndex`, the id filter, the title search, `isProductAdded` and `isVariantAdded`.
- `ProductList` (`src/components/ProductList.tsx`):
  - the pending selection, a map from product id to variant ids, and its two toggles;
  - the confirm-time merge, with its properties;
  - field edits, removals, the splice move, and the outcome of a drag;
  - the checkbox rules of the list's own picker dialog;
  - a class `ProductListState` holding the component's state fields, with one method per handler.
- `ProductPicker` (`src/components/ProductPicker.tsx`): the next-page guard, the checkbox rules, what the list area shows, and the footer.
- `ProductModal` (`src/components/ProductModal.tsx`): the alternative list-based picker.
  - Pure functions: its product and variant toggles, the projection made on confirm, and the filter.
  - A class `ModalState` holding its state fields, including the reset that runs when `isOpen` changes.
- `ProductQuery` (`src/hooks/existing-product-list.ts`): the first page number, the next-page rule, and the request URL.
- `Fixtures`: the catalogue literal of `ProductList.tsx`, plus concrete scenarios over it.

## Checkbox locking

The product checkbox is disabled as soon as any entry with that id is in the list, even when some of its catalogue variants are not yet added (`isProductAdded`, ProductList.tsx:204-206 and 645; ProductPicker.tsx:91). `ProductList.ListProductCheckbox` and `ProductPicker.PickerProductCheckbox` model that rule.

## Model

| member | source | states |
|---|---|---|
| Collections.SortedKeys | src/components/ProductList.tsx:163 | The iteration order of `Object.entries` over array-index keys: exactly the selection's keys, strictly ascending, each once |
| Text.ToLower | src/components/ProductList.tsx:622-624 | Lower-casing keeps the length and maps every character to a non-upper-case one |
| Text.ToLowerIdempotent | src/components/ProductList.tsx:622-624 | Lower-casing twice is the same as once |
| Text.Includes | src/components/ProductList.tsx:624 | `includes` holds exactly when the term occurs at some position of the title |
| Text.IncludesEmpty | src/components/ProductPicker.tsx:76 | Every string includes the empty term |
| Text.NatToString | src/components/ProductList.tsx:443 | A product id is rendered as a non-empty string of decimal digits |
| Text.DigitsRoundTrip | src/components/ProductList.tsx:276 | Reading back the decimal digits of a number gives the number |
| Text.LeadingDigits | src/components/ProductList.tsx:276 | `parseInt` consumes the longest prefix of digits and stops at the first non-digit |
| Text.ParseInt | src/components/ProductList.tsx:276 | `parseInt` yields a number exactly when the body after an optional `+` starts with a digit |
| Text.ParseIntRoundTrip | src/components/ProductList.tsx:276 | Parsing the decimal rendering of a natural number gives it back |
| Text.UpToDash | src/components/ProductList.tsx:276 | The first `split('-')` field is the longest dash-free prefix |
| Text.SecondField | src/components/ProductList.tsx:276 | `split('-')[1]` is undefined exactly when the string has no dash |
| Text.SecondFieldOfJoin | src/components/ProductList.tsx:276 | Splitting `p-d`, with `p` and `d` dash-free, gives `d` as the second field |
| Products.FindById | src/components/ProductList.tsx:165-168 | `find` by id is empty exactly when no entry has the id, and otherwise returns an entry with that id |
| Products.IndexOfId | src/components/ProductList.tsx:170-172 | `findIndex` is -1 exactly when the id is absent, and otherwise the first index holding the id |
| Products.FindAtIndex | src/components/ProductList.tsx:165-172 | `find` returns the entry at the index `findIndex` reports |
| Products.IndexOfUnique | src/components/ProductList.tsx:170-172 | With distinct ids, `findIndex` of an entry's id is that entry's index |
| Products.FilterIds | src/components/ProductList.tsx:177-181 | Filtering variants by an id set keeps exactly the variants whose id is in the set, in their order, and keeps ids distinct |
| Products.FilterIdsCount | src/components/ProductList.tsx:177-181 | The id filter keeps each variant whose id is in the set exactly as many times as the input holds it, and no copy of any other |
| Products.FilterIdsNone | src/components/ProductModal.tsx:81-83 | A filter that keeps no id present returns no variants |
| Products.FilterByTitle | src/components/ProductPicker.tsx:74-78 | The title filter is an order-preserving subsequence holding exactly the products whose lower-cased title contains the lower-cased term, each matching product as many times as the input holds it |
| Products.EmptySearchKeepsAll | src/components/ProductPicker.tsx:76 | An empty search term keeps every product, in order |
| Products.SearchIgnoresTermCase | src/components/ProductPicker.tsx:76 | The filter gives the same result for a term and its lower-cased form |
| Products.TitleMatches | src/components/ProductList.tsx:622-624 | A title matches only a term no longer than itself, and every title matches the empty term |
| Products.IsProductAdded | src/components/ProductList.tsx:204-206 | `isProductAdded` holds exactly when `findIndex` finds the id |
| Products.IsVariantAdded | src/components/ProductList.tsx:208-211 | `isVariantAdded` holds exactly when the entry `findIndex` finds for the product lists the variant id |
| Products.VariantAddedMeans | src/components/ProductList.tsx:204-211 | A variant counts as added only if its product is added; when product ids are distinct, it is added exactly when the entry with that id holds it |
| ProductList.ToggleProduct | src/components/ProductList.tsx:132-142 | Toggling an unselected product adds its key with no variants; toggling a selected one removes the key with its variants; other keys are untouched |
| ProductList.ToggleProductTwice | src/components/ProductList.tsx:132-142 | Toggling a product that was not selected twice restores the selection |
| ProductList.ToggleProductKeepsValid | src/components/ProductList.tsx:132-142 | Toggling a product keeps every pending list free of duplicates |
| ProductList.Pending | src/components/ProductList.tsx:147-149 | A product's pending list is empty unless the product is a key, and is duplicate-free in a valid selection |
| ProductList.RemoveFirst | src/components/ProductList.tsx:150-152 | Removing the first occurrence takes exactly one copy of the value out, shortening the list by one when the value occurs and leaving its length otherwise |
| ProductList.RemoveFirstOfAppended | src/components/ProductList.tsx:150-155 | Removing a value that was just pushed onto a list without it gives the list back |
| ProductList.IndexOf | src/components/ProductList.tsx:150 | `indexOf` is -1 exactly when the value is absent, and otherwise its first index |
| ProductList.SpliceAtIndexOf | src/components/ProductList.tsx:150-152 | Splicing out at `indexOf` removes the first occurrence |
| ProductList.RemoveFirstNoDup | src/components/ProductList.tsx:150-152 | In a duplicate-free list, removing the first occurrence removes the value entirely and keeps the list duplicate-free |
| ProductList.SpliceOrPush | src/components/ProductList.tsx:150-155 | The in-place `indexOf`, `splice` or `push` on a product's array removes the variant's first occurrence when present and otherwise appends it |
| ProductList.ToggleVariant | src/components/ProductList.tsx:144-158 | A variant toggle creates the product's key if missing and touches no other key |
| ProductList.ToggleVariantFlips | src/components/ProductList.tsx:147-155 | A variant toggle flips exactly that id's membership, appends at the end when adding, and introduces no duplicate |
| ProductList.ToggleVariantTwice | src/components/ProductList.tsx:144-158 | Toggling the same pair twice restores every id's membership; when the id was not pending, the list comes back unchanged; other keys are unchanged |
| ProductList.ToggleVariantKeepsValid | src/components/ProductList.tsx:144-158 | Toggling a variant keeps every pending list free of duplicates |
| ProductList.MergeKeysStep | src/components/ProductList.tsx:163-195 | Merging the first i+1 entries applies entry i's merge step to the merge of the first i |
| ProductList.MergeEntry | src/components/ProductList.tsx:164-194 | One merge step keeps the list's length or adds exactly one entry |
| ProductList.MergeEntryIds | src/components/ProductList.tsx:164-194 | One merge step adds the entry's id when the catalogue has that product and otherwise keeps the ids as they were |
| ProductList.MergeKeys | src/components/ProductList.tsx:163 | Merging n entries grows the list by at most n entries |
| ProductList.MergeKeysIds | src/components/ProductList.tsx:163-195 | After merging a run of keys, the ids are the old ids plus every merged key the catalogue has |
| ProductList.AddSelected | src/components/ProductList.tsx:160-198 | After confirming, the ids are the old ids plus every selected id that the catalogue has |
| ProductList.MergeSkipsUnknown | src/components/ProductList.tsx:165-168 | A selection key with no catalogue product leaves the list unchanged |
| ProductList.MergeIntoExisting | src/components/ProductList.tsx:170-185 | For an added product, exactly the selected catalogue variants it lacks are appended after its own, in catalogue order and with the catalogue's number of copies; its fields and all other entries are unchanged |
| ProductList.MergeAppendsNew | src/components/ProductList.tsx:186-194 | A product not yet added is appended after the untouched earlier entries, with the catalogue fields and exactly its selected variants in catalogue order, each as often as the catalogue lists it |
| ProductList.ExtendsTrans | src/components/ProductList.tsx:163-195 | Growth of the list composes across successive merge steps |
| ProductList.ExtendsKeepsIds | src/components/ProductList.tsx:163-195 | A grown list still holds every product id it held |
| ProductList.ExtendsKeepsAdded | src/components/ProductList.tsx:204-211 | A variant added before a merge is still added after it |
| ProductList.MergeEntryExtends | src/components/ProductList.tsx:170-194 | One merge step only appends entries or appends variants to an entry |
| ProductList.MergeEntryTail | src/components/ProductList.tsx:170-194 | One merge step either keeps the length or appends one entry, for a catalogue product not yet in the list |
| ProductList.MergeEntryAddsSelected | src/components/ProductList.tsx:170-194 | After one merge step, the product and each of its selected catalogue variants are added |
| ProductList.MergeEntryKeepsValid | src/components/ProductList.tsx:170-194 | One merge step keeps product ids unique, variant ids unique per product, and variants owned by their product |
| ProductList.AppendFreshKeepsWellFormed | src/components/ProductList.tsx:177-185 | Appending catalogue variants that the product lacks keeps it well-formed |
| ProductList.MergeKeysExtends | src/components/ProductList.tsx:163-195 | Merging any sequence of keys only grows the list |
| ProductList.MergeKeysKeepsValid | src/components/ProductList.tsx:163-195 | Merging any sequence of keys keeps the list's invariants |
| ProductList.MergeKeysAddsSelected | src/components/ProductList.tsx:163-195 | Every selected variant of a merged catalogue product is added at the end, whatever keys follow |
| ProductList.MergeKeysAppendsInKeyOrder | src/components/ProductList.tsx:163-195 | New entries are catalogue products from the keys, not previously present, appended in key order |
| ProductList.AddSelectedSpec | src/components/ProductList.tsx:160-198 | Confirming only grows the list, keeps its invariants, adds every selected catalogue product and variant, and appends new products in ascending id order |
| ProductList.MergeSelection | src/components/ProductList.tsx:161-198 | The `forEach` over the `Object.entries` array, one merge step per entry, produces exactly the specified merged list |
| ProductList.EditProduct | src/components/ProductList.tsx:220 | A product field edit keeps the product's id, variants and image |
| ProductList.EditVariant | src/components/ProductList.tsx:238 | A variant field edit keeps the variant's id, owner and price |
| ProductList.UpdateProduct | src/components/ProductList.tsx:217-223 | Only entries with the id are edited; length, order, ids and variants are kept |
| ProductList.UpdateProductSpec | src/components/ProductList.tsx:217-223 | A product edit keeps the invariants, is idempotent, and does nothing for an unknown id |
| ProductList.UpdateVariant | src/components/ProductList.tsx:225-245 | Only the matching variant of the matching product is edited; every product and variant keeps its place |
| ProductList.UpdateVariantKeepsValid | src/components/ProductList.tsx:225-245 | A variant edit keeps the list's invariants |
| ProductList.RemoveProduct | src/components/ProductList.tsx:247-249 | Removal by id keeps, in order, exactly the entries with another id |
| ProductList.RemoveProductSpec | src/components/ProductList.tsx:247-249 | With distinct ids, removal shortens the list by one exactly when the id was present |
| ProductList.RemoveProductKeepsValid | src/components/ProductList.tsx:247-249 | Removing a product keeps the list's invariants |
| ProductList.RemoveVariant | src/components/ProductList.tsx:251-262 | Only the matching product loses the variant id, keeping every other variant with its number of copies and its order; every other entry is unchanged |
| ProductList.RemoveVariantSpec | src/components/ProductList.tsx:251-262 | Removing a variant keeps the invariants, and removing a product's last variant leaves the product in place with no variants |
| ProductList.Move | src/components/ProductList.tsx:270-272 | A splice move keeps the length and the multiset of elements |
| ProductList.MoveIndex | src/components/ProductList.tsx:270-272 | Each position after the move holds a definite original element, and the moved one lands at the clamped destination |
| ProductList.MoveSourceInjective | src/components/ProductList.tsx:270-272 | Distinct positions after a move come from distinct original positions |
| ProductList.MoveSourceInverse | src/components/ProductList.tsx:270-272 | The move back from the destination undoes the index map of the move |
| ProductList.MoveBack | src/components/ProductList.tsx:270-272 | Moving an element and then moving it back from its landing place restores the sequence |
| ProductList.MoveKeepsValid | src/components/ProductList.tsx:269-274 | A product move keeps the list's invariants |
| ProductList.MoveKeepsUniqueVariants | src/components/ProductList.tsx:280-282 | A variant move keeps variant ids distinct |
| ProductList.DroppableIdRoundTrip | src/components/ProductList.tsx:276 | The id parsed from a product's own drop area id `variants-<id>` is that product id |
| ProductList.NegativeIdNotParsed | src/components/ProductList.tsx:276 | The drop area of a negative id parses to `NaN` |
| ProductList.SecondFieldPrefix | src/components/ProductList.tsx:276 | A string with two dashes after a dash-free prefix has an empty second field |
| ProductList.VariantsDroppableId | src/components/ProductList.tsx:443 | A product's variant drop area id is `variants-` followed by one or more decimal digits |
| ProductList.DroppableProductId | src/components/ProductList.tsx:276 | A drop area id without a dash yields no product id, and a parsed id is never negative |
| ProductList.ReplaceVariants | src/components/ProductList.tsx:284-288 | Only entries with the id get the new variant list |
| ProductList.DragOutcome | src/components/ProductList.tsx:264-290 | Every drop keeps the number of entries and the set of product ids |
| ProductList.DropWithoutDestinationIsNoop | src/components/ProductList.tsx:265 | A drop with no destination, or of a type other than product or variant, changes nothing |
| ProductList.ProductDragPermutes | src/components/ProductList.tsx:269-274 | A product drop permutes the list, puts the dragged product at the destination, and dragging it back restores the list |
| ProductList.VariantDragScoped | src/components/ProductList.tsx:275-289 | A variant drop applies the splice move from the source index to the destination to the variants of the product named by the drop area, and only to those; every other entry and every product field is unchanged |
| ProductList.VariantDragMoves | src/components/ProductList.tsx:276-288 | A variant drop naming a listed product installs the moved copy of that product's variants on the entries with its id |
| ProductList.VariantDragAt | src/components/ProductList.tsx:276-288 | With distinct ids, a variant drop naming the product at a position moves that product's variants by the splice move |
| ProductList.ReplaceVariantsKeepsUnique | src/components/ProductList.tsx:284-288 | Installing a reordered variant list keeps product ids distinct |
| ProductList.ReplaceVariantsBack | src/components/ProductList.tsx:284-288 | With distinct ids, reinstalling a product's former variants restores the list |
| ProductList.VariantDragBack | src/components/ProductList.tsx:275-289 | A dragged variant lands at the destination, and dragging it back from there restores the list |
| ProductList.VariantDragUnknownId | src/components/ProductList.tsx:277-278 | A variant drop naming no listed product changes nothing |
| ProductList.ReplaceVariantsKeepsValid | src/components/ProductList.tsx:284-288 | Installing a well-formed variant list keeps the list's invariants |
| ProductList.MoveKeepsWellFormed | src/components/ProductList.tsx:280-282 | A variant move keeps the product well-formed |
| ProductList.DragKeepsValid | src/components/ProductList.tsx:264-290 | Every drop keeps the list's invariants, including one with no destination |
| ProductList.ListProductCheckbox | src/components/ProductList.tsx:636-646 | The dialog's product box is disabled exactly when added, and ticked exactly when selected or added |
| ProductList.ListVariantCheckbox | src/components/ProductList.tsx:666-679 | The dialog's variant box is disabled exactly when added, and ticked exactly when pending or added |
| ProductList.ProductListState.constructor | src/components/ProductList.tsx:113-130 | The component mounts with no products, an empty selection, the dialog closed and no search |
| ProductList.ProductListState.ToggleProductSelection | src/components/ProductList.tsx:132-142 | The selection becomes the product toggle of the old one; nothing else changes |
| ProductList.ProductListState.ToggleVariantSelection | src/components/ProductList.tsx:144-158 | The selection becomes the variant toggle of the old one, still duplicate-free; nothing else changes |
| ProductList.ProductListState.HandleAddProducts | src/components/ProductList.tsx:160-202 | The products become the merged list, the selection is emptied and the dialog closes |
| ProductList.ProductListState.UpdateProductField | src/components/ProductList.tsx:217-223 | The products become the edited list; nothing else changes |
| ProductList.ProductListState.UpdateVariantField | src/components/ProductList.tsx:225-245 | The products become the variant-edited list; nothing else changes |
| ProductList.ProductListState.RemoveProductById | src/components/ProductList.tsx:247-249 | The products lose the entries with the id; nothing else changes |
| ProductList.ProductListState.RemoveVariantById | src/components/ProductList.tsx:251-262 | The matching product loses the variant; nothing else changes |
| ProductList.ProductListState.OnDragEnd | src/components/ProductList.tsx:264-290 | The products become the outcome of the drop; nothing else changes |
| ProductList.ProductListState.ToggleVariants | src/components/ProductList.tsx:213-215 | The product's expanded flag is negated (absent counts as false); nothing else changes |
| ProductList.ProductListState.SetShowProductModal | src/components/ProductList.tsx:117 | Only the dialog flag changes |
| ProductList.ProductListState.SetSearchTerm | src/components/ProductList.tsx:118 | Only the search term changes |
| ProductList.ProductListState.FilteredCatalogue | src/components/ProductList.tsx:620-625 | The dialog lists, in catalogue order, exactly the catalogue products whose title matches the term |
| ProductQuery.GetNextPageParam | src/hooks/existing-product-list.ts:44-49 | There is no next page exactly when the last page is empty, and otherwise its number is one more than the number of pages |
| ProductQuery.HasNextPage | src/hooks/existing-product-list.ts:44-49 | There is a next page exactly when the last page loaded is not empty |
| ProductQuery.RequestedPages | src/hooks/existing-product-list.ts:43-49 | The pages requested in any reachable history are numbered 1, 2, ..., n, with no gap and no repeat |
| ProductQuery.EmptySecondPageStops | src/hooks/existing-product-list.ts:43-49 | After a non-empty first page and an empty second, pages 1 and 2 were requested and there is no next page |
| ProductQuery.PageUrl | src/hooks/existing-product-list.ts:29 | The URL has the fixed search prefix with an empty term, then the page number in decimal, then `&limit=10` |
| ProductQuery.PageUrlDeterminesPage | src/hooks/existing-product-list.ts:29 | Two pages share a URL exactly when they are the same page |
| ProductPicker.ShouldFetchNextPage | src/components/ProductPicker.tsx:68-72 | The next page is requested exactly when the sentinel is in view, a next page exists, and no load is in flight |
| ProductPicker.NoFetchAfterEmptyPage | src/components/ProductPicker.tsx:68-72 | After an empty page nothing more is requested; with the sentinel in view and nothing in flight, a request follows exactly a non-empty page |
| ProductPicker.PickerProductCheckbox | src/components/ProductPicker.tsx:91-113 | An added product's box is ticked, disabled and without a handler; otherwise it is ticked exactly when its id is a selection key |
| ProductPicker.PickerVariantCheckbox | src/components/ProductPicker.tsx:131-155 | An added variant's box is ticked, disabled and without a handler; otherwise it is ticked exactly when the variant is pending for its product |
| ProductPicker.AgreesWithListDialog | src/components/ProductPicker.tsx:91-155 | This picker ticks and disables every box as the list's own dialog does, and gives a handler exactly to the enabled ones |
| ProductPicker.ConfirmedSelectionLocked | src/components/ProductPicker.tsx:91-155 | After a confirm, each selected catalogue product and variant shows ticked, disabled and without a handler |
| ProductPicker.ShownListArea | src/components/ProductPicker.tsx:197-209 | A spinner exactly while loading, otherwise the error notice exactly on error, otherwise the filtered rows with every matching product as often as it was loaded |
| ProductPicker.ShownFooter | src/components/ProductPicker.tsx:210-224 | The sentinel shows exactly when a next page exists, its spinner only then while fetching, and the count is the number of selection keys |
| ProductPicker.CountAfterToggles | src/components/ProductPicker.tsx:224 | A product toggle moves the count by one; a variant toggle raises it by one exactly when the product was not selected |
| ProductModal.ToggleSelectedProduct | src/components/ProductModal.tsx:58-64 | Toggling flips that id's selection, appends at the end when adding, keeps the order when removing, and keeps every other id |
| ProductModal.ToggleSelectedProductSpec | src/components/ProductModal.tsx:58-64 | No two selected products share an id, and toggling twice restores the selected ids |
| ProductModal.IsSelected | src/components/ProductModal.tsx:60 | A product is selected exactly when `findIndex` finds its id in the selection |
| ProductModal.RemoveAll | src/components/ProductModal.tsx:72 | The filter removes every copy of the id, keeps every other value with its number of copies, keeps order, and keeps a duplicate-free list duplicate-free |
| ProductModal.ToggleSelectedVariant | src/components/ProductModal.tsx:66-76 | A variant toggle creates the product's entry and leaves other products' lists untouched |
| ProductModal.ToggleSelectedVariantSpec | src/components/ProductModal.tsx:66-76 | A variant toggle flips exactly that id's membership, appending when adding, and toggling twice restores membership |
| ProductModal.Project | src/components/ProductModal.tsx:79-84 | One entry per selected product, in order, otherwise unchanged, carrying exactly the ticked variants in catalogue order, each as often as the product lists it |
| ProductModal.Ticked | src/components/ProductModal.tsx:82 | A variant id is ticked for a product exactly when the product has a list that holds it |
| ProductModal.ProjectSpec | src/components/ProductModal.tsx:79-84 | The output ids are the selected ids, variants ticked for unselected products are dropped, and a product with nothing ticked has no variants |
| ProductModal.ModalFilter | src/components/ProductModal.tsx:52-56 | No catalogue gives an empty list; otherwise an order-preserving case-insensitive title filter keeping each match as often as the catalogue holds it |
| ProductModal.CountIsDistinctIds | src/components/ProductModal.tsx:155 | With distinct ids, the number of selected products is the number of distinct ids |
| ProductModal.ModalState.constructor | src/components/ProductModal.tsx:41-50 | The dialog mounts with an empty selection and search |
| ProductModal.ModalState.SetOpen | src/components/ProductModal.tsx:47-50 | A change of `isOpen` clears both halves of the selection; re-sending the same value keeps them |
| ProductModal.ModalState.ToggleProductSelection | src/components/ProductModal.tsx:58-64 | The selected products become the product toggle of the old ones, still with distinct ids |
| ProductModal.ModalState.ToggleVariantSelection | src/components/ProductModal.tsx:66-76 | The ticked variants become the variant toggle of the old ones |
| ProductModal.ModalState.SetSearchTerm | src/components/ProductModal.tsx:99 | Only the search term changes |
| ProductModal.ModalState.HandleAddProducts | src/components/ProductModal.tsx:78-87 | The parent receives the projected selection first and the close request second |
| ProductModal.ModalState.SelectedCount | src/components/ProductModal.tsx:155 | The count shown is the number of distinct selected products |
| Fixtures.CatalogueValid | src/components/ProductList.tsx:50-110 | The catalogue literal has distinct product ids and well-formed products |
| Fixtures.AddTwoVariantsToEmptyList | src/components/ProductList.tsx:186-194 | Ticking variants 1 and 2 of product 77 on an empty list adds product 77 with exactly those two variants |
| Fixtures.MergeSecondVariant | src/components/ProductList.tsx:174-185 | With 77 added with variant 1, confirming variant 2 appends it after variant 1 |
| Fixtures.ReselectAddedVariant | src/components/ProductList.tsx:177-181 | Re-confirming an added variant changes nothing |
| Fixtures.AscendingIdOrder | src/components/ProductList.tsx:163 | Products ticked as 80 then 77 are appended as 77 then 80 |
| Fixtures.UnknownKeySkipped | src/components/ProductList.tsx:165-168 | A key with no catalogue product is skipped |
| Fixtures.RemoveOnlyVariant | src/components/ProductList.tsx:251-262 | Removing the terrarium's only variant keeps the terrarium with no variants |
| Fixtures.SwapTwoProducts | src/components/ProductList.tsx:269-274 | Dragging the first of two products onto the second place swaps them |
| Fixtures.ReorderTowelVariants | src/components/ProductList.tsx:275-289 | Dragging the towel's first variant to the last place reorders only that product's variants |

## Left out

- Rendering, styling, animations and the dialog, tooltip and select components are presentation only.
- The drag-and-drop library is not modelled: only the result record that reaches the drop handler is.
- The HTTP request, its API-key header, the query cache and retries, and the console logging are foreign I/O. Only the page-number rule and the URL text are modelled.
- The 300 ms debounce and the intersection observer are timing and visibility plumbing. The debounced term and `inView` are inputs.
- `Number(...)` parsing of the edit inputs (NaN, fractions) is not modelled: a discount is an integer, and an edit stores any value unvalidated.
- Edits are limited to the title, the discount and the discount type, the fields the inputs send. An arbitrary `[field]: value` write is not modelled.
- Lower-casing is ASCII only. Unicode case mapping is not modelled.
- The merge reassigns `variants` on a product object that the previous state shares (ProductList.tsx:176-183), and the list's variant toggle mutates a pending array in place (ProductList.tsx:150-155). The model uses value semantics, so that aliasing is not captured.
- `Object.entries` order is modelled as ascending for every key. JavaScript visits only array-index keys in ascending order; negative keys and keys of 2^32 - 1 or more are ordinary string keys, visited in insertion order after them.
- `parseInt` reads an optional `+` and leading ASCII digits. Leading whitespace, a `-` sign, and hexadecimal or other radices are not modelled (`split('-')` never leaves a `-` at the front of a field that starts with a digit).
- ProductList.VariantsDroppableId: ids are unbounded integers rendered in plain decimal. JavaScript ids are doubles, and `${id}` renders an id of 10^21 or more in exponent notation (`1e+21`).
- ProductList.DroppableIdRoundTrip: holds for every natural id in the model, but in JavaScript only below 10^21. Above that bound `parseInt("1e+21")` reads 1.
- ProductList.DragOutcome: a drag source index past the end is a no-op. JavaScript would insert `undefined`, but the library never reports such an index.
- The modal's own product type has no discount fields. It is modelled with the shared `Product`, whose extra fields pass through unchanged.
- `src/main.tsx`, `src/App.tsx` and `src/components/AddProductButton.tsx` are wiring with no logic.
- `src/lib/data.ts` is static data. The scenarios use the catalogue literal in `ProductList.tsx` instead.
- The stale-page hazard is not modelled: a page that arrives after the picker closed and reopened is still applied. Fetches are asynchronous and are outside the model.
