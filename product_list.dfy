/** The selection, reconciliation and editing engine of
    src/components/ProductList.tsx.

    The component keeps three pieces of state that the model gathers in
    the class `ProductListState`: the ordered list of added products, the
    pending selection `selectedItems` (product id to the list of variant
    ids ticked in the picker) and whether the picker dialog is open. Every
    state change is specified by a function on values defined here; the
    lemmas state what the source promises about those functions. */
module ProductList {
  import opened Collections
  import opened Text
  import opened Products

  /** `selectedItems`: product id to pending variant ids. A key with an
      empty list means "product ticked, no variant chosen yet". */
  type Selection = map<int, seq<int>>

  /** No pending variant id is listed twice for one product. */
  predicate SelectionValid(sel: Selection)
  {
    forall k :: k in sel ==> NoDup(sel[k])
  }

  // ---------------------------------------------------------------------
  // toggleProductSelection

  /** Ticking a product that is not a key adds it with no variants;
      unticking one removes the key together with its pending variants.
      No other key changes. */
  function ToggleProduct(sel: Selection, id: int): (r: Selection)
    ensures id in sel ==> id !in r
    ensures id !in sel ==> id in r && r[id] == []
    ensures forall k :: k != id ==> (k in r <==> k in sel) && (k in r ==> r[k] == sel[k])
  {
    if id in sel then sel - {id} else sel[id := []]
  }

  /** Toggling a product twice restores the set of ticked products, but a
      product that had pending variants comes back with none. */
  lemma ToggleProductTwice(sel: Selection, id: int)
    ensures ToggleProduct(ToggleProduct(sel, id), id)
            == if id in sel then sel[id := []] else sel
  {
  }

  lemma ToggleProductKeepsValid(sel: Selection, id: int)
    requires SelectionValid(sel)
    ensures SelectionValid(ToggleProduct(sel, id))
  {
  }

  // ---------------------------------------------------------------------
  // toggleVariantSelection

  /** The pending variant list of a product (`[]` when it is not a key). */
  function Pending(sel: Selection, pid: int): (r: seq<int>)
    ensures r != [] ==> pid in sel
    ensures SelectionValid(sel) ==> NoDup(r)
  {
    if pid in sel then sel[pid] else []
  }

  /** `s.indexOf(x)`: the first index of `x`, or -1. */
  function IndexOf(s: seq<int>, x: int): (i: int)
    ensures -1 <= i < |s|
    ensures i == -1 <==> x !in s
    ensures i >= 0 ==> s[i] == x && x !in s[..i]
  {
    if s == [] then -1
    else if s[0] == x then 0
    else
      var k := IndexOf(s[1..], x);
      assert s == [s[0]] + s[1..];
      if k == -1 then -1
      else
        assert s[..k + 1] == [s[0]] + s[1..][..k];
        k + 1
  }

  /** `s` without its first occurrence of `x`: one copy of `x` fewer when
      it occurs, and the same list otherwise. */
  function RemoveFirst(s: seq<int>, x: int): (r: seq<int>)
    ensures multiset(r) == multiset(s) - multiset{x}
    ensures |r| == if x in s then |s| - 1 else |s|
  {
    if s == [] then []
    else if s[0] == x then
      assert s == [s[0]] + s[1..];
      s[1..]
    else
      assert s == [s[0]] + s[1..];
      [s[0]] + RemoveFirst(s[1..], x)
  }

  /** Splicing out the element at `indexOf(x)` removes the first occurrence of `x`. */
  lemma {:induction false} SpliceAtIndexOf(s: seq<int>, x: int)
    requires x in s
    ensures var i := IndexOf(s, x); s[..i] + s[i + 1..] == RemoveFirst(s, x)
  {
    if s[0] != x {
      var t := s[1..];
      IndexOfCons(s, x);
      SpliceAtIndexOf(t, x);
      SpliceCons(s, IndexOf(t, x));
    }
  }

  /** Past a head that is not `x`, `indexOf` is one more than in the tail. */
  lemma IndexOfCons(s: seq<int>, x: int)
    requires x in s && s[0] != x
    ensures x in s[1..] && IndexOf(s, x) == IndexOf(s[1..], x) + 1
  {
    assert s == [s[0]] + s[1..];
  }

  /** Splicing out position `i + 1` keeps the head and splices position `i`
      out of the tail. */
  lemma SpliceCons(s: seq<int>, i: nat)
    requires i + 1 < |s|
    ensures s[..i + 1] + s[i + 2..] == [s[0]] + (s[1..][..i] + s[1..][i + 1..])
  {
    assert s[..i + 1] == [s[0]] + s[1..][..i];
    assert s[i + 2..] == s[1..][i + 1..];
  }

  /** Removing the first occurrence from a duplicate-free list removes the
      element and nothing else, and keeps it duplicate-free. */
  lemma {:induction false} RemoveFirstNoDup(s: seq<int>, x: int)
    requires NoDup(s)
    ensures forall y :: y in RemoveFirst(s, x) <==> y in s && y != x
    ensures NoDup(RemoveFirst(s, x))
  {
    if s != [] {
      assert s == [s[0]] + s[1..];
      if s[0] != x {
        RemoveFirstNoDup(s[1..], x);
        var r := RemoveFirst(s, x);
        assert r == [s[0]] + RemoveFirst(s[1..], x);
        assert s[0] !in s[1..];
      }
    }
  }

  /** Ticking or unticking a variant: ensure the product has a list, then
      splice out the variant if it is there, otherwise push it. */
  function ToggleVariant(sel: Selection, pid: int, vid: int): (r: Selection)
    ensures pid in r
    ensures forall k :: k != pid ==> (k in r <==> k in sel) && (k in r ==> r[k] == sel[k])
  {
    var list := Pending(sel, pid);
    sel[pid := if vid in list then RemoveFirst(list, vid) else list + [vid]]
  }

  /** Toggling a variant flips its membership, appending at the end when it
      is added, and never introduces a duplicate. */
  lemma ToggleVariantFlips(sel: Selection, pid: int, vid: int)
    requires NoDup(Pending(sel, pid))
    ensures var after := ToggleVariant(sel, pid, vid)[pid];
            && (forall x :: x in after <==> (x in Pending(sel, pid) <==> x != vid))
            && NoDup(after)
            && (vid !in Pending(sel, pid) ==> after == Pending(sel, pid) + [vid])
  {
    var list := Pending(sel, pid);
    if vid in list {
      RemoveFirstNoDup(list, vid);
    }
  }

  /** Toggling the same pair twice restores the membership of every variant
      id for that product; when the variant was not pending, the list comes
      back exactly. */
  lemma ToggleVariantTwice(sel: Selection, pid: int, vid: int)
    requires NoDup(Pending(sel, pid))
    ensures var twice := ToggleVariant(ToggleVariant(sel, pid, vid), pid, vid);
            forall x :: x in twice[pid] <==> x in Pending(sel, pid)
    ensures vid !in Pending(sel, pid) ==>
              ToggleVariant(ToggleVariant(sel, pid, vid), pid, vid)[pid] == Pending(sel, pid)
    ensures var twice := ToggleVariant(ToggleVariant(sel, pid, vid), pid, vid);
            forall k :: k != pid ==> (k in twice <==> k in sel) && (k in twice ==> twice[k] == sel[k])
  {
    var list := Pending(sel, pid);
    var once := ToggleVariant(sel, pid, vid);
    ToggleVariantFlips(sel, pid, vid);
    assert Pending(once, pid) == once[pid];
    ToggleVariantFlips(once, pid, vid);
    if vid !in list {
      assert once[pid] == list + [vid];
      RemoveFirstOfAppended(list, vid);
    }
  }

  /** Removing the first copy of a value just appended to a list that did
      not hold it gives the list back. */
  lemma {:induction false} RemoveFirstOfAppended(s: seq<int>, x: int)
    requires x !in s
    ensures RemoveFirst(s + [x], x) == s
  {
    if s != [] {
      assert (s + [x])[1..] == s[1..] + [x];
      RemoveFirstOfAppended(s[1..], x);
    }
  }

  lemma ToggleVariantKeepsValid(sel: Selection, pid: int, vid: int)
    requires SelectionValid(sel)
    ensures SelectionValid(ToggleVariant(sel, pid, vid))
  {
    ToggleVariantFlips(sel, pid, vid);
  }

  // ---------------------------------------------------------------------
  // handleAddProducts

  /** The ids of a variant-id list, as a set. */
  function IdSet(ids: seq<int>): set<int>
  {
    set x | x in ids
  }

  /** One `forEach` step of handleAddProducts: merge the selection entry
      `(pid, vids)` into the list. Unknown catalogue ids are skipped; an
      already-added product gets the selected variants it lacks appended;
      otherwise a copy of the catalogue product restricted to the selected
      variants is appended. */
  function MergeEntry(ps: seq<Product>, catalogue: seq<Product>, pid: int, vids: seq<int>): (r: seq<Product>)
    ensures |ps| <= |r| <= |ps| + 1
  {
    match FindById(catalogue, pid)
    case None => ps
    case Some(cp) =>
      var i := IndexOfId(ps, pid);
      if i != -1 then
        var existing := ps[i];
        var added := FilterIds(cp.variants, IdSet(vids) - VariantIds(existing.variants));
        ps[i := existing.(variants := existing.variants + added)]
      else
        ps + [cp.(variants := FilterIds(cp.variants, IdSet(vids)))]
  }

  /** Merging the entries for `keys`, in that order. */
  function MergeKeys(ps: seq<Product>, catalogue: seq<Product>, sel: Selection, keys: seq<int>): (r: seq<Product>)
    requires forall k :: k in keys ==> k in sel
    ensures |ps| <= |r| <= |ps| + |keys|
    decreases |keys|
  {
    if keys == [] then ps
    else
      var k := keys[|keys| - 1];
      assert keys == keys[..|keys| - 1] + [k];
      MergeEntry(MergeKeys(ps, catalogue, sel, keys[..|keys| - 1]), catalogue, k, sel[k])
  }

  /** One merge step adds the entry's id when the catalogue has it and
      otherwise keeps the ids as they were. */
  lemma MergeEntryIds(ps: seq<Product>, catalogue: seq<Product>, pid: int, vids: seq<int>)
    ensures ProductIds(MergeEntry(ps, catalogue, pid, vids))
            == ProductIds(ps) + (if pid in ProductIds(catalogue) then {pid} else {})
  {
    var r := MergeEntry(ps, catalogue, pid, vids);
    var i := IndexOfId(ps, pid);
    if FindById(catalogue, pid).Some? && i != -1 {
      forall id ensures id in ProductIds(r) <==> id in ProductIds(ps) {
        if id in ProductIds(r) {
          var k :| 0 <= k < |r| && r[k].id == id;
          assert ps[k] in ps;
        }
        if id in ProductIds(ps) {
          var k :| 0 <= k < |ps| && ps[k].id == id;
          assert r[k] in r;
        }
      }
    }
  }

  /** The ids after merging `keys`: the old ids plus every key the
      catalogue has. */
  lemma {:induction false} MergeKeysIds(ps: seq<Product>, catalogue: seq<Product>, sel: Selection, keys: seq<int>)
    requires forall k :: k in keys ==> k in sel
    ensures ProductIds(MergeKeys(ps, catalogue, sel, keys))
            == ProductIds(ps) + (set k | k in keys && k in ProductIds(catalogue))
    decreases |keys|
  {
    if keys != [] {
      var k := keys[|keys| - 1];
      assert keys == keys[..|keys| - 1] + [k];
      MergeKeysIds(ps, catalogue, sel, keys[..|keys| - 1]);
      MergeEntryIds(MergeKeys(ps, catalogue, sel, keys[..|keys| - 1]), catalogue, k, sel[k]);
    }
  }

  /** The list after confirming `sel`: the entries are merged in ascending
      key order, the order `Object.entries` yields array-index keys in. */
  function AddSelected(ps: seq<Product>, catalogue: seq<Product>, sel: Selection): (r: seq<Product>)
    ensures ProductIds(r) == ProductIds(ps) + (sel.Keys * ProductIds(catalogue))
  {
    MergeKeysIds(ps, catalogue, sel, SortedKeys(sel.Keys));
    MergeKeys(ps, catalogue, sel, SortedKeys(sel.Keys))
  }

  /** A selection key with no catalogue product is skipped. */
  lemma MergeSkipsUnknown(ps: seq<Product>, catalogue: seq<Product>, pid: int, vids: seq<int>)
    requires pid !in ProductIds(catalogue)
    ensures MergeEntry(ps, catalogue, pid, vids) == ps
  {
  }

  /** Merging into an already-added product appends, at the end and in
      catalogue order, exactly the selected catalogue variants it does not
      already hold; its own fields and every other entry are unchanged. */
  lemma MergeIntoExisting(ps: seq<Product>, catalogue: seq<Product>, pid: int, vids: seq<int>, cp: Product)
    requires FindById(catalogue, pid) == Some(cp)
    requires pid in ProductIds(ps)
    ensures var r := MergeEntry(ps, catalogue, pid, vids);
            var i := IndexOfId(ps, pid);
            var before := ps[i].variants;
            && |r| == |ps|
            && (forall j :: 0 <= j < |ps| && j != i ==> r[j] == ps[j])
            && r[i] == ps[i].(variants := r[i].variants)
            && r[i].variants[..|before|] == before
            && |before| <= |r[i].variants|
            && (forall v :: v in r[i].variants[|before|..] <==>
                  v in cp.variants && v.id in vids && v.id !in VariantIds(before))
            && (forall v :: multiset(r[i].variants[|before|..])[v] ==
                  if v.id in vids && v.id !in VariantIds(before) then multiset(cp.variants)[v] else 0)
            && IsSubseq(r[i].variants[|before|..], cp.variants)
  {
    var i := IndexOfId(ps, pid);
    var before := ps[i].variants;
    var added := FilterIds(cp.variants, IdSet(vids) - VariantIds(before));
    var r := MergeEntry(ps, catalogue, pid, vids);
    assert r[i].variants == before + added;
    assert r[i].variants[|before|..] == added;
    FilterIdsCount(cp.variants, IdSet(vids) - VariantIds(before));
  }

  /** A product not yet in the list is appended at the end, carrying the
      catalogue fields and exactly the selected catalogue variants, in
      catalogue order; the earlier entries are untouched. */
  lemma MergeAppendsNew(ps: seq<Product>, catalogue: seq<Product>, pid: int, vids: seq<int>, cp: Product)
    requires FindById(catalogue, pid) == Some(cp)
    requires pid !in ProductIds(ps)
    ensures var r := MergeEntry(ps, catalogue, pid, vids);
            && |r| == |ps| + 1
            && r[..|ps|] == ps
            && r[|ps|] == cp.(variants := r[|ps|].variants)
            && (forall v :: v in r[|ps|].variants <==> v in cp.variants && v.id in vids)
            && (forall v :: multiset(r[|ps|].variants)[v] == if v.id in vids then multiset(cp.variants)[v] else 0)
            && IsSubseq(r[|ps|].variants, cp.variants)
  {
    var r := MergeEntry(ps, catalogue, pid, vids);
    assert r[..|ps|] == ps;
    FilterIdsCount(cp.variants, IdSet(vids));
  }

  /** `q` is `p` with possibly more variants appended, nothing else changed. */
  predicate Grows(p: Product, q: Product)
  {
    q == p.(variants := q.variants) && p.variants <= q.variants
  }

  /** `qs` keeps every entry of `ps` in place (possibly with more variants)
      and may append new entries at the end. */
  predicate Extends(ps: seq<Product>, qs: seq<Product>)
  {
    |ps| <= |qs| && forall i :: 0 <= i < |ps| ==> Grows(ps[i], qs[i])
  }

  lemma ExtendsTrans(a: seq<Product>, b: seq<Product>, c: seq<Product>)
    requires Extends(a, b) && Extends(b, c)
    ensures Extends(a, c)
  {
    forall i | 0 <= i < |a| ensures Grows(a[i], c[i]) {
      assert a[i].variants <= b[i].variants <= c[i].variants;
    }
  }

  lemma ExtendsKeepsIds(ps: seq<Product>, qs: seq<Product>)
    requires Extends(ps, qs)
    ensures ProductIds(ps) <= ProductIds(qs)
  {
    forall id | id in ProductIds(ps) ensures id in ProductIds(qs) {
      var p :| p in ps && p.id == id;
      var i :| 0 <= i < |ps| && ps[i] == p;
      assert qs[i].id == id;
    }
  }

  /** Anything added stays added when the list only grows. */
  lemma ExtendsKeepsAdded(ps: seq<Product>, qs: seq<Product>, pid: int, vid: int)
    requires Extends(ps, qs)
    requires IsVariantAdded(ps, pid, vid)
    ensures IsVariantAdded(qs, pid, vid)
  {
    FindAtIndex(ps, pid);
    FindAtIndex(qs, pid);
    var i := IndexOfId(ps, pid);
    assert qs[i].id == pid;
    assert pid in ProductIds(qs) by { assert qs[i] in qs; }
    forall j | 0 <= j < i ensures qs[j].id != pid {
      assert Grows(ps[j], qs[j]);
    }
    IndexOfIdAt(qs, pid, i);
    var v :| v in ps[i].variants && v.id == vid;
    assert ps[i].variants <= qs[i].variants;
    assert v in qs[i].variants;
  }

  lemma MergeEntryExtends(ps: seq<Product>, catalogue: seq<Product>, pid: int, vids: seq<int>)
    ensures Extends(ps, MergeEntry(ps, catalogue, pid, vids))
  {
    var r := MergeEntry(ps, catalogue, pid, vids);
    var f := FindById(catalogue, pid);
    if f.Some? {
      var i := IndexOfId(ps, pid);
      if i != -1 {
        assert ps[i].variants <= r[i].variants;
      } else {
        assert forall j :: 0 <= j < |ps| ==> r[j] == ps[j];
      }
    }
  }

  /** One merge step either keeps the length or appends one entry, for a
      catalogue product that was not yet in the list. */
  lemma MergeEntryTail(ps: seq<Product>, catalogue: seq<Product>, pid: int, vids: seq<int>)
    ensures var r := MergeEntry(ps, catalogue, pid, vids);
            || |r| == |ps|
            || (&& |r| == |ps| + 1 && r[|ps|].id == pid
                && pid in ProductIds(catalogue) && pid !in ProductIds(ps))
  {
  }

  /** After merging `(pid, vids)` for a catalogue product, the product is in
      the list and every selected catalogue variant is added. */
  lemma MergeEntryAddsSelected(ps: seq<Product>, catalogue: seq<Product>, pid: int, vids: seq<int>, cp: Product)
    requires FindById(catalogue, pid) == Some(cp)
    ensures var r := MergeEntry(ps, catalogue, pid, vids);
            && IsProductAdded(r, pid)
            && forall v :: v in cp.variants && v.id in vids ==> IsVariantAdded(r, pid, v.id)
  {
    var r := MergeEntry(ps, catalogue, pid, vids);
    FindAtIndex(r, pid);
    var i := IndexOfId(ps, pid);
    if i != -1 {
      MergeIntoExisting(ps, catalogue, pid, vids, cp);
      forall j | 0 <= j < i ensures r[j].id != pid {
        assert r[j] == ps[j];
      }
      IndexOfIdAt(r, pid, i);
      assert r[i] in r;
      forall v | v in cp.variants && v.id in vids
        ensures IsVariantAdded(r, pid, v.id)
      {
        var before := ps[i].variants;
        assert r[i].variants == before + r[i].variants[|before|..];
        if v.id in VariantIds(before) {
          var w :| w in before && w.id == v.id;
          assert w in r[i].variants;
        } else {
          assert v in r[i].variants[|before|..];
          assert v in r[i].variants;
        }
      }
    } else {
      MergeAppendsNew(ps, catalogue, pid, vids, cp);
      assert r[..|ps|] == ps;
      forall j | 0 <= j < |ps| ensures r[j].id != pid {
        assert r[j] == ps[j];
        assert ps[j] in ps;
      }
      IndexOfIdAt(r, pid, |ps|);
      assert r[|ps|] in r;
    }
  }

  /** Merging keeps distinct product ids, distinct variant ids within each
      product and variants owned by their product, given a catalogue that
      has these properties. */
  lemma MergeEntryKeepsValid(ps: seq<Product>, catalogue: seq<Product>, pid: int, vids: seq<int>)
    requires ValidList(ps) && ValidList(catalogue)
    ensures ValidList(MergeEntry(ps, catalogue, pid, vids))
  {
    var r := MergeEntry(ps, catalogue, pid, vids);
    var f := FindById(catalogue, pid);
    if f.Some? {
      var cp := f.value;
      var c :| 0 <= c < |catalogue| && catalogue[c] == cp && forall j :: 0 <= j < c ==> catalogue[j].id != pid;
      assert WellFormed(catalogue[c]);
      var i := IndexOfId(ps, pid);
      if i != -1 {
        assert WellFormed(ps[i]);
        var added := FilterIds(cp.variants, IdSet(vids) - VariantIds(ps[i].variants));
        AppendFreshKeepsWellFormed(ps[i], cp, added);
        assert forall j :: 0 <= j < |r| && j != i ==> r[j] == ps[j];
      } else {
        var np := cp.(variants := FilterIds(cp.variants, IdSet(vids)));
        assert r == ps + [np];
        assert WellFormed(np);
        forall a | 0 <= a < |ps| ensures ps[a].id != pid {
          assert ps[a] in ps;
        }
      }
    }
  }

  /** Appending catalogue variants whose ids the product lacks keeps the
      product well-formed. */
  lemma AppendFreshKeepsWellFormed(p: Product, cp: Product, added: seq<Variant>)
    requires WellFormed(p) && WellFormed(cp) && cp.id == p.id
    requires UniqueVariantIds(added)
    requires forall v :: v in added ==> v in cp.variants && v.id !in VariantIds(p.variants)
    ensures WellFormed(p.(variants := p.variants + added))
  {
    var before := p.variants;
    var vs := before + added;
    forall a, b | 0 <= a < b < |vs| ensures vs[a].id != vs[b].id {
      if b >= |before| && a < |before| {
        assert vs[b] in added;
        assert vs[a] in before;
      }
      if a >= |before| {
        assert vs[a] == added[a - |before|] && vs[b] == added[b - |before|];
      }
    }
    forall v | v in vs ensures v.productId == p.id {
      if v in added { assert v in cp.variants; } else { assert v in before; }
    }
  }

  lemma MergeKeysExtends(ps: seq<Product>, catalogue: seq<Product>, sel: Selection, keys: seq<int>)
    requires forall k :: k in keys ==> k in sel
    ensures Extends(ps, MergeKeys(ps, catalogue, sel, keys))
    decreases |keys|
  {
    if keys == [] {
      assert Extends(ps, ps);
    } else {
      var init := keys[..|keys| - 1];
      var k := keys[|keys| - 1];
      MergeKeysExtends(ps, catalogue, sel, init);
      MergeEntryExtends(MergeKeys(ps, catalogue, sel, init), catalogue, k, sel[k]);
      ExtendsTrans(ps, MergeKeys(ps, catalogue, sel, init), MergeKeys(ps, catalogue, sel, keys));
    }
  }

  lemma MergeKeysKeepsValid(ps: seq<Product>, catalogue: seq<Product>, sel: Selection, keys: seq<int>)
    requires forall k :: k in keys ==> k in sel
    requires ValidList(ps) && ValidList(catalogue)
    ensures ValidList(MergeKeys(ps, catalogue, sel, keys))
    decreases |keys|
  {
    if keys != [] {
      var init := keys[..|keys| - 1];
      var k := keys[|keys| - 1];
      MergeKeysKeepsValid(ps, catalogue, sel, init);
      MergeEntryKeepsValid(MergeKeys(ps, catalogue, sel, init), catalogue, k, sel[k]);
    }
  }

  /** Whatever was selected for a catalogue product under one of `keys` is
      in the list afterwards. */
  lemma MergeKeysAddsSelected(ps: seq<Product>, catalogue: seq<Product>, sel: Selection, keys: seq<int>,
                              pid: int, cp: Product)
    requires forall k :: k in keys ==> k in sel
    requires pid in keys && FindById(catalogue, pid) == Some(cp)
    ensures var r := MergeKeys(ps, catalogue, sel, keys);
            && IsProductAdded(r, pid)
            && forall v :: v in cp.variants && v.id in sel[pid] ==> IsVariantAdded(r, pid, v.id)
    decreases |keys|
  {
    var init := keys[..|keys| - 1];
    var k := keys[|keys| - 1];
    var mid := MergeKeys(ps, catalogue, sel, init);
    var r := MergeKeys(ps, catalogue, sel, keys);
    if k == pid {
      MergeEntryAddsSelected(mid, catalogue, pid, sel[pid], cp);
    } else {
      assert pid in init by { assert keys == init + [k]; }
      MergeKeysAddsSelected(ps, catalogue, sel, init, pid, cp);
      MergeEntryExtends(mid, catalogue, k, sel[k]);
      ExtendsKeepsIds(mid, r);
      forall v | v in cp.variants && v.id in sel[pid] ensures IsVariantAdded(r, pid, v.id) {
        ExtendsKeepsAdded(mid, r, pid, v.id);
      }
    }
  }

  /** The entries appended after `ps` have ids taken from `keys` and from
      the catalogue, none already in `ps`, and they come in the order of
      `keys` (so in ascending id order for ascending keys). */
  lemma MergeKeysAppendsInKeyOrder(ps: seq<Product>, catalogue: seq<Product>, sel: Selection, keys: seq<int>)
    requires forall k :: k in keys ==> k in sel
    requires forall a, b :: 0 <= a < b < |keys| ==> keys[a] < keys[b]
    ensures var r := MergeKeys(ps, catalogue, sel, keys);
            && |ps| <= |r|
            && (forall j :: |ps| <= j < |r| ==>
                  r[j].id in keys && r[j].id in ProductIds(catalogue) && r[j].id !in ProductIds(ps))
            && (forall a, b :: |ps| <= a < b < |r| ==> r[a].id < r[b].id)
    decreases |keys|
  {
    MergeKeysExtends(ps, catalogue, sel, keys);
    if keys != [] {
      var init := keys[..|keys| - 1];
      var k := keys[|keys| - 1];
      var mid := MergeKeys(ps, catalogue, sel, init);
      var r := MergeEntry(mid, catalogue, k, sel[k]);
      assert r == MergeKeys(ps, catalogue, sel, keys);
      MergeKeysAppendsInKeyOrder(ps, catalogue, sel, init);
      MergeKeysExtends(ps, catalogue, sel, init);
      MergeEntryExtends(mid, catalogue, k, sel[k]);
      MergeEntryTail(mid, catalogue, k, sel[k]);
      ExtendsKeepsIds(ps, mid);
      forall x | x in init ensures x < k && x in keys {
        var a :| 0 <= a < |init| && init[a] == x;
        assert keys[a] == x;
      }
      forall j | |ps| <= j < |r|
        ensures r[j].id in keys && r[j].id in ProductIds(catalogue) && r[j].id !in ProductIds(ps)
      {
        if j < |mid| { assert Grows(mid[j], r[j]); }
      }
      forall a, b | |ps| <= a < b < |r| ensures r[a].id < r[b].id {
        assert Grows(mid[a], r[a]);
        if b < |mid| { assert Grows(mid[b], r[b]); }
      }
    }
  }

  /** What confirming a selection does to the added list, as a whole: it
      only grows (earlier entries keep their place and fields, variants are
      only appended), it keeps the list's invariants, every selected
      catalogue product and variant ends up added, and the new entries are
      catalogue products appended in ascending id order. */
  lemma AddSelectedSpec(ps: seq<Product>, catalogue: seq<Product>, sel: Selection)
    requires ValidList(ps) && ValidList(catalogue)
    ensures var r := AddSelected(ps, catalogue, sel);
            && Extends(ps, r)
            && ValidList(r)
            && (forall pid, v ::
                  (pid in sel && FindById(catalogue, pid).Some? &&
                   v in FindById(catalogue, pid).value.variants && v.id in sel[pid]) ==>
                  IsVariantAdded(r, pid, v.id))
            && (forall pid :: pid in sel && pid in ProductIds(catalogue) ==> IsProductAdded(r, pid))
            && (forall j :: |ps| <= j < |r| ==>
                  r[j].id in sel && r[j].id in ProductIds(catalogue) && r[j].id !in ProductIds(ps))
            && (forall a, b :: |ps| <= a < b < |r| ==> r[a].id < r[b].id)
  {
    var keys := SortedKeys(sel.Keys);
    MergeKeysExtends(ps, catalogue, sel, keys);
    MergeKeysKeepsValid(ps, catalogue, sel, keys);
    MergeKeysAppendsInKeyOrder(ps, catalogue, sel, keys);
    forall pid | pid in sel && pid in ProductIds(catalogue)
      ensures IsProductAdded(AddSelected(ps, catalogue, sel), pid)
              && forall v :: v in FindById(catalogue, pid).value.variants && v.id in sel[pid] ==>
                   IsVariantAdded(AddSelected(ps, catalogue, sel), pid, v.id)
    {
      MergeKeysAddsSelected(ps, catalogue, sel, keys, pid, FindById(catalogue, pid).value);
    }
  }

  /** The updater handed to `setProducts` by handleAddProducts: walks the
      entries of the selection in `Object.entries` order, merging one entry
      at a time into a copy of the list. */
  method MergeSelection(start: seq<Product>, catalogue: seq<Product>, sel: Selection)
    returns (updated: seq<Product>)
    ensures updated == AddSelected(start, catalogue, sel)
  {
    var keys := SortedKeys(sel.Keys);
    updated := start;
    var i := 0;
    while i < |keys|
      invariant i <= |keys|
      invariant forall k :: k in keys ==> k in sel
      invariant updated == MergeKeys(start, catalogue, sel, keys[..i])
    {
      MergeKeysStep(start, catalogue, sel, keys, i);
      updated := MergeEntry(updated, catalogue, keys[i], sel[keys[i]]);
      i := i + 1;
    }
    assert keys[..i] == keys;
  }

  /** Merging one more key of `keys` applies that key's step to the merge
      of the keys before it. */
  lemma MergeKeysStep(ps: seq<Product>, catalogue: seq<Product>, sel: Selection, keys: seq<int>, i: nat)
    requires forall k :: k in keys ==> k in sel
    requires i < |keys|
    ensures keys[i] in sel
    ensures forall k :: k in keys[..i] ==> k in sel
    ensures MergeKeys(ps, catalogue, sel, keys[..i + 1])
            == MergeEntry(MergeKeys(ps, catalogue, sel, keys[..i]), catalogue, keys[i], sel[keys[i]])
  {
    var prefix := keys[..i + 1];
    assert |prefix| - 1 == i && prefix[i] == keys[i];
    assert prefix[..i] == keys[..i];
  }

  // ---------------------------------------------------------------------
  // updateProduct / updateVariant / removeProduct / removeVariant

  /** The `(field, value)` pairs the list's inputs send: the title, the
      discount and the discount type. */
  datatype Edit = SetTitle(title: string) | SetDiscount(discount: int) | SetDiscountType(discountType: DiscountType)

  /** `{ ...product, [field]: value }`. */
  function EditProduct(p: Product, e: Edit): (q: Product)
    ensures q.id == p.id && q.variants == p.variants && q.image == p.image
  {
    match e
    case SetTitle(t) => p.(title := t)
    case SetDiscount(d) => p.(discount := d)
    case SetDiscountType(t) => p.(discountType := t)
  }

  /** `{ ...variant, [field]: value }`. */
  function EditVariant(v: Variant, e: Edit): (w: Variant)
    ensures w.id == v.id && w.productId == v.productId && w.price == v.price
  {
    match e
    case SetTitle(t) => v.(title := t)
    case SetDiscount(d) => v.(discount := d)
    case SetDiscountType(t) => v.(discountType := t)
  }

  /** Edits one field of the product with id `id`; the list keeps its
      length, order and ids, and every other product is unchanged. */
  function UpdateProduct(ps: seq<Product>, id: int, e: Edit): (r: seq<Product>)
    ensures |r| == |ps|
    ensures forall i :: 0 <= i < |ps| ==> r[i].id == ps[i].id && r[i].variants == ps[i].variants
    ensures forall i :: 0 <= i < |ps| && ps[i].id != id ==> r[i] == ps[i]
    ensures forall i :: 0 <= i < |ps| && ps[i].id == id ==> r[i] == EditProduct(ps[i], e)
  {
    seq(|ps|, i requires 0 <= i < |ps| => if ps[i].id == id then EditProduct(ps[i], e) else ps[i])
  }

  /** Editing a product field keeps the list's invariants, is idempotent,
      and an unknown id changes nothing. */
  lemma UpdateProductSpec(ps: seq<Product>, id: int, e: Edit)
    ensures ValidList(ps) ==> ValidList(UpdateProduct(ps, id, e))
    ensures UpdateProduct(UpdateProduct(ps, id, e), id, e) == UpdateProduct(ps, id, e)
    ensures id !in ProductIds(ps) ==> UpdateProduct(ps, id, e) == ps
  {
    var r := UpdateProduct(ps, id, e);
    if ValidList(ps) {
      forall i | 0 <= i < |r| ensures WellFormed(r[i]) {
        assert WellFormed(ps[i]);
      }
    }
    forall i | 0 <= i < |ps| ensures EditProduct(EditProduct(ps[i], e), e) == EditProduct(ps[i], e) {
    }
    if id !in ProductIds(ps) {
      forall i | 0 <= i < |ps| ensures ps[i].id != id { assert ps[i] in ps; }
    }
  }

  /** Edits one field of variant `vid` of product `pid`; every product keeps
      its place and own fields, every variant its place and id. */
  function UpdateVariant(ps: seq<Product>, pid: int, vid: int, e: Edit): (r: seq<Product>)
    ensures |r| == |ps|
    ensures forall i :: 0 <= i < |ps| ==> r[i] == ps[i].(variants := r[i].variants)
    ensures forall i :: 0 <= i < |ps| && ps[i].id != pid ==> r[i] == ps[i]
    ensures forall i :: 0 <= i < |ps| && ps[i].id == pid ==>
              |r[i].variants| == |ps[i].variants|
              && forall j :: 0 <= j < |ps[i].variants| ==>
                   r[i].variants[j] == (if ps[i].variants[j].id == vid
                                        then EditVariant(ps[i].variants[j], e) else ps[i].variants[j])
  {
    seq(|ps|, i requires 0 <= i < |ps| =>
      if ps[i].id == pid then
        var vs := ps[i].variants;
        ps[i].(variants := seq(|vs|, j requires 0 <= j < |vs| =>
                                 if vs[j].id == vid then EditVariant(vs[j], e) else vs[j]))
      else ps[i])
  }

  /** Editing a variant field keeps the list's invariants. */
  lemma UpdateVariantKeepsValid(ps: seq<Product>, pid: int, vid: int, e: Edit)
    requires ValidList(ps)
    ensures ValidList(UpdateVariant(ps, pid, vid, e))
  {
    var r := UpdateVariant(ps, pid, vid, e);
    forall i | 0 <= i < |r| ensures WellFormed(r[i]) {
      assert WellFormed(ps[i]);
      if ps[i].id == pid {
        forall v | v in r[i].variants ensures v.productId == r[i].id {
          var j :| 0 <= j < |r[i].variants| && r[i].variants[j] == v;
          assert ps[i].variants[j] in ps[i].variants;
        }
      }
    }
  }

  /** `products.filter(p => p.id !== id)`. */
  function RemoveProduct(ps: seq<Product>, id: int): (r: seq<Product>)
    ensures forall p :: p in r <==> p in ps && p.id != id
    ensures IsSubseq(r, ps)
    ensures id !in ProductIds(r)
  {
    if ps == [] then []
    else
      var rest := RemoveProduct(ps[1..], id);
      assert ps == [ps[0]] + ps[1..];
      if ps[0].id != id then
        var r := [ps[0]] + rest;
        assert r[1..] == rest;
        r
      else rest
  }

  /** Removing a product from a list with distinct ids keeps the ids
      distinct, and drops exactly one entry when the id is present and
      none otherwise. */
  lemma {:induction false} RemoveProductSpec(ps: seq<Product>, id: int)
    requires UniqueProductIds(ps)
    ensures UniqueProductIds(RemoveProduct(ps, id))
    ensures |RemoveProduct(ps, id)| == if id in ProductIds(ps) then |ps| - 1 else |ps|
  {
    if ps != [] {
      var tail := ps[1..];
      UniqueSplit(ps);
      RemoveProductSpec(tail, id);
      var rest := RemoveProduct(tail, id);
      assert ps == [ps[0]] + tail;
      assert ProductIds(ps) == {ps[0].id} + ProductIds(tail);
      if ps[0].id != id {
        assert RemoveProduct(ps, id) == [ps[0]] + rest;
        assert ps[0].id !in ProductIds(rest) by {
          forall p | p in rest ensures p.id != ps[0].id { assert p in tail; }
        }
        UniqueCons(ps[0], rest);
      } else {
        assert RemoveProduct(ps, id) == rest;
      }
    }
  }

  /** The tail of a list with distinct ids has distinct ids, none of them the head's. */
  lemma UniqueSplit(ps: seq<Product>)
    requires UniqueProductIds(ps) && ps != []
    ensures UniqueProductIds(ps[1..]) && ps[0].id !in ProductIds(ps[1..])
  {
    forall p | p in ps[1..] ensures p.id != ps[0].id {
      var k :| 0 <= k < |ps[1..]| && ps[1..][k] == p;
      assert ps[k + 1] == p;
    }
  }

  /** A product whose id is fresh can be put in front of a list with distinct ids. */
  lemma UniqueCons(p: Product, rest: seq<Product>)
    requires UniqueProductIds(rest) && p.id !in ProductIds(rest)
    ensures UniqueProductIds([p] + rest)
  {
    var r := [p] + rest;
    forall a, b | 0 <= a < b < |r| ensures r[a].id != r[b].id {
      if a > 0 { assert r[a] == rest[a - 1] && r[b] == rest[b - 1]; }
      else { assert r[b] == rest[b - 1]; assert rest[b - 1] in rest; }
    }
  }

  lemma RemoveProductKeepsValid(ps: seq<Product>, id: int)
    requires ValidList(ps)
    ensures ValidList(RemoveProduct(ps, id))
  {
    RemoveProductSpec(ps, id);
    var r := RemoveProduct(ps, id);
    forall a | 0 <= a < |r| ensures WellFormed(r[a]) {
      assert r[a] in ps;
      var k :| 0 <= k < |ps| && ps[k] == r[a];
    }
  }

  /** `{ ...product, variants: product.variants.filter(v => v.id !== vid) }`
      on the product with id `pid`. */
  function RemoveVariant(ps: seq<Product>, pid: int, vid: int): (r: seq<Product>)
    ensures |r| == |ps|
    ensures forall i :: 0 <= i < |ps| ==> r[i] == ps[i].(variants := r[i].variants)
    ensures forall i :: 0 <= i < |ps| && ps[i].id != pid ==> r[i] == ps[i]
    ensures forall i :: 0 <= i < |ps| && ps[i].id == pid ==>
              (forall v :: v in r[i].variants <==> v in ps[i].variants && v.id != vid)
              && (forall v :: multiset(r[i].variants)[v] == if v.id == vid then 0 else multiset(ps[i].variants)[v])
              && IsSubseq(r[i].variants, ps[i].variants)
  {
    var r := seq(|ps|, i requires 0 <= i < |ps| =>
      if ps[i].id == pid
      then ps[i].(variants := FilterIds(ps[i].variants, VariantIds(ps[i].variants) - {vid}))
      else ps[i]);
    assert forall i :: 0 <= i < |ps| && ps[i].id == pid ==>
             forall v :: multiset(r[i].variants)[v] == if v.id == vid then 0 else multiset(ps[i].variants)[v] by {
      forall i | 0 <= i < |ps| && ps[i].id == pid {
        FilterIdsCount(ps[i].variants, VariantIds(ps[i].variants) - {vid});
      }
    }
    r
  }

  /** Removing a variant keeps the list's invariants, and removing a
      product's last variant leaves the product in place with no variants. */
  lemma RemoveVariantSpec(ps: seq<Product>, pid: int, vid: int)
    ensures ValidList(ps) ==> ValidList(RemoveVariant(ps, pid, vid))
    ensures forall i :: 0 <= i < |ps| && ps[i].id == pid && VariantIds(ps[i].variants) <= {vid} ==>
              RemoveVariant(ps, pid, vid)[i] == ps[i].(variants := [])
  {
    var r := RemoveVariant(ps, pid, vid);
    if ValidList(ps) {
      forall i | 0 <= i < |r| ensures WellFormed(r[i]) {
        assert WellFormed(ps[i]);
      }
    }
    forall i | 0 <= i < |ps| && ps[i].id == pid && VariantIds(ps[i].variants) <= {vid}
      ensures r[i].variants == []
    {
      forall v | v in ps[i].variants ensures v.id == vid {
        assert v.id in VariantIds(ps[i].variants);
      }
      FilterIdsNone(ps[i].variants, VariantIds(ps[i].variants) - {vid});
    }
  }

  // ---------------------------------------------------------------------
  // onDragEnd

  /** `splice(dst, 0, x)` inserts at `dst`, or at the end past it. */
  function Clamp(dst: nat, n: nat): nat
  {
    if dst < n then dst else n
  }

  /** The index in the original sequence that a moved sequence holds at `k`. */
  function MoveSource(src: nat, d: nat, k: nat): nat
  {
    if k < d then (if k < src then k else k + 1)
    else if k == d then src
    else (if k - 1 < src then k - 1 else k)
  }

  /** `const [x] = s.splice(src, 1); s.splice(dst, 0, x)`: the same
      elements, reordered (see `MoveIndex` for where each one goes). */
  function Move<T>(s: seq<T>, src: nat, dst: nat): (r: seq<T>)
    requires src < |s|
    ensures |r| == |s|
    ensures multiset(r) == multiset(s)
  {
    var x := s[src];
    var rest := s[..src] + s[src + 1..];
    var d := Clamp(dst, |rest|);
    var r := rest[..d] + [x] + rest[d..];
    assert s == s[..src] + [x] + s[src + 1..];
    assert multiset(s) == multiset(s[..src]) + multiset([x]) + multiset(s[src + 1..]);
    assert multiset(rest) == multiset(s[..src]) + multiset(s[src + 1..]);
    assert rest == rest[..d] + rest[d..];
    assert multiset(rest) == multiset(rest[..d]) + multiset(rest[d..]);
    assert multiset(r) == multiset(rest[..d]) + multiset([x]) + multiset(rest[d..]);
    assert multiset(r) == multiset(rest) + multiset([x]);
    r
  }

  /** Where a move puts each element: position `k` of the result holds the
      original element at `MoveSource(src, d, k)`, and the moved element
      lands at the destination `d` (clamped to the last index). */
  lemma MoveIndex<T>(s: seq<T>, src: nat, dst: nat)
    requires src < |s|
    ensures var d := Clamp(dst, |s| - 1);
            && (forall k :: 0 <= k < |s| ==>
                  MoveSource(src, d, k) < |s| && Move(s, src, dst)[k] == s[MoveSource(src, d, k)])
            && Move(s, src, dst)[d] == s[src]
  {
    var x := s[src];
    var rest := s[..src] + s[src + 1..];
    var d := Clamp(dst, |rest|);
    var r := Move(s, src, dst);
    assert r == rest[..d] + [x] + rest[d..];
    forall k | 0 <= k < |s| ensures MoveSource(src, d, k) < |s| && r[k] == s[MoveSource(src, d, k)] {
      if k < d {
        assert r[k] == rest[k];
      } else if k > d {
        assert r[k] == rest[k - 1];
      }
    }
  }

  lemma MoveSourceInjective(src: nat, d: nat, n: nat, a: nat, b: nat)
    requires src < n && d < n && a < n && b < n && a != b
    ensures MoveSource(src, d, a) != MoveSource(src, d, b)
  {
  }

  /** Moving an element and then moving it back from where it landed
      restores the original order. */
  lemma MoveBack<T>(s: seq<T>, src: nat, dst: nat)
    requires src < |s|
    ensures Move(Move(s, src, dst), Clamp(dst, |s| - 1), src) == s
  {
    var n := |s|;
    var d := Clamp(dst, n - 1);
    var t := Move(s, src, dst);
    var u := Move(t, d, src);
    MoveIndex(s, src, dst);
    MoveIndex(t, d, src);
    assert Clamp(src, n - 1) == src;
    forall k | 0 <= k < n ensures u[k] == s[k] {
      var j := MoveSource(d, src, k);
      assert u[k] == t[j];
      MoveSourceInverse(src, d, n, k);
      assert t[j] == s[MoveSource(src, d, j)];
    }
  }

  lemma MoveSourceInverse(src: nat, d: nat, n: nat, k: nat)
    requires src < n && d < n && k < n
    ensures MoveSource(d, src, k) < n && MoveSource(src, d, MoveSource(d, src, k)) == k
  {
  }

  /** A move keeps product ids distinct and every product well-formed. */
  lemma MoveKeepsValid(ps: seq<Product>, src: nat, dst: nat)
    requires ValidList(ps) && src < |ps|
    ensures ValidList(Move(ps, src, dst))
  {
    var d := Clamp(dst, |ps| - 1);
    var r := Move(ps, src, dst);
    MoveIndex(ps, src, dst);
    forall a, b | 0 <= a < b < |r| ensures r[a].id != r[b].id {
      MoveSourceInjective(src, d, |ps|, a, b);
    }
  }

  /** A move keeps variant ids distinct. */
  lemma MoveKeepsUniqueVariants(vs: seq<Variant>, src: nat, dst: nat)
    requires UniqueVariantIds(vs) && src < |vs|
    ensures UniqueVariantIds(Move(vs, src, dst))
  {
    var d := Clamp(dst, |vs| - 1);
    var r := Move(vs, src, dst);
    MoveIndex(vs, src, dst);
    forall a, b | 0 <= a < b < |r| ensures r[a].id != r[b].id {
      MoveSourceInjective(src, d, |vs|, a, b);
    }
  }

  datatype DragKind = ProductDrag | VariantDrag | OtherDrag

  /** The drop record that reaches onDragEnd: `type`, `source.index`,
      `source.droppableId` and `destination?.index`. */
  datatype DragResult = DragResult(kind: DragKind, sourceIndex: nat, sourceDroppableId: string, destination: Option<nat>)

  /** `` `variants-${product.id}` ``: the id of a product's variant drop area. */
  function VariantsDroppableId(pid: nat): (d: string)
    ensures |d| > 9 && d[..9] == "variants-" && AllDigits(d[9..])
  {
    "variants-" + NatToString(pid)
  }

  /** `parseInt(droppableId.split('-')[1])`; `None` for `NaN`. */
  function DroppableProductId(droppableId: string): (r: Option<int>)
    ensures '-' !in droppableId ==> r.None?
    ensures r.Some? ==> r.value >= 0
  {
    match SecondField(droppableId)
    case None => None
    case Some(f) => ParseInt(f)
  }

  /** The product id is read back from its own drop area's id. */
  lemma DroppableIdRoundTrip(pid: nat)
    ensures DroppableProductId(VariantsDroppableId(pid)) == Some(pid)
  {
    var digits := NatToString(pid);
    forall i | 0 <= i < |digits| ensures digits[i] != '-' {
      assert IsDigit(digits[i]);
    }
    assert VariantsDroppableId(pid) == "variants" + "-" + digits;
    SecondFieldOfJoin("variants", digits);
    ParseIntRoundTrip(pid);
  }

  /** The drop area of a product with a negative id is `variants--n`, whose
      second `-` field is empty: it parses to `NaN`, so its variants cannot
      be reordered. */
  lemma NegativeIdNotParsed(n: nat)
    ensures DroppableProductId("variants-" + "-" + NatToString(n)) == None
  {
    assert "variants-" + "-" + NatToString(n) == "variants" + "-" + ("-" + NatToString(n));
    var s := "variants" + "-" + ("-" + NatToString(n));
    assert s[8] == '-';
    assert s[..8] == "variants";
    SecondFieldPrefix(s, 8);
  }

  lemma {:induction false} SecondFieldPrefix(s: string, n: nat)
    requires n < |s| && s[n] == '-' && '-' !in s[..n] && n + 1 < |s| && s[n + 1] == '-'
    ensures SecondField(s) == Some("")
  {
    if n > 0 {
      assert s[0] != '-' by { assert s[..n][0] == s[0]; }
      assert s[1..][..n - 1] == s[..n][1..];
      SecondFieldPrefix(s[1..], n - 1);
    }
  }

  /** `prevProducts.map(p => p.id === pid ? { ...p, variants: vs } : p)`. */
  function ReplaceVariants(ps: seq<Product>, pid: int, vs: seq<Variant>): (r: seq<Product>)
    ensures |r| == |ps|
    ensures forall i :: 0 <= i < |ps| ==> r[i] == (if ps[i].id == pid then ps[i].(variants := vs) else ps[i])
  {
    seq(|ps|, i requires 0 <= i < |ps| => if ps[i].id == pid then ps[i].(variants := vs) else ps[i])
  }

  /** Two lists with the same elements carry the same product ids. */
  lemma SameElementsSameIds(a: seq<Product>, b: seq<Product>)
    requires multiset(a) == multiset(b)
    ensures ProductIds(a) == ProductIds(b)
  {
    forall p ensures p in a <==> p in b {
      assert p in a <==> p in multiset(a);
      assert p in b <==> p in multiset(b);
    }
  }

  /** The products after a drop. With no destination nothing changes; a
      product drop moves one product; a variant drop moves one variant of
      the product named by the source drop area. A source index outside the
      list is a no-op here. */
  function DragOutcome(ps: seq<Product>, r: DragResult): (out: seq<Product>)
    ensures |out| == |ps| && ProductIds(out) == ProductIds(ps)
  {
    if r.destination.None? then ps
    else
      match r.kind
      case ProductDrag =>
        if r.sourceIndex < |ps| then
          var moved := Move(ps, r.sourceIndex, r.destination.value);
          SameElementsSameIds(moved, ps);
          moved
        else ps
      case VariantDrag =>
        (match DroppableProductId(r.sourceDroppableId)
         case None => ps
         case Some(pid) =>
           match FindById(ps, pid)
           case None => ps
           case Some(p) =>
             if r.sourceIndex < |p.variants|
             then ReplaceVariants(ps, pid, Move(p.variants, r.sourceIndex, r.destination.value))
             else ps)
      case OtherDrag => ps
  }

  /** A drop outside any drop area, or of a type other than the two the
      list declares, leaves the products as they were. */
  lemma DropWithoutDestinationIsNoop(ps: seq<Product>, r: DragResult)
    requires r.destination.None? || r.kind.OtherDrag?
    ensures DragOutcome(ps, r) == ps
  {
  }

  /** A product drop permutes the list, puts the dragged product at the
      destination, and dragging it back from there restores the list. */
  lemma ProductDragPermutes(ps: seq<Product>, src: nat, dst: nat)
    requires src < |ps| && dst < |ps|
    ensures var r := DragOutcome(ps, DragResult(ProductDrag, src, "products", Some(dst)));
            && |r| == |ps| && multiset(r) == multiset(ps) && r[dst] == ps[src]
            && DragOutcome(r, DragResult(ProductDrag, dst, "products", Some(src))) == ps
  {
    MoveBack(ps, src, dst);
    MoveIndex(ps, src, dst);
  }

  /** A variant drop that names a listed product applies the splice move to
      that product's variants and installs the result on every entry with
      its id. */
  lemma VariantDragMoves(ps: seq<Product>, r: DragResult, pid: int, p: Product)
    requires r.destination.Some? && r.kind == VariantDrag
    requires DroppableProductId(r.sourceDroppableId) == Some(pid)
    requires FindById(ps, pid) == Some(p) && r.sourceIndex < |p.variants|
    ensures DragOutcome(ps, r) == ReplaceVariants(ps, pid, Move(p.variants, r.sourceIndex, r.destination.value))
  {
  }

  /** A variant drop reorders only the variants of the product whose id is
      parsed from the source drop area, by the same splice move as a product
      drop; every other product, and that product's own fields, are
      unchanged. */
  lemma VariantDragScoped(ps: seq<Product>, r: DragResult)
    requires UniqueProductIds(ps)
    requires r.kind == VariantDrag
    ensures |DragOutcome(ps, r)| == |ps|
    ensures var out := DragOutcome(ps, r);
            forall i :: 0 <= i < |ps| ==> out[i] == ps[i].(variants := out[i].variants)
    ensures var out := DragOutcome(ps, r);
            forall i :: 0 <= i < |ps| ==>
              (r.destination.Some? && DroppableProductId(r.sourceDroppableId) == Some(ps[i].id)) || out[i] == ps[i]
    ensures var out := DragOutcome(ps, r);
            forall i :: 0 <= i < |ps| ==> multiset(out[i].variants) == multiset(ps[i].variants)
    ensures var out := DragOutcome(ps, r);
            forall i ::
              (0 <= i < |ps| && r.destination.Some? && r.sourceIndex < |ps[i].variants| &&
               DroppableProductId(r.sourceDroppableId) == Some(ps[i].id)) ==>
                out[i].variants == Move(ps[i].variants, r.sourceIndex, r.destination.value)
  {
    if r.destination.Some? && DroppableProductId(r.sourceDroppableId).Some? {
      var pid := DroppableProductId(r.sourceDroppableId).value;
      var k := IndexOfId(ps, pid);
      FindAtIndex(ps, pid);
      if k != -1 && r.sourceIndex < |ps[k].variants| {
        VariantDragAt(ps, r, k);
        var m := Move(ps[k].variants, r.sourceIndex, r.destination.value);
        var out := ReplaceVariants(ps, pid, m);
        forall i | 0 <= i < |ps|
          ensures out[i] == (if i == k then ps[i].(variants := m) else ps[i])
        {
          if ps[i].id == pid { assert i == k; }
        }
      } else if k == -1 {
        assert FindById(ps, pid).None?;
      } else {
        assert FindById(ps, pid) == Some(ps[k]);
      }
    }
  }

  /** With distinct ids, a variant drop naming the product at `k` applies
      the splice move to that product's variants. */
  lemma VariantDragAt(ps: seq<Product>, r: DragResult, k: nat)
    requires UniqueProductIds(ps) && k < |ps|
    requires r.kind == VariantDrag && r.destination.Some?
    requires DroppableProductId(r.sourceDroppableId) == Some(ps[k].id)
    requires r.sourceIndex < |ps[k].variants|
    ensures DragOutcome(ps, r)
            == ReplaceVariants(ps, ps[k].id, Move(ps[k].variants, r.sourceIndex, r.destination.value))
  {
    IndexOfUnique(ps, k);
    FindAtIndex(ps, ps[k].id);
    VariantDragMoves(ps, r, ps[k].id, ps[k]);
  }

  /** Installing a variant list keeps every entry's id, so distinct ids
      stay distinct. */
  lemma ReplaceVariantsKeepsUnique(ps: seq<Product>, pid: int, vs: seq<Variant>)
    requires UniqueProductIds(ps)
    ensures UniqueProductIds(ReplaceVariants(ps, pid, vs))
  {
    var out := ReplaceVariants(ps, pid, vs);
    forall i, j | 0 <= i < j < |out| ensures out[i].id != out[j].id {
      assert out[i].id == ps[i].id && out[j].id == ps[j].id;
    }
  }

  /** With distinct ids, reinstalling a product's own variants undoes
      installing others. */
  lemma ReplaceVariantsBack(ps: seq<Product>, k: nat, vs: seq<Variant>)
    requires UniqueProductIds(ps) && k < |ps|
    ensures ReplaceVariants(ReplaceVariants(ps, ps[k].id, vs), ps[k].id, ps[k].variants) == ps
  {
    var back := ReplaceVariants(ReplaceVariants(ps, ps[k].id, vs), ps[k].id, ps[k].variants);
    forall i | 0 <= i < |ps| ensures back[i] == ps[i] {
      if ps[i].id == ps[k].id {
        assert i == k;
      }
    }
  }

  /** Dragging a variant of a listed product from `src` to `dst` in that
      product's own drop area puts it at `dst`, and dragging it back from
      `dst` to `src` restores the list. */
  lemma VariantDragBack(ps: seq<Product>, k: nat, area: string, src: nat, dst: nat)
    requires UniqueProductIds(ps)
    requires k < |ps| && src < |ps[k].variants| && dst < |ps[k].variants|
    requires DroppableProductId(area) == Some(ps[k].id)
    ensures DragOutcome(ps, DragResult(VariantDrag, src, area, Some(dst)))[k].variants[dst] == ps[k].variants[src]
    ensures var out := DragOutcome(ps, DragResult(VariantDrag, src, area, Some(dst)));
            DragOutcome(out, DragResult(VariantDrag, dst, area, Some(src))) == ps
  {
    var pid := ps[k].id;
    var vs := ps[k].variants;
    var m := Move(vs, src, dst);
    VariantDragAt(ps, DragResult(VariantDrag, src, area, Some(dst)), k);
    var out := ReplaceVariants(ps, pid, m);
    assert out[k] == ps[k].(variants := m);
    assert Clamp(dst, |vs| - 1) == dst;
    MoveIndex(vs, src, dst);
    ReplaceVariantsKeepsUnique(ps, pid, m);
    VariantDragAt(out, DragResult(VariantDrag, dst, area, Some(src)), k);
    MoveBack(vs, src, dst);
    assert Move(m, dst, src) == vs;
    ReplaceVariantsBack(ps, k, m);
  }

  /** An unknown product id in a variant drop changes nothing. */
  lemma VariantDragUnknownId(ps: seq<Product>, r: DragResult)
    requires r.kind == VariantDrag
    requires forall pid :: DroppableProductId(r.sourceDroppableId) == Some(pid) ==> pid !in ProductIds(ps)
    ensures DragOutcome(ps, r) == ps
  {
  }

  /** Replacing one product's variants by a well-formed list keeps the
      list's invariants. */
  lemma ReplaceVariantsKeepsValid(ps: seq<Product>, pid: int, vs: seq<Variant>)
    requires ValidList(ps)
    requires UniqueVariantIds(vs) && forall v :: v in vs ==> v.productId == pid
    ensures ValidList(ReplaceVariants(ps, pid, vs))
  {
    var out := ReplaceVariants(ps, pid, vs);
    forall i | 0 <= i < |out| ensures WellFormed(out[i]) {
      assert WellFormed(ps[i]);
    }
  }

  /** A variant move keeps the product well-formed. */
  lemma MoveKeepsWellFormed(p: Product, src: nat, dst: nat)
    requires WellFormed(p) && src < |p.variants|
    ensures var vs := Move(p.variants, src, dst);
            UniqueVariantIds(vs) && forall v :: v in vs ==> v.productId == p.id
  {
    var vs := Move(p.variants, src, dst);
    MoveKeepsUniqueVariants(p.variants, src, dst);
    forall v | v in vs ensures v.productId == p.id {
      assert v in multiset(vs);
      assert v in multiset(p.variants);
    }
  }

  /** Every drop keeps the list's invariants. */
  lemma DragKeepsValid(ps: seq<Product>, r: DragResult)
    requires ValidList(ps)
    ensures ValidList(DragOutcome(ps, r))
  {
    if r.destination.Some? {
      match r.kind
      case ProductDrag =>
        if r.sourceIndex < |ps| { MoveKeepsValid(ps, r.sourceIndex, r.destination.value); }
      case VariantDrag =>
        var pidOpt := DroppableProductId(r.sourceDroppableId);
        if pidOpt.Some? {
          var pid := pidOpt.value;
          var f := FindById(ps, pid);
          if f.Some? && r.sourceIndex < |f.value.variants| {
            var p := f.value;
            var k :| 0 <= k < |ps| && ps[k] == p && forall j :: 0 <= j < k ==> ps[j].id != pid;
            assert WellFormed(ps[k]);
            MoveKeepsWellFormed(p, r.sourceIndex, r.destination.value);
            ReplaceVariantsKeepsValid(ps, pid, Move(p.variants, r.sourceIndex, r.destination.value));
          }
        }
      case OtherDrag =>
    }
  }

  // ---------------------------------------------------------------------
  // Checkboxes of the list's own picker dialog

  /** What a checkbox shows: ticked, greyed out, and whether it has a
      change handler at all. */
  datatype Checkbox = Checkbox(checked: bool, disabled: bool, toggles: bool)

  /** The product checkbox: ticked when selected or already added, disabled
      when already added. */
  function ListProductCheckbox(products: seq<Product>, sel: Selection, pid: int): (c: Checkbox)
    ensures c.disabled <==> IsProductAdded(products, pid)
    ensures c.checked <==> pid in sel || IsProductAdded(products, pid)
  {
    Checkbox(pid in sel || IsProductAdded(products, pid), IsProductAdded(products, pid), true)
  }

  /** The variant checkbox: ticked when pending or already added, disabled
      when already added. */
  function ListVariantCheckbox(products: seq<Product>, sel: Selection, pid: int, vid: int): (c: Checkbox)
    ensures c.disabled <==> IsVariantAdded(products, pid, vid)
    ensures c.checked <==> (pid in sel && vid in sel[pid]) || IsVariantAdded(products, pid, vid)
  {
    Checkbox((pid in sel && vid in sel[pid]) || IsVariantAdded(products, pid, vid),
             IsVariantAdded(products, pid, vid), true)
  }

  // ---------------------------------------------------------------------
  // The component's state

  /** The body of toggleVariantSelection on the product's array: find the
      index, then splice the variant out or push it. */
  method SpliceOrPush(list: seq<int>, x: int) returns (r: seq<int>)
    ensures r == if x in list then RemoveFirst(list, x) else list + [x]
  {
    var index := IndexOf(list, x);
    if index > -1 {
      SpliceAtIndexOf(list, x);
      r := list[..index] + list[index + 1..];
    } else {
      r := list + [x];
    }
  }

  class ProductListState {
    /** The catalogue literal the component picks from. */
    const catalogue: seq<Product>
    var products: seq<Product>
    var selectedItems: Selection
    var showProductModal: bool
    var searchTerm: string
    var showVariants: map<int, bool>

    ghost predicate Valid()
      reads this
    {
      ValidList(catalogue) && ValidList(products) && SelectionValid(selectedItems)
    }

    /** Mount: nothing added, and the mount effect derives `selectedItems`
        from the (still empty) added list. */
    constructor (catalogue: seq<Product>)
      requires ValidList(catalogue)
      ensures Valid()
      ensures this.catalogue == catalogue
      ensures products == [] && selectedItems == map[] && !showProductModal
      ensures searchTerm == "" && showVariants == map[]
    {
      this.catalogue := catalogue;
      products := [];
      selectedItems := map[];
      showProductModal := false;
      searchTerm := "";
      showVariants := map[];
    }

    method ToggleProductSelection(product: Product)
      requires Valid()
      modifies this
      ensures Valid()
      ensures selectedItems == ToggleProduct(old(selectedItems), product.id)
      ensures products == old(products) && showProductModal == old(showProductModal)
      ensures searchTerm == old(searchTerm) && showVariants == old(showVariants)
    {
      ToggleProductKeepsValid(selectedItems, product.id);
      selectedItems := ToggleProduct(selectedItems, product.id);
    }

    method ToggleVariantSelection(productId: int, variantId: int)
      requires Valid()
      modifies this
      ensures Valid()
      ensures selectedItems == ToggleVariant(old(selectedItems), productId, variantId)
      ensures products == old(products) && showProductModal == old(showProductModal)
      ensures searchTerm == old(searchTerm) && showVariants == old(showVariants)
    {
      ToggleVariantKeepsValid(selectedItems, productId, variantId);
      var list := SpliceOrPush(Pending(selectedItems, productId), variantId);
      selectedItems := selectedItems[productId := list];
    }

    /** Confirming the picker: every selection entry, in ascending key
        order, is merged into the list; then the dialog closes and the
        selection is cleared. */
    method HandleAddProducts()
      requires Valid()
      modifies this
      ensures Valid()
      ensures products == AddSelected(old(products), catalogue, old(selectedItems))
      ensures selectedItems == map[] && !showProductModal
      ensures searchTerm == old(searchTerm) && showVariants == old(showVariants)
    {
      AddSelectedSpec(products, catalogue, selectedItems);
      var updated := MergeSelection(products, catalogue, selectedItems);
      products := updated;
      showProductModal := false;
      selectedItems := map[];
    }

    method UpdateProductField(id: int, e: Edit)
      requires Valid()
      modifies this
      ensures Valid()
      ensures products == UpdateProduct(old(products), id, e)
      ensures selectedItems == old(selectedItems) && showProductModal == old(showProductModal)
      ensures searchTerm == old(searchTerm) && showVariants == old(showVariants)
    {
      UpdateProductSpec(products, id, e);
      products := UpdateProduct(products, id, e);
    }

    method UpdateVariantField(productId: int, variantId: int, e: Edit)
      requires Valid()
      modifies this
      ensures Valid()
      ensures products == UpdateVariant(old(products), productId, variantId, e)
      ensures selectedItems == old(selectedItems) && showProductModal == old(showProductModal)
      ensures searchTerm == old(searchTerm) && showVariants == old(showVariants)
    {
      UpdateVariantKeepsValid(products, productId, variantId, e);
      products := UpdateVariant(products, productId, variantId, e);
    }

    method RemoveProductById(id: int)
      requires Valid()
      modifies this
      ensures Valid()
      ensures products == RemoveProduct(old(products), id)
      ensures selectedItems == old(selectedItems) && showProductModal == old(showProductModal)
      ensures searchTerm == old(searchTerm) && showVariants == old(showVariants)
    {
      RemoveProductKeepsValid(products, id);
      products := RemoveProduct(products, id);
    }

    method RemoveVariantById(productId: int, variantId: int)
      requires Valid()
      modifies this
      ensures Valid()
      ensures products == RemoveVariant(old(products), productId, variantId)
      ensures selectedItems == old(selectedItems) && showProductModal == old(showProductModal)
      ensures searchTerm == old(searchTerm) && showVariants == old(showVariants)
    {
      RemoveVariantSpec(products, productId, variantId);
      products := RemoveVariant(products, productId, variantId);
    }

    method OnDragEnd(result: DragResult)
      requires Valid()
      modifies this
      ensures Valid()
      ensures products == DragOutcome(old(products), result)
      ensures selectedItems == old(selectedItems) && showProductModal == old(showProductModal)
      ensures searchTerm == old(searchTerm) && showVariants == old(showVariants)
    {
      DragKeepsValid(products, result);
      products := DragOutcome(products, result);
    }

    /** The "Show variants" / "Hide variants" switch of one product. */
    method ToggleVariants(productId: int)
      requires Valid()
      modifies this
      ensures Valid()
      ensures showVariants == old(showVariants)[productId := !(productId in old(showVariants) && old(showVariants)[productId])]
      ensures products == old(products) && selectedItems == old(selectedItems)
      ensures showProductModal == old(showProductModal) && searchTerm == old(searchTerm)
    {
      showVariants := showVariants[productId := !(productId in showVariants && showVariants[productId])];
    }

    /** "Add Product", "Cancel" and the dialog's own close. */
    method SetShowProductModal(open: bool)
      requires Valid()
      modifies this
      ensures Valid()
      ensures showProductModal == open
      ensures products == old(products) && selectedItems == old(selectedItems)
      ensures searchTerm == old(searchTerm) && showVariants == old(showVariants)
    {
      showProductModal := open;
    }

    method SetSearchTerm(term: string)
      requires Valid()
      modifies this
      ensures Valid()
      ensures searchTerm == term
      ensures products == old(products) && selectedItems == old(selectedItems)
      ensures showProductModal == old(showProductModal) && showVariants == old(showVariants)
    {
      searchTerm := term;
    }

    /** The catalogue rows the dialog lists: the catalogue products whose
        title contains the search term, ignoring ASCII case, in catalogue
        order. */
    function FilteredCatalogue(): (r: seq<Product>)
      reads this
      ensures forall p :: p in r <==> p in catalogue && TitleMatches(p, searchTerm)
      ensures IsSubseq(r, catalogue)
    {
      FilterByTitle(catalogue, searchTerm)
    }
  }
}
