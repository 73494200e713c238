/** The CMS database as one object, and each service transaction as one
    atomic method on it (cms-server/src/core/products/product.service.ts,
    variants/variant.service.ts, offers/offer.service.ts,
    shipping/shipping.service.ts, and upsertOffers of
    parser-server/src/core/shop/shop.service.ts).

    A method computes the new tables on locals, in the order of the source's
    queries, and assigns the fields only when every step succeeded, so a
    failed transaction leaves the store as it was. Created rows take their
    ids from `nextId` on, as the database's sequence hands them out. */
module Database {
  import opened Wrappers
  import opened Reorder
  import opened Catalog
  import opened Matrix
  import opened Products
  import opened Images
  import opened Shipping
  import opened Shop
  import opened Offers
  import opened Variants

  // ---------------------------------------------------------------------
  // Product rows
  // ---------------------------------------------------------------------

  /** `product.delete({ where: { id } })`. */
  function WithoutProduct(products: seq<Product>, id: Id): (r: seq<Product>)
    ensures forall p :: p in r <==> p in products && p.id != id
  {
    if products == [] then []
    else (if products[0].id == id then [] else [products[0]]) + WithoutProduct(products[1..], id)
  }

  /** `product.update` of the title, SKU and barcode, where given. */
  function WithProductFields(products: seq<Product>, id: Id, title: Option<string>,
                             sku: Field<Option<string>>, barcode: Field<Option<string>>): (r: seq<Product>)
    ensures |r| == |products|
    ensures forall i :: 0 <= i < |r| && products[i].id != id ==> r[i] == products[i]
    ensures forall i :: 0 <= i < |r| && products[i].id == id ==>
      r[i] == Product(id, title.GetOr(products[i].title), sku.Or(products[i].sku), barcode.Or(products[i].barcode))
  {
    seq(|products|, i requires 0 <= i < |products| =>
      var p := products[i];
      if p.id == id then p.(title := title.GetOr(p.title), sku := sku.Or(p.sku), barcode := barcode.Or(p.barcode)) else p)
  }

  /** The ids of a product's options. */
  function OptionIdsOf(options: seq<Row<OptionData>>, productId: Id): (r: set<Id>)
    ensures forall id :: id in r <==> exists o :: o in options && InScope(o, productId) && o.id == id
  {
    set o | o in options && InScope(o, productId) :: o.id
  }

  /** The values whose option is not among the deleted ones (the cascade). */
  function ValuesOutside(values: seq<Row<string>>, optionIds: set<Id>): (r: seq<Row<string>>)
    ensures forall x :: x in r <==> x in values && !(x.scope.Some? && x.scope.value in optionIds)
  {
    if values == [] then []
    else
      var x := values[0];
      (if x.scope.Some? && x.scope.value in optionIds then [] else [x]) + ValuesOutside(values[1..], optionIds)
  }

  /** The product's offers lose their product (`ON DELETE SET NULL`). */
  function ProductCleared(offers: seq<Offer>, productId: Id): (r: seq<Offer>)
    ensures |r| == |offers|
    ensures forall i :: 0 <= i < |r| ==> r[i].(productId := offers[i].productId) == offers[i]
    ensures forall i :: 0 <= i < |r| ==> r[i].productId != Some(productId)
  {
    seq(|offers|, i requires 0 <= i < |offers| =>
      if offers[i].productId == Some(productId) then offers[i].(productId := None) else offers[i])
  }

  /** How many variants a regeneration creates. */
  function GeneratedCount(options: seq<Row<OptionData>>, values: seq<Row<string>>, productId: Id): nat
  {
    if Inside(options, productId) == [] then 0 else |ProductTuples(options, values, productId)|
  }

  // ---------------------------------------------------------------------
  // updateOption, step by step
  // ---------------------------------------------------------------------

  /** The tables updateOption reads and writes, with the next free id. */
  datatype Catalogue = Catalogue(options: seq<Row<OptionData>>, values: seq<Row<string>>,
                                 variants: seq<Variant>, offers: seq<Offer>, nextId: nat)

  /** `reorderOptionValue`: the value and its target position. */
  datatype Reposition = Reposition(id: Id, position: int)

  /** An option edit: the new title and position, the value titles to
      create, the renames, one value move, and the values to delete. */
  datatype OptionEdit = OptionEdit(title: Option<string>, position: Option<int>, created: seq<string>,
                                   renames: seq<Rename>, reorder: Option<Reposition>, deleted: Option<seq<Id>>)

  /** `option.update` with the nested `createMany` of values: the option
      must exist, its title must be free in its product, and the new value
      titles must be distinct and new to the option; they are appended after
      the option's last value. */
  function EditOption(c: Catalogue, optionId: Id, title: Option<string>, created: seq<string>): (r: Result<Catalogue, Error>)
    ensures FindRow(c.options, optionId).None? ==> r == Failure(ServerError)
    ensures r.Success? ==>
      && r.value.options == WithOptionTitle(c.options, optionId, title.GetOr(FindRow(c.options, optionId).value.data.title))
      && r.value.values == Appended(c.values, optionId, c.nextId, created)
      && r.value.variants == c.variants && r.value.offers == c.offers
      && r.value.nextId == c.nextId + |created|
  {
    match FindRow(c.options, optionId)
    case None => Failure(ServerError)
    case Some(option) =>
      if (title.Some? && OptionTitleTaken(c.options, option.scope, Some(optionId), title.value))
         || HasRepeats(created) || AnyTitleUsed(c.values, optionId, created)
      then Failure(NotUnique)
      else Success(c.(options := WithOptionTitle(c.options, optionId, title.GetOr(option.data.title)),
                      values := Appended(c.values, optionId, c.nextId, created),
                      nextId := c.nextId + |created|))
  }

  function RenameValues(c: Catalogue, productId: Id, renames: seq<Rename>): (r: Result<Catalogue, Error>)
    ensures r.Success? ==> r.value.nextId == c.nextId
  {
    var t :- RenameAll(Tables(c.values, c.variants, c.offers), c.options, productId, renames);
    Success(c.(values := t.values, variants := t.variants, offers := t.offers))
  }

  function ReorderValue(c: Catalogue, optionId: Id, reorder: Option<Reposition>): (r: Result<Catalogue, Error>)
    ensures r.Success? ==> r.value.nextId == c.nextId
  {
    if reorder.None? then Success(c)
    else match Move(c.values, optionId, reorder.value.id, reorder.value.position)
      case None => Failure(ServerError)
      case Some(values) => Success(c.(values := values))
  }

  /** The deletion loop, then the renumbering of the option's values. */
  function DeleteValues(c: Catalogue, productId: Id, optionId: Id, deleted: Option<seq<Id>>): (r: Result<Catalogue, Error>)
    ensures r.Success? ==> r.value.nextId == c.nextId
  {
    if deleted.None? then Success(c)
    else
      var t :- DeleteAll(Tables(c.values, c.variants, c.offers), c.options, productId, deleted.value);
      Success(c.(values := Compacted(t.values, optionId), variants := t.variants, offers := t.offers))
  }

  function MoveOption(c: Catalogue, productId: Id, optionId: Id, position: Option<int>): (r: Result<Catalogue, Error>)
    ensures r.Success? ==> r.value.nextId == c.nextId
  {
    if position.None? then Success(c)
    else match Move(c.options, productId, optionId, position.value)
      case None => Failure(ServerError)
      case Some(options) => Success(c.(options := options))
  }

  /** The synchronisation: a new variant, with the product's SKU, for every
      generated tuple the product has no variant for. */
  function SyncVariants(c: Catalogue, products: seq<Product>, productId: Id): Result<Catalogue, Error>
  {
    match FindProduct(products, productId)
    case None => Failure(ServerError)
    case Some(p) =>
      var missing := NotIn(ProductTuples(c.options, c.values, productId), TuplesOf(c.variants, productId));
      Success(c.(variants := c.variants + NewVariants(missing, productId, p.sku, c.nextId),
                 nextId := c.nextId + |missing|))
  }

  /** updateOption: the steps in the source's order, the first failure
      rolling everything back, and the demotion at the end. */
  function UpdateOptionTx(c: Catalogue, products: seq<Product>, productId: Id, optionId: Id, e: OptionEdit): (r: Result<Catalogue, Error>)
    ensures r.Success? ==> FindProduct(products, productId).Some?
    ensures r.Success? ==> NoLiveOrphans(r.value.offers)
  {
    var c5 :- EditSteps(c, productId, optionId, e);
    var c6 :- SyncVariants(c5, products, productId);
    Success(c6.(offers := DemoteOrphans(c6.offers)))
  }

  /** The steps of updateOption before the synchronisation; they take ids
      and never give any back. */
  function EditSteps(c: Catalogue, productId: Id, optionId: Id, e: OptionEdit): (r: Result<Catalogue, Error>)
    ensures r.Success? ==> r.value.nextId >= c.nextId
  {
    var c1 :- EditOption(c, optionId, e.title, e.created);
    var c2 :- RenameValues(c1, productId, e.renames);
    var c3 :- ReorderValue(c2, optionId, e.reorder);
    var c4 :- DeleteValues(c3, productId, optionId, e.deleted);
    MoveOption(c4, productId, optionId, e.position)
  }

  /** After a successful option update every tuple the product's options
      generate has a variant of the product, no live offer is without a
      variant, and ids were only taken, never given back. */
  lemma UpdateOptionComplete(c: Catalogue, products: seq<Product>, productId: Id, optionId: Id, e: OptionEdit)
    requires UpdateOptionTx(c, products, productId, optionId, e).Success?
    ensures var r := UpdateOptionTx(c, products, productId, optionId, e).value;
      && (forall t :: t in ProductTuples(r.options, r.values, productId) ==>
            exists v :: v in r.variants && v.productId == productId && v.tuple == t)
      && NoLiveOrphans(r.offers)
      && r.nextId >= c.nextId
  {
    var c5 := EditSteps(c, productId, optionId, e).value;
    SyncCovers(c5, products, productId);
  }

  /** After the synchronisation every generated tuple has a variant of the
      product. */
  lemma SyncCovers(c: Catalogue, products: seq<Product>, productId: Id)
    requires SyncVariants(c, products, productId).Success?
    ensures var r := SyncVariants(c, products, productId).value;
      && r.options == c.options && r.values == c.values && r.nextId >= c.nextId
      && forall t :: t in ProductTuples(r.options, r.values, productId) ==>
           exists v :: v in r.variants && v.productId == productId && v.tuple == t
  {
    var p := FindProduct(products, productId).value;
    var missing := NotIn(ProductTuples(c.options, c.values, productId), TuplesOf(c.variants, productId));
    SyncedBy(c.variants, c.options, c.values, productId, p.sku, c.nextId, missing);
    SyncedSpec(c.variants, c.options, c.values, productId, p.sku, c.nextId);
  }

  /** The value move of updateOption, on the table read into an array. */
  method ReorderValueStep(c: Catalogue, optionId: Id, reorder: Option<Reposition>) returns (r: Result<Catalogue, Error>)
    ensures r == ReorderValue(c, optionId, reorder)
  {
    if reorder.None? {
      return Success(c);
    }
    var moved := MoveRows(c.values, optionId, reorder.value.id, reorder.value.position);
    if moved.None? {
      return Failure(ServerError);
    }
    return Success(c.(values := moved.value));
  }

  /** The deletion loop of updateOption, then the renumbering loop. */
  method DeleteValuesStep(c: Catalogue, productId: Id, optionId: Id, deleted: Option<seq<Id>>) returns (r: Result<Catalogue, Error>)
    ensures r == DeleteValues(c, productId, optionId, deleted)
  {
    if deleted.None? {
      return Success(c);
    }
    var t := DeleteLoop(Tables(c.values, c.variants, c.offers), c.options, productId, deleted.value);
    if t.Failure? {
      return Failure(t.error);
    }
    var compacted := CompactRows(t.value.values, optionId);
    return Success(c.(values := compacted, variants := t.value.variants, offers := t.value.offers));
  }

  /** The option move of updateOption. */
  method MoveOptionStep(c: Catalogue, productId: Id, optionId: Id, position: Option<int>) returns (r: Result<Catalogue, Error>)
    ensures r == MoveOption(c, productId, optionId, position)
  {
    if position.None? {
      return Success(c);
    }
    var moved := MoveRows(c.options, productId, optionId, position.value);
    if moved.None? {
      return Failure(ServerError);
    }
    return Success(c.(options := moved.value));
  }

  /** The synchronisation loop of updateOption. */
  method SyncVariantsStep(c: Catalogue, products: seq<Product>, productId: Id) returns (r: Result<Catalogue, Error>)
    ensures r == SyncVariants(c, products, productId)
  {
    var product := FindProduct(products, productId);
    if product.None? {
      return Failure(ServerError);
    }
    var missing := MissingTuples(ProductTuples(c.options, c.values, productId), TuplesOf(c.variants, productId));
    return Success(c.(variants := c.variants + NewVariants(missing, productId, product.value.sku, c.nextId),
                      nextId := c.nextId + |missing|));
  }

  /** `Synced` appends one new variant per missing tuple. */
  lemma SyncedBy(variants: seq<Variant>, options: seq<Row<OptionData>>, values: seq<Row<string>>,
                 productId: Id, sku: Option<string>, startId: Id, missing: seq<Tuple>)
    requires missing == NotIn(ProductTuples(options, values, productId), TuplesOf(variants, productId))
    ensures Synced(variants, options, values, productId, sku, startId) == variants + NewVariants(missing, productId, sku, startId)
  {
  }

  /** updateOption's queries in order on a copy of the tables, proved to
      compute `UpdateOptionTx`. */
  method ApplyOptionEdit(c: Catalogue, products: seq<Product>, productId: Id, optionId: Id, e: OptionEdit)
    returns (r: Result<Catalogue, Error>)
    ensures r == UpdateOptionTx(c, products, productId, optionId, e)
  {
    var c1 := EditOption(c, optionId, e.title, e.created);
    if c1.Failure? {
      return Failure(c1.error);
    }
    var t := RenameLoop(Tables(c1.value.values, c1.value.variants, c1.value.offers), c1.value.options, productId, e.renames);
    if t.Failure? {
      return Failure(t.error);
    }
    var c2 := c1.value.(values := t.value.values, variants := t.value.variants, offers := t.value.offers);
    assert RenameValues(c1.value, productId, e.renames) == Success(c2);
    var c3 := ReorderValueStep(c2, optionId, e.reorder);
    if c3.Failure? {
      return Failure(c3.error);
    }
    var c4 := DeleteValuesStep(c3.value, productId, optionId, e.deleted);
    if c4.Failure? {
      return Failure(c4.error);
    }
    var c5 := MoveOptionStep(c4.value, productId, optionId, e.position);
    if c5.Failure? {
      return Failure(c5.error);
    }
    assert EditSteps(c, productId, optionId, e) == c5;
    var c6 := SyncVariantsStep(c5.value, products, productId);
    if c6.Failure? {
      return Failure(c6.error);
    }
    r := Success(c6.value.(offers := DemoteOrphans(c6.value.offers)));
  }

  /** The slot `k` is held by one of the product's options. */
  ghost predicate SlotHeld(options: seq<Row<OptionData>>, productId: Id, k: Slot)
  {
    exists i :: 0 <= i < |options| && InScope(options[i], productId) && options[i].data.slot == k
  }

  /** createOption's guards, in order: at most three options per product
      (checked before the transaction), the product must exist (the foreign
      key of the new option), and the option title must be new to the product
      and the value titles distinct (the unique indexes). */
  function CreationError(options: seq<Row<OptionData>>, products: seq<Product>, productId: Id, title: string,
                         valueTitles: seq<string>): (r: Option<Error>)
    ensures r == Some(OptionLimit) <==> |Inside(options, productId)| >= 3
    ensures r == Some(ServerError) <==> |Inside(options, productId)| < 3 && FindProduct(products, productId).None?
    ensures r == Some(NotUnique) <==>
      && |Inside(options, productId)| < 3 && FindProduct(products, productId).Some?
      && (OptionTitleTaken(options, Some(productId), None, title) || HasRepeats(valueTitles))
    ensures r.Some? ==> r.value in {OptionLimit, ServerError, NotUnique}
  {
    if |Inside(options, productId)| >= 3 then Some(OptionLimit)
    else if FindProduct(products, productId).None? then Some(ServerError)
    else if OptionTitleTaken(options, Some(productId), None, title) || HasRepeats(valueTitles) then Some(NotUnique)
    else None
  }

  /** createOption's slot search over `cOptions`, the product's options
      ordered by slot: the smallest slot no option of the product holds. */
  method ChooseSlot(options: seq<Row<OptionData>>, productId: Id) returns (slot: Slot)
    requires |Inside(options, productId)| < 3
    ensures !SlotHeld(options, productId, slot)
    ensures forall k: Slot :: k < slot ==> SlotHeld(options, productId, k)
  {
    var slots := SlotsOf(SlotOrder(options, productId));
    SlotOrderSpec(options, productId);
    slot := FreeSlot(slots);
    forall k: Slot | k < slot ensures SlotHeld(options, productId, k) {
      assert k in slots;
    }
  }

  /** `option.create`: the new option goes last, with the next position of
      the product. */
  function WithNewOption(options: seq<Row<OptionData>>, productId: Id, id: Id, title: string, slot: Slot): seq<Row<OptionData>>
  {
    options + [Row(id, Some(productId), |Inside(options, productId)|, OptionData(title, slot))]
  }

  /** createOption's tables once the slot is chosen: the option goes last
      with the next position, its values get positions 0..n-1, the product's
      variants are regenerated from all its options, and the demotion. */
  function OptionAdded(c: Catalogue, productId: Id, sku: Option<string>, title: string, slot: Slot,
                       valueTitles: seq<string>): (r: Catalogue)
    ensures NoLiveOrphans(r.offers)
    ensures r.nextId > c.nextId + |valueTitles|
  {
    var id := c.nextId;
    var options := WithNewOption(c.options, productId, id, title, slot);
    var values := c.values + ValueRows(id, valueTitles, id + 1, 0);
    var start := id + 1 + |valueTitles|;
    Catalogue(options, values, Regenerated(c.variants, options, values, productId, sku, start),
              DemoteOrphans(Unlinked(c.offers, VariantIdsOf(c.variants, productId))),
              start + GeneratedCount(options, values, productId))
  }

  /** A new option adds one to the product's options and keeps their
      positions 0..n-1 when they were. */
  lemma NewOptionKeepsDense(options: seq<Row<OptionData>>, productId: Id, id: Id, title: string, slot: Slot)
    ensures var r := WithNewOption(options, productId, id, title, slot);
      && |Inside(r, productId)| == |Inside(options, productId)| + 1
      && (Dense(options, productId) ==> Dense(r, productId))
  {
    var r := WithNewOption(options, productId, id, title, slot);
    var n := |options|;
    var added := Row(id, Some(productId), |Inside(options, productId)|, OptionData(title, slot));
    InsideConcat(options, [added], productId);
    assert Inside([added], productId) == [added];
    if Dense(options, productId) {
      forall i, j | 0 <= i < j < |r| && InScope(r[i], productId) && InScope(r[j], productId)
        ensures r[i].position != r[j].position
      {
        assert r[i] == options[i];
        if j < n {
          assert r[j] == options[j];
        }
      }
      forall i | 0 <= i < |r| && InScope(r[i], productId)
        ensures 0 <= r[i].position < |Inside(r, productId)|
      {
        if i < n {
          assert r[i] == options[i];
        }
      }
    }
  }

  /** After a new option the product's variants are exactly one per
      generated tuple, other products' variants are untouched, and no live
      offer is without a variant. */
  lemma OptionAddedVariants(c: Catalogue, productId: Id, sku: Option<string>, title: string, slot: Slot,
                            valueTitles: seq<string>)
    ensures var r := OptionAdded(c, productId, sku, title, slot, valueTitles);
      && (forall t :: (exists v :: v in r.variants && v.productId == productId && v.tuple == t) <==>
                      t in ProductTuples(r.options, r.values, productId))
      && (forall v: Variant :: v.productId != productId ==> (v in r.variants <==> v in c.variants))
      && NoLiveOrphans(r.offers)
  {
    var r := OptionAdded(c, productId, sku, title, slot, valueTitles);
    NewOptionKeepsDense(c.options, productId, c.nextId, title, slot);
    RegeneratedVariants(c.variants, r.options, r.values, productId, sku, c.nextId + 1 + |valueTitles|);
  }

  /** `option.delete` and the renumbering of the product's other options. */
  function WithoutOption(options: seq<Row<OptionData>>, productId: Id, optionId: Id): seq<Row<OptionData>>
  {
    Compacted(WithoutRow(options, optionId), productId)
  }

  /** removeOption's tables: the option and its values go, the product's
      remaining options are renumbered 0..n-1 in position order, the
      product's variants are regenerated from them, and the demotion. */
  function OptionRemoved(c: Catalogue, productId: Id, optionId: Id, sku: Option<string>): (r: Catalogue)
    ensures forall i :: 0 <= i < |r.options| ==> r.options[i].id != optionId
    ensures Dense(r.options, productId)
    ensures NoLiveOrphans(r.offers)
    ensures r.nextId >= c.nextId
  {
    WithoutOptionSpec(c.options, productId, optionId);
    var options := WithoutOption(c.options, productId, optionId);
    var values := WithoutScope(c.values, optionId);
    Catalogue(options, values, Regenerated(c.variants, options, values, productId, sku, c.nextId),
              DemoteOrphans(Unlinked(c.offers, VariantIdsOf(c.variants, productId))),
              c.nextId + GeneratedCount(options, values, productId))
  }

  /** After a removal no option carries the removed id and the product's
      positions are 0..n-1. */
  lemma WithoutOptionSpec(options: seq<Row<OptionData>>, productId: Id, optionId: Id)
    ensures var r := WithoutOption(options, productId, optionId);
      && (forall i :: 0 <= i < |r| ==> r[i].id != optionId)
      && Dense(r, productId)
  {
    var r := WithoutOption(options, productId, optionId);
    var rest := WithoutRow(options, optionId);
    var out := Outside(rest, productId);
    var sorted := ByPosition(rest, productId);
    assert r == out + Renumbered(sorted);
    CompactedIsDense(rest, productId);
    CompactedOrder(rest, productId);
    forall i | 0 <= i < |r| ensures r[i].id != optionId {
      if i < |out| {
        assert r[i] == out[i] && out[i] in rest;
      } else {
        var j := i - |out|;
        assert r[i] == sorted[j].(position := j);
        assert sorted[j] in multiset(Inside(rest, productId));
        assert sorted[j] in Inside(rest, productId);
      }
    }
  }

  /** removeOption as the source runs it: the deletion fails on a missing
      option; then the renumbering loop over the product's remaining
      options, and the rest of `OptionRemoved`. */
  method RemoveOptionTx(c: Catalogue, products: seq<Product>, optionId: Id) returns (r: Result<Catalogue, Error>)
    ensures r.Failure? ==> r.error == ServerError
    ensures var o := FindRow(c.options, optionId);
      r.Success? <==> o.Some? && o.value.scope.Some? && FindProduct(products, o.value.scope.value).Some?
    ensures r.Success? ==>
      var productId := FindRow(c.options, optionId).value.scope.value;
      r.value == OptionRemoved(c, productId, optionId, FindProduct(products, productId).value.sku)
    ensures r.Success? ==> NoLiveOrphans(r.value.offers)
  {
    var option := FindRow(c.options, optionId);
    if option.None? || option.value.scope.None? {
      return Failure(ServerError);
    }
    var productId := option.value.scope.value;
    var product := FindProduct(products, productId);
    if product.None? {
      return Failure(ServerError);
    }
    var remaining := CompactRows(WithoutRow(c.options, optionId), productId);
    var values := WithoutScope(c.values, optionId);
    var offers := DemoteOrphans(Unlinked(c.offers, VariantIdsOf(c.variants, productId)));
    r := Success(Catalogue(remaining, values, Regenerated(c.variants, remaining, values, productId, product.value.sku, c.nextId),
                           offers, c.nextId + GeneratedCount(remaining, values, productId)));
  }

  /** After a removal the product's variants are one per generated tuple,
      none when no option is left, and no live offer is without a variant. */
  lemma OptionRemovedVariants(c: Catalogue, productId: Id, optionId: Id, sku: Option<string>)
    ensures var r := OptionRemoved(c, productId, optionId, sku);
      && (Inside(r.options, productId) == [] ==> forall v :: v in r.variants ==> v.productId != productId)
      && (Inside(r.options, productId) != [] ==>
            forall t :: (exists v :: v in r.variants && v.productId == productId && v.tuple == t) <==>
                        t in ProductTuples(r.options, r.values, productId))
      && NoLiveOrphans(r.offers)
  {
    var r := OptionRemoved(c, productId, optionId, sku);
    RegeneratedVariants(c.variants, r.options, r.values, productId, sku, c.nextId);
  }

  /** An upsert keeps every live offer on a variant. */
  lemma UpsertKeepsNoLiveOrphans(offers: seq<Offer>, template: Offer, amount: nat, startId: Id)
    requires template.variantId.Some? && NoLiveOrphans(offers)
    ensures NoLiveOrphans(Upserted(offers, template, amount, startId))
  {
    var kept := Kept(offers, template.variantId.value, template.userId);
    var r := Upserted(offers, template, amount, startId);
    forall i | 0 <= i < |r| && IsLive(r[i].status) ensures r[i].variantId.Some? {
      if i < |kept| {
        assert r[i] == kept[i] && kept[i] in kept;
        var j :| 0 <= j < |offers| && offers[j] == kept[i];
      }
    }
  }

  // ---------------------------------------------------------------------
  // The store
  // ---------------------------------------------------------------------

  /** A successful profile update keeps one default at most, distinct
      profile ids and every live offer on a variant; a profile made the
      default is the default afterwards. */
  lemma ProfileUpdateKeeps(profiles: seq<Profile>, offers: seq<Offer>, profileId: Id, e: ProfileEdit)
    requires AtMostOneDefault(profiles) && UniqueProfileIds(profiles) && NoLiveOrphans(offers)
    requires ProfileUpdate(profiles, offers, profileId, e).Success?
    ensures var u := ProfileUpdate(profiles, offers, profileId, e).value;
      && AtMostOneDefault(u.profiles) && UniqueProfileIds(u.profiles) && NoLiveOrphans(u.offers)
      && (e.isDefault == Some(true) ==> FirstDefault(u.profiles).value.id == profileId)
  {
    var u := ProfileUpdate(profiles, offers, profileId, e).value;
    UpdatedProfilesKeepDefault(profiles, profileId, e.title, e.isDefault);
    UpdatedProfilesKeepIds(profiles, profileId, e.title, e.isDefault);
    assert forall i :: 0 <= i < |offers| ==> u.offers[i].status == offers[i].status && u.offers[i].variantId == offers[i].variantId;
  }

  class Store {
    var products: seq<Product>
    var options: seq<Row<OptionData>>
    var values: seq<Row<string>>
    var variants: seq<Variant>
    var offers: seq<Offer>
    var productImages: seq<Row<ImageData>>
    var variantImages: seq<Row<ImageData>>
    var profiles: seq<Profile>
    var nextId: nat

    /** What every transaction keeps: no live offer is without a variant, at
        most one delivery profile is the default, and profile ids are
        distinct. */
    ghost predicate Valid()
      reads this
    {
      NoLiveOrphans(offers) && AtMostOneDefault(profiles) && UniqueProfileIds(profiles)
    }

    function Snapshot(): Catalogue
      reads this
    {
      Catalogue(options, values, variants, offers, nextId)
    }

    constructor ()
      ensures Valid()
      ensures products == [] && options == [] && values == [] && variants == [] && offers == []
      ensures productImages == [] && variantImages == [] && profiles == [] && nextId == 0
    {
      products, options, values, variants, offers := [], [], [], [], [];
      productImages, variantImages, profiles, nextId := [], [], [], 0;
    }

    // -------------------------------------------------------------------
    // Options
    // -------------------------------------------------------------------

    /** createOption: the guards of `CreationError`; then the option takes
        the smallest slot none of the product's options holds, which it
        returns, and the tables become those of `OptionAdded`. */
    method CreateOption(productId: Id, title: string, valueTitles: seq<string>) returns (r: Result<Slot, Error>)
      requires Valid() && valueTitles != []
      modifies this`options, this`values, this`variants, this`offers, this`nextId
      ensures Valid()
      ensures var err := CreationError(old(options), old(products), productId, title, valueTitles);
        && (r.Failure? <==> err.Some?)
        && (r.Failure? ==> unchanged(this) && r.error == err.value)
      ensures r.Success? ==>
        !SlotHeld(old(options), productId, r.value) && forall k: Slot :: k < r.value ==> SlotHeld(old(options), productId, k)
      ensures r.Success? ==>
        Snapshot() == OptionAdded(old(Snapshot()), productId, FindProduct(old(products), productId).value.sku,
                                  title, r.value, valueTitles)
    {
      var err := CreationError(options, products, productId, title, valueTitles);
      if err.Some? {
        return Failure(err.value);
      }
      var slot := ChooseSlot(options, productId);
      var sku := FindProduct(products, productId).value.sku;
      Commit(OptionAdded(Snapshot(), productId, sku, title, slot, valueTitles));
      return Success(slot);
    }

    /** updateOption, committed only when every step of `UpdateOptionTx`
        succeeded. */
    method UpdateOption(productId: Id, optionId: Id, e: OptionEdit) returns (r: Result<(), Error>)
      requires Valid()
      modifies this`options, this`values, this`variants, this`offers, this`nextId
      ensures Valid()
      ensures var tx := UpdateOptionTx(old(Snapshot()), old(products), productId, optionId, e);
        && (r.Failure? <==> tx.Failure?)
        && (r.Failure? ==> unchanged(this) && r.error == tx.error)
        && (r.Success? ==> Snapshot() == tx.value)
    {
      var tx := ApplyOptionEdit(Snapshot(), products, productId, optionId, e);
      if tx.Failure? {
        return Failure(tx.error);
      }
      Commit(tx.value);
      return Success(());
    }

    /** Writes a catalogue whose live offers all have a variant back into
        the tables. */
    method Commit(next: Catalogue)
      requires Valid()
      requires NoLiveOrphans(next.offers)
      modifies this`options, this`values, this`variants, this`offers, this`nextId
      ensures Valid()
      ensures Snapshot() == next
    {
      options, values, variants, offers, nextId := next.options, next.values, next.variants, next.offers, next.nextId;
    }

    /** removeOption: the transaction of `RemoveOptionTx`. */
    method RemoveOption(optionId: Id) returns (r: Result<(), Error>)
      requires Valid()
      modifies this`options, this`values, this`variants, this`offers, this`nextId
      ensures Valid()
      ensures r.Failure? ==> unchanged(this) && r.error == ServerError
      ensures var o := FindRow(old(options), optionId);
        r.Success? <==> o.Some? && o.value.scope.Some? && FindProduct(products, o.value.scope.value).Some?
      ensures r.Success? ==>
        var productId := FindRow(old(options), optionId).value.scope.value;
        Snapshot() == OptionRemoved(old(Snapshot()), productId, optionId, FindProduct(products, productId).value.sku)
    {
      var tx := RemoveOptionTx(Snapshot(), products, optionId);
      if tx.Failure? {
        return Failure(tx.error);
      }
      Commit(tx.value);
      return Success(());
    }

    // -------------------------------------------------------------------
    // Products
    // -------------------------------------------------------------------

    /** updateProduct: a new title goes to the live offers on the product's
        variants, then the product is updated; it must exist. */
    method UpdateProduct(productId: Id, title: Option<string>, sku: Field<Option<string>>, barcode: Field<Option<string>>)
      returns (r: Result<(), Error>)
      requires Valid()
      modifies this`products, this`offers
      ensures Valid()
      ensures r.Failure? <==> FindProduct(old(products), productId).None?
      ensures r.Failure? ==> unchanged(this) && r.error == ServerError
      ensures r.Success? ==>
        && products == WithProductFields(old(products), productId, title, sku, barcode)
        && offers == if title.Some? then WithProductTitle(old(offers), variants, productId, title.value) else old(offers)
    {
      var retitled := offers;
      if title.Some? {
        retitled := WithProductTitle(offers, variants, productId, title.value);
      }
      if FindProduct(products, productId).None? {
        return Failure(ServerError);
      }
      products, offers := WithProductFields(products, productId, title, sku, barcode), retitled;
      return Success(());
    }

    /** removeProduct: the product, its options, their values and its
        variants go; offers and images lose their links to them; then the
        demotion. */
    method RemoveProduct(productId: Id) returns (r: Result<(), Error>)
      requires Valid()
      modifies this`products, this`options, this`values, this`variants, this`offers, this`productImages, this`variantImages
      ensures Valid()
      ensures r.Failure? <==> FindProduct(old(products), productId).None?
      ensures r.Failure? ==> unchanged(this) && r.error == ServerError
      ensures r.Success? ==>
        var gone := VariantIdsOf(old(variants), productId);
        && products == WithoutProduct(old(products), productId)
        && options == Outside(old(options), productId)
        && values == ValuesOutside(old(values), OptionIdsOf(old(options), productId))
        && variants == OtherProducts(old(variants), productId)
        && offers == DemoteOrphans(ProductCleared(Unlinked(old(offers), gone), productId))
        && productImages == DetachedFrom(old(productImages), {productId})
        && variantImages == DetachedFrom(old(variantImages), gone)
    {
      if FindProduct(products, productId).None? {
        return Failure(ServerError);
      }
      var gone := VariantIdsOf(variants, productId);
      values := ValuesOutside(values, OptionIdsOf(options, productId));
      options := Outside(options, productId);
      offers := DemoteOrphans(ProductCleared(Unlinked(offers, gone), productId));
      variants := OtherProducts(variants, productId);
      productImages := DetachedFrom(productImages, {productId});
      variantImages := DetachedFrom(variantImages, gone);
      products := WithoutProduct(products, productId);
      return Success(());
    }

    // -------------------------------------------------------------------
    // Images
    // -------------------------------------------------------------------

    /** uploadImages of a product: the stored files (`None` when the file
        service fails) are appended after the product's last image, with the
        product's title as their text. */
    method UploadProductImages(productId: Id, upload: Option<seq<string>>) returns (r: Result<(), Error>)
      requires Valid()
      modifies this`productImages, this`nextId
      ensures Valid()
      ensures r == Failure(NotFound) <==> FindProduct(old(products), productId).None?
      ensures r == Failure(ServerError) <==> FindProduct(old(products), productId).Some? && upload.None?
      ensures r.Failure? ==> unchanged(this)
      ensures r.Success? ==>
        && productImages == Appended(old(productImages), productId, old(nextId),
                                     Uploaded(upload.value, FindProduct(products, productId).value.title))
        && nextId == old(nextId) + |upload.value|
    {
      var product := FindProduct(products, productId);
      if product.None? {
        return Failure(NotFound);
      }
      if upload.None? {
        return Failure(ServerError);
      }
      productImages := Appended(productImages, productId, nextId, Uploaded(upload.value, product.value.title));
      nextId := nextId + |upload.value|;
      return Success(());
    }

    /** updateImage of a product: the new text or source and the move in
        one transaction. */
    method UpdateProductImage(productId: Id, imageId: Id, src: Option<string>, alt: Option<string>, position: Option<int>)
      returns (r: Result<(), Error>)
      requires Valid()
      modifies this`productImages
      ensures Valid()
      ensures var u := ImageUpdate(old(productImages), productId, imageId, src, alt, position);
        && (r.Failure? <==> u.None?)
        && (r.Failure? ==> unchanged(this) && r.error == ServerError)
        && (r.Success? ==> productImages == u.value)
    {
      var rows := productImages;
      if src.Some? || alt.Some? {
        if FindRow(rows, imageId).None? {
          return Failure(ServerError);
        }
        rows := WithImageData(rows, imageId, src, alt);
      }
      if position.Some? {
        var moved := MoveRows(rows, productId, imageId, position.value);
        if moved.None? {
          return Failure(ServerError);
        }
        rows := moved.value;
      }
      productImages := rows;
      return Success(());
    }

    /** removeImage of a product: the image leaves the product and the
        product's images are renumbered 0..n-1. */
    method RemoveProductImage(productId: Id, imageId: Id) returns (r: Result<(), Error>)
      requires Valid()
      modifies this`productImages
      ensures Valid()
      ensures r.Failure? <==> FindRow(old(productImages), imageId).None?
      ensures r.Failure? ==> unchanged(this) && r.error == ServerError
      ensures r.Success? ==> productImages == Removed(old(productImages), productId, imageId)
    {
      if FindRow(productImages, imageId).None? {
        return Failure(ServerError);
      }
      productImages := CompactRows(Detached(productImages, imageId), productId);
      return Success(());
    }

    /** uploadImages of a variant: the same, with the variant's product's
        title as the text. */
    method UploadVariantImages(variantId: Id, upload: Option<seq<string>>) returns (r: Result<(), Error>)
      requires Valid()
      modifies this`variantImages, this`nextId
      ensures Valid()
      ensures r == Failure(NotFound) <==> FindVariant(variants, variantId).None?
      ensures r == Failure(ServerError) <==>
        FindVariant(variants, variantId).Some? &&
        (FindProduct(products, FindVariant(variants, variantId).value.productId).None? || upload.None?)
      ensures r.Failure? ==> unchanged(this)
      ensures r.Success? <==>
        && FindVariant(variants, variantId).Some? && upload.Some?
        && FindProduct(products, FindVariant(variants, variantId).value.productId).Some?
      ensures r.Success? ==>
        var v := FindVariant(variants, variantId).value;
        && variantImages == Appended(old(variantImages), variantId, old(nextId),
                                     Uploaded(upload.value, FindProduct(products, v.productId).value.title))
        && nextId == old(nextId) + |upload.value|
    {
      var variant := FindVariant(variants, variantId);
      if variant.None? {
        return Failure(NotFound);
      }
      var product := FindProduct(products, variant.value.productId);
      if product.None? || upload.None? {
        return Failure(ServerError);
      }
      variantImages := Appended(variantImages, variantId, nextId, Uploaded(upload.value, product.value.title));
      nextId := nextId + |upload.value|;
      return Success(());
    }

    /** updateImage of a variant: the text and source are written before,
        and outside, the move's transaction. */
    method UpdateVariantImage(variantId: Id, imageId: Id, src: Option<string>, alt: Option<string>, position: Option<int>)
      returns (r: Result<(), Error>)
      requires Valid()
      modifies this`variantImages
      ensures Valid()
      ensures var u := ImageUpdate(old(variantImages), variantId, imageId, src, alt, position);
        && (r.Failure? <==> u.None?)
        && (r.Failure? ==> unchanged(this) && r.error == ServerError)
        && (r.Success? ==> variantImages == u.value)
    {
      if src.Some? || alt.Some? {
        if FindRow(variantImages, imageId).None? {
          return Failure(ServerError);
        }
        variantImages := WithImageData(variantImages, imageId, src, alt);
      }
      if position.Some? {
        var moved := MoveRows(variantImages, variantId, imageId, position.value);
        if moved.None? {
          return Failure(ServerError);
        }
        variantImages := moved.value;
      }
      return Success(());
    }

    /** removeImage of a variant. */
    method RemoveVariantImage(variantId: Id, imageId: Id) returns (r: Result<(), Error>)
      requires Valid()
      modifies this`variantImages
      ensures Valid()
      ensures r.Failure? <==> FindRow(old(variantImages), imageId).None?
      ensures r.Failure? ==> unchanged(this) && r.error == ServerError
      ensures r.Success? ==> variantImages == Removed(old(variantImages), variantId, imageId)
    {
      if FindRow(variantImages, imageId).None? {
        return Failure(ServerError);
      }
      variantImages := CompactRows(Detached(variantImages, imageId), variantId);
      return Success(());
    }

    // -------------------------------------------------------------------
    // Variants
    // -------------------------------------------------------------------

    /** createVariant: the row of `CreatedVariant` with the next id, which it
        returns. */
    method CreateVariant(productId: Id, f0: Field<Option<string>>, f1: Field<Option<string>>, f2: Field<Option<string>>,
                         sku: Option<string>, barcode: Option<string>) returns (r: Result<Id, Error>)
      requires Valid()
      modifies this`variants, this`nextId
      ensures Valid()
      ensures var created := CreatedVariant(old(variants), products, old(nextId), productId, f0, f1, f2, sku, barcode);
        && (r.Failure? <==> created.Failure?)
        && (r.Failure? ==> unchanged(this) && r.error == created.error)
        && (r.Success? ==> r.value == old(nextId) && variants == old(variants) + [created.value] && nextId == old(nextId) + 1)
    {
      var created := CreatedVariant(variants, products, nextId, productId, f0, f1, f2, sku, barcode);
      if created.Failure? {
        return Failure(created.error);
      }
      variants := variants + [created.value];
      r := Success(nextId);
      nextId := nextId + 1;
    }

    /** updateVariant with the per-product check and the recomputed title
        (`UpdatedVariant`; `UpdatedVariantAsWritten` is the source's). */
    method UpdateVariant(variantId: Id, e: VariantEdit) returns (r: Result<(), Error>)
      requires Valid()
      modifies this`variants, this`offers
      ensures Valid()
      ensures var u := UpdatedVariant(old(variants), options, old(offers), variantId, e);
        && (r.Failure? <==> u.Failure?)
        && (r.Failure? ==> unchanged(this) && r.error == u.error)
        && (r.Success? ==> variants == u.value.variants && offers == u.value.offers)
    {
      var u := UpdatedVariant(variants, options, offers, variantId, e);
      if u.Failure? {
        return Failure(u.error);
      }
      assert forall i :: 0 <= i < |offers| ==> u.value.offers[i].status == offers[i].status && u.value.offers[i].variantId == offers[i].variantId;
      variants, offers := u.value.variants, u.value.offers;
      return Success(());
    }

    /** removeVariant: the variant goes, its offers and images lose it, and
        the demotion follows. */
    method RemoveVariant(variantId: Id) returns (r: Result<(), Error>)
      requires Valid()
      modifies this`variants, this`offers, this`variantImages
      ensures Valid()
      ensures r.Failure? <==> FindVariant(old(variants), variantId).None?
      ensures r.Failure? ==> unchanged(this) && r.error == ServerError
      ensures r.Success? ==>
        && variants == WithoutVariants(old(variants), {variantId})
        && offers == DemoteOrphans(Unlinked(old(offers), {variantId}))
        && variantImages == DetachedFrom(old(variantImages), {variantId})
    {
      if FindVariant(variants, variantId).None? {
        return Failure(ServerError);
      }
      variants := WithoutVariants(variants, {variantId});
      offers := DemoteOrphans(Unlinked(offers, {variantId}));
      variantImages := DetachedFrom(variantImages, {variantId});
      return Success(());
    }

    // -------------------------------------------------------------------
    // Offers
    // -------------------------------------------------------------------

    /** createOffer: the row of `NewOffer` with the next id, which it returns. */
    method CreateOffer(variantId: Id, userId: Id, status: Option<Status>, price: int, offerPrice: int, profileId: Option<Id>)
      returns (r: Result<Id, Error>)
      requires Valid()
      modifies this`offers, this`nextId
      ensures Valid()
      ensures var o := NewOffer(variants, products, profiles, old(nextId), variantId, userId, status, price, offerPrice, profileId);
        && (r.Failure? <==> o.Failure?)
        && (r.Failure? ==> unchanged(this) && r.error == o.error)
        && (r.Success? ==> r.value == old(nextId) && offers == old(offers) + [o.value] && nextId == old(nextId) + 1)
    {
      var o := NewOffer(variants, products, profiles, nextId, variantId, userId, status, price, offerPrice, profileId);
      if o.Failure? {
        return Failure(o.error);
      }
      offers := offers + [o.value];
      r := Success(nextId);
      nextId := nextId + 1;
    }

    /** updateOffer: the offer becomes the one `EditedOffer` gives. */
    method UpdateOffer(offerId: Id, c: OfferChange) returns (r: Result<(), Error>)
      requires Valid()
      modifies this`offers
      ensures Valid()
      ensures var o := EditedOffer(old(offers), variants, products, profiles, offerId, c);
        && (r.Failure? <==> o.Failure?)
        && (r.Failure? ==> unchanged(this) && r.error == o.error)
        && (r.Success? ==> offers == WithOffer(old(offers), offerId, o.value))
    {
      var o := EditedOffer(offers, variants, products, profiles, offerId, c);
      if o.Failure? {
        return Failure(o.error);
      }
      EditKeepsMatching(offers, variants, products, profiles, offerId, c);
      offers := WithOffer(offers, offerId, o.value);
      return Success(());
    }

    /** removeOffer: the guards and the deletion of `OfferRemoval`. */
    method RemoveOffer(offerId: Id) returns (r: Result<(), Error>)
      requires Valid()
      modifies this`offers
      ensures Valid()
      ensures var removal := OfferRemoval(old(offers), offerId);
        && (r.Failure? <==> removal.Failure?)
        && (r.Failure? ==> unchanged(this) && r.error == removal.error)
        && (r.Success? ==> offers == removal.value)
    {
      var removal := OfferRemoval(offers, offerId);
      if removal.Failure? {
        return Failure(removal.error);
      }
      forall i | 0 <= i < |removal.value| && IsLive(removal.value[i].status) ensures removal.value[i].variantId.Some? {
        assert removal.value[i] in removal.value;
        var j :| 0 <= j < |offers| && offers[j] == removal.value[i];
      }
      offers := removal.value;
      return Success(());
    }

    /** upsertOffers: the seller's replaceable offers on the variant are
        replaced by `amount` fresh ACTIVE copies; any failure, a missing
        variant included, is the one generic error. */
    method UpsertOffers(variantId: Id, profileId: Id, userId: Id, price: int, offerPrice: int, amount: int)
      returns (r: Result<(), Error>)
      requires Valid()
      modifies this`offers, this`nextId
      ensures Valid()
      ensures r.Failure? ==> unchanged(this) && r.error == ServerError
      ensures r.Failure? <==>
        || FindVariant(variants, variantId).None?
        || FindProduct(products, FindVariant(variants, variantId).value.productId).None?
        || amount < 0
        || (amount > 0 && FindProfile(profiles, profileId).None?)
      ensures r.Success? ==>
        var v := FindVariant(variants, variantId).value;
        var p := FindProduct(products, v.productId).value;
        && offers == Upserted(old(offers), Template(p, v, options, userId, profileId, price, offerPrice), amount, old(nextId))
        && nextId == old(nextId) + amount
    {
      var variant := FindVariant(variants, variantId);
      if variant.None? {
        return Failure(ServerError);
      }
      var product := FindProduct(products, variant.value.productId);
      if product.None? || amount < 0 || (amount > 0 && FindProfile(profiles, profileId).None?) {
        return Failure(ServerError);
      }
      var template := Template(product.value, variant.value, options, userId, profileId, price, offerPrice);
      UpsertKeepsNoLiveOrphans(offers, template, amount, nextId);
      offers := Upserted(offers, template, amount, nextId);
      nextId := nextId + amount;
      return Success(());
    }

    // -------------------------------------------------------------------
    // Delivery profiles
    // -------------------------------------------------------------------

    /** updateProfile: the tables of `ProfileUpdate`. */
    method UpdateProfile(profileId: Id, e: ProfileEdit) returns (r: Result<(), Error>)
      requires Valid()
      modifies this`profiles, this`offers
      ensures Valid()
      ensures var u := ProfileUpdate(old(profiles), old(offers), profileId, e);
        && (r.Failure? <==> u.Failure?)
        && (r.Failure? ==> unchanged(this) && r.error == u.error)
        && (r.Success? ==> profiles == u.value.profiles && offers == u.value.offers)
      ensures r.Success? && e.isDefault == Some(true) ==> FirstDefault(profiles).value.id == profileId
    {
      var u := ProfileUpdate(profiles, offers, profileId, e);
      if u.Failure? {
        return Failure(u.error);
      }
      ProfileUpdateKeeps(profiles, offers, profileId, e);
      CommitProfiles(u.value);
      return Success(());
    }

    /** Writes profile tables that keep the invariant back. */
    method CommitProfiles(next: ProfileTables)
      requires Valid()
      requires AtMostOneDefault(next.profiles) && UniqueProfileIds(next.profiles) && NoLiveOrphans(next.offers)
      modifies this`profiles, this`offers
      ensures Valid()
      ensures profiles == next.profiles && offers == next.offers
    {
      profiles, offers := next.profiles, next.offers;
    }

    /** removeProfile: the tables of `ProfileRemoval`. */
    method RemoveProfile(profileId: Id) returns (r: Result<(), Error>)
      requires Valid()
      modifies this`profiles, this`offers
      ensures Valid()
      ensures var removal := ProfileRemoval(old(profiles), old(offers), profileId);
        && (r.Failure? <==> removal.Failure?)
        && (r.Failure? ==> unchanged(this) && r.error == removal.error)
        && (r.Success? ==> profiles == removal.value.profiles && offers == removal.value.offers)
    {
      var removal := ProfileRemoval(profiles, offers, profileId);
      if removal.Failure? {
        return Failure(removal.error);
      }
      ProfileRemovalKeepsDefault(profiles, offers, profileId);
      assert forall i :: 0 <= i < |offers| ==> removal.value.offers[i].status == offers[i].status && removal.value.offers[i].variantId == offers[i].variantId;
      CommitProfiles(removal.value);
      return Success(());
    }
  }
}
