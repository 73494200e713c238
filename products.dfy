/** The row-level steps of the option transactions in
    cms-server/src/core/products/product.service.ts: new option and value rows,
    regenerated variants, value renames and value deletions. */
module Products {
  import opened Wrappers
  import opened Reorder
  import opened Catalog
  import opened Matrix
  import Combinations

  /** `createMany` of option values: titles in request order, created ids from
      `startId`, positions from `startPosition` on. */
  function ValueRows(optionId: Id, titles: seq<string>, startId: Id, startPosition: int): (r: seq<Row<string>>)
    ensures |r| == |titles|
    ensures forall i :: 0 <= i < |r| ==>
      r[i] == Row(startId + i, Some(optionId), startPosition + i, titles[i])
  {
    seq(|titles|, i requires 0 <= i < |titles| => Row(startId + i, Some(optionId), startPosition + i, titles[i]))
  }

  /** `variant.createMany` for the given tuples: created ids from `startId`, the
      product's SKU, no barcode, and an empty title. */
  function NewVariants(tuples: seq<Tuple>, productId: Id, sku: Option<string>, startId: Id): (r: seq<Variant>)
    ensures |r| == |tuples|
    ensures forall i :: 0 <= i < |r| ==> r[i] == Variant(startId + i, productId, tuples[i], "", sku, None)
  {
    seq(|tuples|, i requires 0 <= i < |tuples| => Variant(startId + i, productId, tuples[i], "", sku, None))
  }

  /** `variant.deleteMany({ where: { productId } })`. */
  function OtherProducts(variants: seq<Variant>, productId: Id): (r: seq<Variant>)
    ensures forall v :: v in r <==> v in variants && v.productId != productId
  {
    if variants == [] then []
    else (if variants[0].productId == productId then [] else [variants[0]]) + OtherProducts(variants[1..], productId)
  }

  /** The tuples a product's options generate, from the option and value
      tables as they are. */
  function ProductTuples(options: seq<Row<OptionData>>, values: seq<Row<string>>, productId: Id): seq<Tuple>
  {
    MatrixTuples(ValueLists(ProductOptions(options, productId), values))
  }

  /** The variants createOption and removeOption leave: the product's old
      variants are gone, and, when the product still has an option, there is
      one new variant per generated tuple. */
  function Regenerated(variants: seq<Variant>, options: seq<Row<OptionData>>, values: seq<Row<string>>,
                       productId: Id, sku: Option<string>, startId: Id): (r: seq<Variant>)
    ensures forall v: Variant :: v.productId != productId ==> (v in r <==> v in variants)
    ensures forall v :: v in r && v.productId == productId ==> v.sku == sku && v.barcode == None && v.id >= startId
  {
    var kept := OtherProducts(variants, productId);
    if Inside(options, productId) == [] then kept
    else kept + NewVariants(ProductTuples(options, values, productId), productId, sku, startId)
  }

  /** After a regeneration the product's variants are exactly one per
      generated tuple, each carrying the product's SKU; with no option left the
      product has none. */
  lemma RegeneratedVariants(variants: seq<Variant>, options: seq<Row<OptionData>>, values: seq<Row<string>>,
                            productId: Id, sku: Option<string>, startId: Id)
    ensures var r := Regenerated(variants, options, values, productId, sku, startId);
      var tuples := ProductTuples(options, values, productId);
      && (forall v: Variant :: v.productId != productId ==> (v in r <==> v in variants))
      && (Inside(options, productId) == [] ==> forall v :: v in r ==> v.productId != productId)
      && (Inside(options, productId) != [] ==>
            forall t :: (exists v :: v in r && v.productId == productId && v.tuple == t) <==> t in tuples)
      && (forall v :: v in r && v.productId == productId ==> v.sku == sku && v.barcode == None && v.id >= startId)
  {
    var kept := OtherProducts(variants, productId);
    var tuples := ProductTuples(options, values, productId);
    var created := NewVariants(tuples, productId, sku, startId);
    assert forall v :: v in kept ==> v.productId != productId;
    assert forall v :: v in created ==> v.productId == productId;
    if Inside(options, productId) != [] {
      var r := kept + created;
      assert r == Regenerated(variants, options, values, productId, sku, startId);
      forall v | v in r && v.productId == productId ensures v.sku == sku && v.barcode == None && v.id >= startId {
        assert v !in kept;
        var i :| 0 <= i < |created| && created[i] == v;
      }
      forall t ensures (exists v :: v in kept + created && v.productId == productId && v.tuple == t) <==> t in tuples {
        if t in tuples {
          var i :| 0 <= i < |tuples| && tuples[i] == t;
          assert created[i] in kept + created;
        }
      }
    }
  }

  /** The tuples of the product's variants (`allProductVariants`), in table order. */
  function TuplesOf(variants: seq<Variant>, productId: Id): (r: seq<Tuple>)
    ensures forall t :: t in r <==> exists v :: v in variants && v.productId == productId && v.tuple == t
  {
    if variants == [] then []
    else
      var rest := TuplesOf(variants[1..], productId);
      assert forall v :: v in variants <==> v == variants[0] || v in variants[1..];
      (if variants[0].productId == productId then [variants[0].tuple] else []) + rest
  }

  lemma {:induction false} TuplesOfConcat(a: seq<Variant>, b: seq<Variant>, productId: Id)
    ensures TuplesOf(a + b, productId) == TuplesOf(a, productId) + TuplesOf(b, productId)
  {
    if a == [] {
      assert a + b == b;
    } else {
      assert (a + b)[0] == a[0];
      assert (a + b)[1..] == a[1..] + b;
      TuplesOfConcat(a[1..], b, productId);
    }
  }

  lemma {:induction false} TuplesOfNew(tuples: seq<Tuple>, productId: Id, sku: Option<string>, startId: Id)
    ensures TuplesOf(NewVariants(tuples, productId, sku, startId), productId) == tuples
  {
    if tuples != [] {
      var created := NewVariants(tuples, productId, sku, startId);
      assert created[1..] == NewVariants(tuples[1..], productId, sku, startId + 1);
      TuplesOfNew(tuples[1..], productId, sku, startId + 1);
    }
  }

  /** updateOption's synchronisation: a new variant for every generated tuple
      no variant of the product has yet. */
  function Synced(variants: seq<Variant>, options: seq<Row<OptionData>>, values: seq<Row<string>>,
                  productId: Id, sku: Option<string>, startId: Id): (r: seq<Variant>)
    ensures |r| >= |variants| && r[..|variants|] == variants
    ensures forall i :: |variants| <= i < |r| ==> r[i].productId == productId && r[i].sku == sku && r[i].id >= startId
  {
    variants + NewVariants(NotIn(ProductTuples(options, values, productId), TuplesOf(variants, productId)), productId, sku, startId)
  }

  /** The synchronisation deletes and changes nothing; afterwards every
      generated tuple has a variant of the product; every created variant is
      the product's, has a generated tuple and no old variant of the product
      had it; and tuples that did not repeat before do not repeat after. */
  lemma SyncedSpec(variants: seq<Variant>, options: seq<Row<OptionData>>, values: seq<Row<string>>,
                   productId: Id, sku: Option<string>, startId: Id)
    ensures var r := Synced(variants, options, values, productId, sku, startId);
      var tuples := ProductTuples(options, values, productId);
      && |r| >= |variants| && r[..|variants|] == variants
      && (forall t :: t in tuples ==> exists v :: v in r && v.productId == productId && v.tuple == t)
      && (forall i :: |variants| <= i < |r| ==>
            r[i].productId == productId && r[i].tuple in tuples && r[i].tuple !in TuplesOf(variants, productId))
      && (Combinations.NoDuplicates(tuples) && Combinations.NoDuplicates(TuplesOf(variants, productId)) ==>
            Combinations.NoDuplicates(TuplesOf(r, productId)))
  {
    var tuples := ProductTuples(options, values, productId);
    var existing := TuplesOf(variants, productId);
    var missing := NotIn(tuples, existing);
    var created := NewVariants(missing, productId, sku, startId);
    var r := variants + created;
    NotInSpec(tuples, existing);
    TuplesOfConcat(variants, created, productId);
    TuplesOfNew(missing, productId, sku, startId);
    forall t | t in tuples ensures exists v :: v in r && v.productId == productId && v.tuple == t {
      if t !in existing {
        var i :| 0 <= i < |missing| && missing[i] == t;
        assert created[i] in r;
      }
    }
    forall i | |variants| <= i < |r|
      ensures r[i].productId == productId && r[i].tuple in tuples && r[i].tuple !in existing
    {
      assert r[i] == created[i - |variants|];
      assert missing[i - |variants|] in missing;
    }
  }

  /** True when another option of the product already has the title (the
      uniqueness of option titles within a product). */
  predicate OptionTitleTaken(options: seq<Row<OptionData>>, scope: Option<Id>, exceptId: Option<Id>, title: string)
  {
    exists i :: 0 <= i < |options| && options[i].scope == scope && Some(options[i].id) != exceptId && options[i].data.title == title
  }

  /** `option.update({ data: { title } })`. */
  function WithOptionTitle(options: seq<Row<OptionData>>, id: Id, title: string): (r: seq<Row<OptionData>>)
    ensures |r| == |options|
    ensures forall i :: 0 <= i < |r| ==> r[i] == if options[i].id == id then options[i].(data := options[i].data.(title := title)) else options[i]
  {
    seq(|options|, i requires 0 <= i < |options| =>
      if options[i].id == id then options[i].(data := options[i].data.(title := title)) else options[i])
  }

  /** True when a value of the option already has one of the titles. */
  predicate AnyTitleUsed(values: seq<Row<string>>, optionId: Id, titles: seq<string>)
  {
    exists i, k :: 0 <= i < |values| && 0 <= k < |titles| && InScope(values[i], optionId) && values[i].data == titles[k]
  }

  // ---------------------------------------------------------------------
  // Value renames
  // ---------------------------------------------------------------------

  /** `variant.updateMany({ where: { option<k>: old, productId }, data: { option<k>: new } })`. */
  function RenamedVariants(variants: seq<Variant>, productId: Id, slot: Slot, from: string, to: string): (r: seq<Variant>)
    ensures |r| == |variants|
    ensures forall i :: 0 <= i < |r| ==> r[i].(tuple := variants[i].tuple) == variants[i]
  {
    seq(|variants|, i requires 0 <= i < |variants| =>
      var v := variants[i];
      if v.productId == productId && v.tuple[slot] == Some(from) then v.(tuple := v.tuple[slot := Some(to)]) else v)
  }

  /** A rename rewrites the slot from the old title to the new one on exactly
      the product's variants that carried the old title there, and touches no
      other slot and no other variant. */
  lemma RenamedVariantsSpec(variants: seq<Variant>, productId: Id, slot: Slot, from: string, to: string)
    ensures var r := RenamedVariants(variants, productId, slot, from, to);
      forall i :: 0 <= i < |r| ==>
        && (forall k: Slot :: k != slot ==> r[i].tuple[k] == variants[i].tuple[k])
        && (if variants[i].productId == productId && variants[i].tuple[slot] == Some(from)
            then r[i].tuple[slot] == Some(to)
            else r[i] == variants[i])
    ensures from != to ==>
      forall v :: v in RenamedVariants(variants, productId, slot, from, to) && v.productId == productId ==>
        v.tuple[slot] != Some(from)
  {
  }

  /** The live offers whose variant belongs to the product and whose variant
      title contains the old value title get the title recomputed from their
      variant's current tuple. */
  function Retitled(offers: seq<Offer>, variants: seq<Variant>, productId: Id, from: string, slots: seq<Slot>): (r: seq<Offer>)
    ensures |r| == |offers|
    ensures forall i :: 0 <= i < |r| ==> r[i].(variantTitle := offers[i].variantTitle) == offers[i]
  {
    seq(|offers|, i requires 0 <= i < |offers| =>
      var o := offers[i];
      if IsLive(o.status) && OnProduct(o, variants, productId) && Contains(o.variantTitle, from)
      then o.(variantTitle := VariantTitle(FindVariant(variants, o.variantId.value).value.tuple, slots))
      else o)
  }

  /** After a rename, every offer the filter selects shows the title of its
      variant's current tuple, and every other offer keeps its title. */
  lemma RetitledSpec(offers: seq<Offer>, variants: seq<Variant>, productId: Id, from: string, slots: seq<Slot>)
    ensures var r := Retitled(offers, variants, productId, from, slots);
      forall i :: 0 <= i < |r| ==>
        if IsLive(offers[i].status) && OnProduct(offers[i], variants, productId) && Contains(offers[i].variantTitle, from)
        then exists v :: v in variants && Some(v.id) == offers[i].variantId && v.productId == productId &&
                         r[i].variantTitle == VariantTitle(v.tuple, slots)
        else r[i] == offers[i]
  {
  }

  /** `optionValue.update({ data: { title } })`. */
  function WithValueTitle(values: seq<Row<string>>, id: Id, title: string): (r: seq<Row<string>>)
    ensures |r| == |values|
    ensures forall i :: 0 <= i < |r| ==> r[i] == if values[i].id == id then values[i].(data := title) else values[i]
  {
    seq(|values|, i requires 0 <= i < |values| => if values[i].id == id then values[i].(data := title) else values[i])
  }

  /** True when another value of the same option already has the title (the
      uniqueness of value titles within an option). */
  predicate TitleTaken(values: seq<Row<string>>, scope: Option<Id>, exceptId: Id, title: string)
  {
    exists i :: 0 <= i < |values| && values[i].scope == scope && values[i].id != exceptId && values[i].data == title
  }

  /** True when two titles of the list are equal. */
  predicate HasRepeats(titles: seq<string>)
  {
    exists i, j :: 0 <= i < j < |titles| && titles[i] == titles[j]
  }

  // ---------------------------------------------------------------------
  // Value deletions
  // ---------------------------------------------------------------------

  /** The variants `variant.deleteMany({ where: { option<k>: title, productId } })` removes. */
  function CarryingIds(variants: seq<Variant>, productId: Id, slot: Slot, title: string): (r: set<Id>)
    ensures forall id :: id in r <==> exists v :: v in variants && v.id == id && v.productId == productId && v.tuple[slot] == Some(title)
  {
    set v | v in variants && v.productId == productId && v.tuple[slot] == Some(title) :: v.id
  }

  /** `variant.deleteMany({ where: { option<k>: title, productId } })`: the
      product's variants carrying the title in the slot are gone, every other
      variant stays. */
  function WithoutCarriers(variants: seq<Variant>, productId: Id, slot: Slot, title: string): (r: seq<Variant>)
    ensures forall v :: v in r <==> v in variants && !(v.productId == productId && v.tuple[slot] == Some(title))
  {
    if variants == [] then []
    else
      var v := variants[0];
      (if v.productId == productId && v.tuple[slot] == Some(title) then [] else [v])
        + WithoutCarriers(variants[1..], productId, slot, title)
  }

  /** `optionValue.delete`: the row with that id is gone. */
  function WithoutRow<T>(rows: seq<Row<T>>, id: Id): (r: seq<Row<T>>)
    ensures forall i :: 0 <= i < |r| ==> r[i] in rows && r[i].id != id
    ensures forall i :: 0 <= i < |rows| && rows[i].id != id ==> rows[i] in r
  {
    if rows == [] then []
    else (if rows[0].id == id then [] else [rows[0]]) + WithoutRow(rows[1..], id)
  }

  /** The rows of other scopes: removing an option removes its values. */
  function WithoutScope<T>(rows: seq<Row<T>>, scope: Id): seq<Row<T>>
  {
    Outside(rows, scope)
  }

  // ---------------------------------------------------------------------
  // The loops of updateOption
  // ---------------------------------------------------------------------

  /** The three tables a value edit touches. */
  datatype Tables = Tables(values: seq<Row<string>>, variants: seq<Variant>, offers: seq<Offer>)

  /** One entry of `updateOptionValues`. */
  datatype Rename = Rename(id: Id, title: string)

  /** The slot of the option a value belongs to; `None` when the value or its
      option is missing. */
  function SlotOfValue(options: seq<Row<OptionData>>, value: Row<string>): (r: Option<Slot>)
    ensures r.Some? <==> value.scope.Some? && FindRow(options, value.scope.value).Some?
  {
    if value.scope.None? then None
    else match FindRow(options, value.scope.value)
      case None => None
      case Some(option) => Some(option.data.slot)
  }

  /** One pass of the rename loop: rename the value (a missing value fails, a
      title another value of the option has is not unique), rewrite the
      product's variants that carried the old title in the option's slot, and
      retitle the live offers on them. */
  function RenameStep(t: Tables, options: seq<Row<OptionData>>, productId: Id, rn: Rename): (r: Result<Tables, Error>)
    ensures r.Success? <==>
      && FindRow(t.values, rn.id).Some?
      && !TitleTaken(t.values, FindRow(t.values, rn.id).value.scope, rn.id, rn.title)
      && SlotOfValue(options, FindRow(t.values, rn.id).value).Some?
    ensures r == Failure(NotUnique) <==>
      FindRow(t.values, rn.id).Some? && TitleTaken(t.values, FindRow(t.values, rn.id).value.scope, rn.id, rn.title)
    ensures r.Success? ==>
      && |r.value.values| == |t.values|
      && forall i :: 0 <= i < |t.values| ==>
           r.value.values[i].data == (if t.values[i].id == rn.id then rn.title else t.values[i].data)
  {
    match FindRow(t.values, rn.id)
    case None => Failure(ServerError)
    case Some(value) =>
      if TitleTaken(t.values, value.scope, rn.id, rn.title) then Failure(NotUnique)
      else match SlotOfValue(options, value)
        case None => Failure(ServerError)
        case Some(slot) =>
          var variants := RenamedVariants(t.variants, productId, slot, value.data, rn.title);
          Success(Tables(WithValueTitle(t.values, rn.id, rn.title), variants,
                         Retitled(t.offers, variants, productId, value.data, SlotsOf(ProductOptions(options, productId)))))
  }

  /** The rename loop: the passes in request order, stopping at the first failure. */
  function RenameAll(t: Tables, options: seq<Row<OptionData>>, productId: Id, renames: seq<Rename>): Result<Tables, Error>
    decreases |renames|
  {
    if renames == [] then Success(t)
    else
      var next :- RenameStep(t, options, productId, renames[0]);
      RenameAll(next, options, productId, renames[1..])
  }

  /** One pass of the deletion loop: delete the value (a missing one fails),
      delete the product's variants carrying its title in the option's slot,
      and unlink the offers on them. */
  function DeleteStep(t: Tables, options: seq<Row<OptionData>>, productId: Id, id: Id): (r: Result<Tables, Error>)
    ensures r.Success? <==> FindRow(t.values, id).Some? && SlotOfValue(options, FindRow(t.values, id).value).Some?
    ensures r.Failure? ==> r == Failure(ServerError)
    ensures r.Success? ==> forall i :: 0 <= i < |r.value.values| ==> r.value.values[i].id != id
  {
    match FindRow(t.values, id)
    case None => Failure(ServerError)
    case Some(value) =>
      match SlotOfValue(options, value)
      case None => Failure(ServerError)
      case Some(slot) =>
        Success(Tables(WithoutRow(t.values, id),
                       WithoutCarriers(t.variants, productId, slot, value.data),
                       Unlinked(t.offers, CarryingIds(t.variants, productId, slot, value.data))))
  }

  /** The deletion loop: the passes in request order, stopping at the first failure. */
  function DeleteAll(t: Tables, options: seq<Row<OptionData>>, productId: Id, ids: seq<Id>): Result<Tables, Error>
    decreases |ids|
  {
    if ids == [] then Success(t)
    else
      var next :- DeleteStep(t, options, productId, ids[0]);
      DeleteAll(next, options, productId, ids[1..])
  }

  /** A deletion pass removes the value and exactly the product's variants
      that carried its title in its option's slot; every offer that was on
      one of them is left without a variant, and no other offer changes. */
  lemma DeleteStepSpec(t: Tables, options: seq<Row<OptionData>>, productId: Id, id: Id)
    requires DeleteStep(t, options, productId, id).Success?
    ensures var value := FindRow(t.values, id).value;
      var slot := SlotOfValue(options, value).value;
      var r := DeleteStep(t, options, productId, id).value;
      && (forall i :: 0 <= i < |r.values| ==> r.values[i].id != id)
      && (forall v :: v in r.variants <==> v in t.variants && !(v.productId == productId && v.tuple[slot] == Some(value.data)))
      && (forall i :: 0 <= i < |t.offers| ==>
            if t.offers[i].variantId.Some? && t.offers[i].variantId.value in CarryingIds(t.variants, productId, slot, value.data)
            then r.offers[i] == t.offers[i].(variantId := None)
            else r.offers[i] == t.offers[i])
  {
  }

  /** The rename loop as the transaction runs it: one pass per entry, in
      request order, stopping at the first failure. */
  method RenameLoop(t: Tables, options: seq<Row<OptionData>>, productId: Id, renames: seq<Rename>) returns (r: Result<Tables, Error>)
    ensures r == RenameAll(t, options, productId, renames)
  {
    var cur := t;
    for i := 0 to |renames|
      invariant RenameAll(t, options, productId, renames) == RenameAll(cur, options, productId, renames[i..])
    {
      assert renames[i..][0] == renames[i] && renames[i..][1..] == renames[i + 1..];
      var step := RenameStep(cur, options, productId, renames[i]);
      if step.Failure? {
        return Failure(step.error);
      }
      cur := step.value;
    }
    assert renames[|renames|..] == [];
    return Success(cur);
  }

  /** The deletion loop as the transaction runs it. */
  method DeleteLoop(t: Tables, options: seq<Row<OptionData>>, productId: Id, ids: seq<Id>) returns (r: Result<Tables, Error>)
    ensures r == DeleteAll(t, options, productId, ids)
  {
    var cur := t;
    for i := 0 to |ids|
      invariant DeleteAll(t, options, productId, ids) == DeleteAll(cur, options, productId, ids[i..])
    {
      assert ids[i..][0] == ids[i] && ids[i..][1..] == ids[i + 1..];
      var step := DeleteStep(cur, options, productId, ids[i]);
      if step.Failure? {
        return Failure(step.error);
      }
      cur := step.value;
    }
    assert ids[|ids|..] == [];
    return Success(cur);
  }
}
