# SB catalogue, offers and editor diffs in Dafny

This project models the core of the SB shop back office:

- **Option/variant matrix** (`product.service.ts`):
  - a product has up to three options;
  - each option sits in a slot 0..2 and has ordered values;
  - the product's variants are the tuples `(option0, option1, option2)` of value titles;
  - `createOption` and `removeOption` regenerate every variant from the Cartesian product of the options' values;
  - `updateOption` renames, reorders and deletes values in place, then adds only the missing combinations.
- **Positional reorder primitive**, shared by option values, options, and product and variant images:
  - a move exchanges the positions of two rows;
  - a deletion renumbers the remaining rows 0..n-1 in their old order;
  - an upload appends after the last position.
- **Offer lifecycle** (`offer.service.ts`, `variant.service.ts`, `product.service.ts`):
  - SOLD and RETURNING offers are frozen;
  - a NO_MATCH offer only changes status by being relinked to a variant;
  - offers that lose their variant are demoted to NO_MATCH;
  - product and variant titles are copied onto live offers.
- **Price sync** of the parser service (`shop.service.ts`):
  - `upsertOffers` replaces a seller's replaceable offers on a variant by `amount` fresh ACTIVE copies;
  - the per-product projection computes the shop price, the amount and `pfactor`.
- **Default delivery profile** (`shipping.service.ts`): at most one profile is the default, the default cannot be removed, and offers that lose their profile go to the default.
- **Client editors**:
  - the features block of the product editor computes the change set it sends (`Features.tsx`);
  - the drag-over swap of features and of feature values (`Features.tsx`, `Feature.tsx`);
  - the new-feature row editor and the new-value form (`Features.tsx`, `Feature.tsx`);
  - the address list of the user editor and its change set (`Addresses.tsx`).

The database is a `Database.Store` class.
- Its tables are fields: products, options, option values, variants, offers, product images, variant images and delivery profiles.
- Every `$transaction` of the services is one method of the class. It changes the fields only when every step succeeds.
- Each method is specified by pure functions over the tables: `OptionAdded`, `UpdateOptionTx`, `EditedOffer`, `ProfileUpdate` and the like.
- Lemmas prove what the services promise about those functions.

Loops of the source are Dafny methods with loop invariants, proved against those functions:
- the renumbering `for` loops;
- the search for a free slot;
- the collection of missing combinations;
- the rename and deletion loops of `updateOption`.

The positional move also exists as an in-place method over an `array`.

Modules:

| file | module | what |
|---|---|---|
| wrappers.dfy | Wrappers | `Option` and `Result` |
| sorting.dfy | Sorting | sort by an integer key (a sorted permutation): `ORDER BY position` and `Array.prototype.sort` with a numeric comparator |
| lists.dfy | Lists | `filter`, `map`, and the permutation facts the drag handlers need |
| combinations.dfy | Combinations | `getCombinations` |
| reorder.dfy | Reorder | positioned rows: move, compaction, append; the in-place versions |
| catalog.dfy | Catalog | products, variants and offers; `Field` (a request field that may be left out); demotion; title propagation |
| matrix.dfy | Matrix | tuples of the option matrix; slot choice; missing combinations; the `" | "` variant title |
| products.dfy | Products | regeneration and synchronisation of variants; value renames and deletions |
| images.dfy | Images | image upload, edit and removal |
| variants.dfy | Variants | createVariant and updateVariant |
| offers.dfy | Offers | createOffer, updateOffer and removeOffer |
| shipping.dfy | Shipping | updateProfile and removeProfile |
| shop.dfy | Shop | the parser service's product projection and `upsertOffers` |
| store.dfy | Database | the `Store` class: one atomic method per transaction |
| drag.dfy | Dragging | the client's editable list entries and the drag-over swap |
| features.dfy | Features | the features block: change set, edit handlers, new-feature editor |
| feature_card.dfy | FeatureCard | one feature's card: the new-value form and the value drag |
| addresses.dfy | Addresses | the address block: change set and list handlers |

Where the specification of the repository and the code disagree, the model follows the code:
- `removeOption` renumbers the remaining options' positions. It does not move the options' slots (product.service.ts:842-852).
- `createOption` and `removeOption` also regenerate the variants when the product has options left.

## Model

| member | source | states |
|---|---|---|
| Combinations.CombinationsMember | cms-server/src/core/products/product.service.ts:1032-1039 | a sequence is a combination exactly when it picks, list by list, one element of each input list |
| Combinations.CombinationsCount | cms-server/src/core/products/product.service.ts:1032-1039 | the number of combinations is the product of the list lengths; no lists give exactly `[[]]` |
| Combinations.ProductWithEmpty | cms-server/src/core/products/product.service.ts:1032-1039 | an empty input list makes the product of the lengths zero, so no combination is produced |
| Combinations.CombinationsSnoc | cms-server/src/core/products/product.service.ts:1032-1039 | one more input list extends every earlier combination, in order, by each element of the new list |
| Combinations.CombinationsNoDuplicates | cms-server/src/core/products/product.service.ts:1032-1039 | when no input list repeats an element, no combination appears twice |
| Combinations.Extended | cms-server/src/core/products/product.service.ts:1035 | `array.map(num => [...combination, num])`: one extension per element, in order |
| Sorting.SortBy | cms-server/src/core/products/product.service.ts:363-367 | the result is sorted by the key and is a permutation of the input |
| Sorting.InsertSorted | cms-server/src/core/products/product.service.ts:363-367 | inserting into a sequence sorted by the key keeps it sorted |
| Lists.Filter | cms-client/components/products/blocks/Features.tsx:30-31 | the kept elements are exactly the input elements that satisfy the predicate, and there are no more of them than inputs |
| Lists.FilterCounts | cms-client/components/products/blocks/Features.tsx:30-31 | each kept value occurs in the result as often as in the input, and a rejected value not at all |
| Lists.FilterSelects | cms-client/components/products/blocks/Features.tsx:30-31 | the result is the input at the kept positions, in increasing order of position |
| Lists.FilterEmpty | cms-client/components/products/blocks/Features.tsx:30-31 | the result is empty exactly when no element is kept |
| Lists.FilterShorter | cms-client/components/products/blocks/Features.tsx:145 | filtering out an element that is present shortens the list |
| Lists.Map | cms-client/components/products/blocks/Features.tsx:30 | `map` keeps the length and applies the function at every index |
| Lists.NonEmpty | cms-client/components/products/blocks/Features.tsx:55-57 | an empty list is sent as `undefined`; any other list is sent as it is |
| Lists.MapPermutation | cms-client/components/products/cards/Feature.tsx:50-56 | mapping one function over two permutations of a list gives two permutations of one list |
| Lists.SwapPermutation | cms-client/components/products/cards/Feature.tsx:51-56 | exchanging two elements keeps the same multiset |
| Reorder.FindRow | cms-server/src/core/products/product.service.ts:612-620 | `findFirst` by id returns a row of the table with that id, and nothing only when no row has it |
| Reorder.Inside | cms-server/src/core/products/product.service.ts:663-667 | every row it lists is a row of the table in the scope, and every such row is listed |
| Reorder.Move | cms-server/src/core/products/product.service.ts:611-640 | a move fails exactly when no row has the mover's id; otherwise the table keeps its length and every row changes in its position only |
| Reorder.MoveIsTransposition | cms-server/src/core/products/product.service.ts:611-640 | the mover's scope goes through the transposition of its old position and the target; the row at the target takes the mover's old position; other scopes are untouched |
| Reorder.MoveToFreePosition | cms-server/src/core/products/product.service.ts:622-639 | when no row of the scope holds the target, only the mover changes |
| Reorder.TransposedDense | cms-server/src/core/products/product.service.ts:682-711 | transposing two used positions of a scope whose positions are 0..n-1 keeps them 0..n-1 |
| Reorder.MovePreservesDense | cms-server/src/core/products/product.service.ts:682-711 | moving to a position the scope uses keeps the scope's positions exactly 0..n-1 |
| Reorder.Compacted | cms-server/src/core/products/product.service.ts:663-678 | compaction keeps the number of rows, and the rows outside the scope are the same before and after |
| Reorder.CompactedIsPermutation | cms-server/src/core/products/product.service.ts:663-678 | compaction permutes the table and changes positions only |
| Reorder.CompactedOrder | cms-server/src/core/products/product.service.ts:663-678 | after compaction the scope holds its old rows in ascending order of old position, the i-th at position i |
| Reorder.CompactedIsDense | cms-server/src/core/products/product.service.ts:843-852 | after compaction the scope's positions are exactly 0..n-1 |
| Reorder.ByPositionMembers | cms-server/src/core/products/product.service.ts:363-367 | the scope's rows in position order are a permutation of the scope's rows |
| Reorder.ByPositionOrdered | cms-server/src/core/products/product.service.ts:363-367 | in position order, a row with a smaller position comes earlier |
| Reorder.LastPosition | cms-server/src/core/products/product.service.ts:269-275 | the highest position of the scope, or nothing for an empty scope |
| Reorder.Appended | cms-server/src/core/products/product.service.ts:275-287 | new rows get positions last+1, last+2, ... (0, 1, ... for an empty scope) in request order |
| Reorder.AppendedPositions | cms-server/src/core/variants/variant.service.ts:308-326 | appended rows come after every row of the scope, so the scope's positions stay distinct |
| Reorder.RenumberInPlace | cms-server/src/core/products/product.service.ts:369-378 | the loop gives the i-th row position i and changes nothing else |
| Reorder.CompactRows | cms-server/src/core/products/product.service.ts:663-678 | the loop computes `Compacted` |
| Reorder.MoveInPlace | cms-server/src/core/products/product.service.ts:611-640 | on an array, the move finds the mover and writes `MovedRows`, or reports a missing mover and changes nothing |
| Reorder.MoveRows | cms-server/src/core/products/product.service.ts:682-711 | the array round trip computes `Move` |
| Catalog.FindVariant | cms-server/src/core/offers/offer.service.ts:179-194 | a variant with the id, or nothing exactly when none has it |
| Catalog.FindOffer | cms-server/src/core/offers/offer.service.ts:249-260 | an offer with the id, or nothing exactly when none has it |
| Catalog.FindProduct | cms-server/src/core/variants/variant.service.ts:236-256 | a product with the id, or nothing exactly when none has it |
| Catalog.VariantIdsOf | cms-server/src/core/products/product.service.ts:455-458 | exactly the ids of the product's variants |
| Catalog.WithoutVariants | cms-server/src/core/variants/variant.service.ts:492-494 | the deleted variants are gone and every other one stays |
| Catalog.Unlinked | cms-server/src/core/variants/variant.service.ts:492-494 | offers of deleted variants lose their variant and keep every other field |
| Catalog.DemoteOrphans | cms-server/src/core/variants/variant.service.ts:496-506 | only statuses change; an offer changes only when it has no variant and is not SOLD, NO_MATCH or RETURNING, and then becomes NO_MATCH; afterwards no live offer lacks a variant |
| Catalog.DemoteOrphansKeeps | cms-server/src/core/products/product.service.ts:476-486 | SOLD and RETURNING offers and offers with a variant are untouched; demoting twice is demoting once; nothing changes when no live offer lacks a variant |
| Catalog.DeletionDemotes | cms-server/src/core/variants/variant.service.ts:489-507 | an offer of a deleted variant ends without it, NO_MATCH unless it was SOLD, RETURNING or already NO_MATCH |
| Catalog.WithProductTitle | cms-server/src/core/products/product.service.ts:947-961 | only the product title changes, and only on live offers whose variant belongs to the product |
| Catalog.WithTodoTitle | cms-server/src/core/variants/variant.service.ts:463-473 | only the variant title changes, and only on the variant's live offers, to "TODO" |
| Catalog.WithVariantTitle | cms-server/src/core/variants/variant.service.ts:463-473 | only the variant title changes, and only on the variant's live offers, to the given title |
| Catalog.Contains | cms-server/src/core/products/product.service.ts:573-575 | `contains` holds exactly when the text occurs at some index |
| Matrix.EntriesOf | cms-server/src/core/products/product.service.ts:738 | every entry carries the option's slot |
| Matrix.ValueLists | cms-server/src/core/products/product.service.ts:462 | one list per option, each entry tagged with that option's slot |
| Matrix.Pick | cms-server/src/core/products/product.service.ts:468-470 | the title of the first entry of the slot, or null when no entry has it |
| Matrix.MatrixTuples | cms-server/src/core/products/product.service.ts:463-472 | one tuple per combination of the value lists |
| Matrix.TupleOfChoice | cms-server/src/core/products/product.service.ts:466-471 | a combination's tuple puts each option's chosen title in its slot and null in every slot no option holds |
| Matrix.MatrixTuplesSpec | cms-server/src/core/products/product.service.ts:461-473 | a tuple is generated exactly when it chooses one value per option; the count is the product of the value counts; with distinct titles per option no tuple repeats |
| Matrix.ChoicesDiffer | cms-server/src/core/products/product.service.ts:461-473 | two different choices give two different tuples |
| Matrix.FreeSlot | cms-server/src/core/products/product.service.ts:402-408 | given fewer than three ascending slots, the loop returns a slot not in use, and every smaller slot is in use |
| Matrix.SlotOrderSpec | cms-server/src/core/products/product.service.ts:392-396 | `cOptions` lists one ascending slot per option of the product, exactly the slots its options hold |
| Matrix.SlotOrderSound | cms-server/src/core/products/product.service.ts:392-396 | every slot of `cOptions` is held by an option of the product |
| Matrix.SlotOrderComplete | cms-server/src/core/products/product.service.ts:392-396 | every option of the product has its slot in `cOptions` |
| Matrix.MissingTuples | cms-server/src/core/products/product.service.ts:751-767 | the loop collects, in order, the combinations no existing variant has |
| Matrix.NotIn | cms-server/src/core/products/product.service.ts:751-767 | no more missing tuples than combinations |
| Matrix.NotInMembers | cms-server/src/core/products/product.service.ts:751-767 | each missing tuple is a combination that no existing variant has |
| Matrix.NotInSpec | cms-server/src/core/products/product.service.ts:737-771 | afterwards every combination has a variant, and the tuples do not repeat if neither the combinations nor the existing tuples did |
| Matrix.SlotsOf | cms-server/src/core/products/product.service.ts:605 | the slots of the options, in option order |
| Matrix.TitleParts | cms-server/src/core/products/product.service.ts:605 | one text per option, in option order, with null as the empty text |
| Matrix.FindSeparator | cms-server/src/core/products/product.service.ts:605 | a found index is followed by `" \| "` |
| Matrix.NoSeparator | cms-server/src/core/products/product.service.ts:605 | a text without a bar has no separator |
| Matrix.SeparatorAfter | cms-server/src/core/products/product.service.ts:605 | in `a + " \| " + rest` with no bar in `a`, the first separator follows `a` |
| Matrix.SplitJoin | cms-server/src/core/products/product.service.ts:605 | joining by `" \| "` parts without a bar and splitting again gives the parts back |
| Matrix.VariantTitle | cms-server/src/core/products/product.service.ts:605 | for a product with options and texts without a bar, the `" \| "` title splits back into the slot texts in option order, so two titles are equal only when those texts are |
| Products.ValueRows | cms-server/src/core/products/product.service.ts:418-421 | the new values keep request order, with positions from the start position on |
| Products.NewVariants | cms-server/src/core/products/product.service.ts:465-473 | one variant per tuple, of the product, with the product's SKU |
| Products.OtherProducts | cms-server/src/core/products/product.service.ts:455-458 | exactly the other products' variants stay |
| Products.Regenerated | cms-server/src/core/products/product.service.ts:455-474 | other products' variants stay exactly; every variant of the product has the product's SKU, no barcode and a fresh id |
| Products.RegeneratedVariants | cms-server/src/core/products/product.service.ts:455-474 | afterwards the product's variants are exactly one per generated tuple with the product's SKU, none when no option is left, and other products' variants are untouched |
| Products.TuplesOf | cms-server/src/core/products/product.service.ts:740-749 | the tuples of exactly the product's variants |
| Products.Synced | cms-server/src/core/products/product.service.ts:715-771 | the old variants stay in place as a prefix; every added one is the product's, with its SKU and a fresh id |
| Products.SyncedSpec | cms-server/src/core/products/product.service.ts:737-771 | the sync deletes and changes nothing; every generated tuple then has a variant; each new variant has a generated tuple no old variant had; tuples that did not repeat still do not |
| Products.WithOptionTitle | cms-server/src/core/products/product.service.ts:531-534 | only the named option's title changes |
| Products.RenamedVariants | cms-server/src/core/products/product.service.ts:557-562 | per-variant form of the slot rewrite |
| Products.RenamedVariantsSpec | cms-server/src/core/products/product.service.ts:557-562 | exactly the product's variants carrying the old title in the slot get the new one; no other slot and no other variant changes |
| Products.Retitled | cms-server/src/core/products/product.service.ts:565-608 | an offer changes in its variant title only |
| Products.RetitledSpec | cms-server/src/core/products/product.service.ts:565-608 | each selected offer shows the `" \| "` title of its variant's current tuple; every other offer keeps its title |
| Products.WithValueTitle | cms-server/src/core/products/product.service.ts:550-555 | only the named value's title changes |
| Products.CarryingIds | cms-server/src/core/products/product.service.ts:657-659 | exactly the ids of the product's variants carrying the title in the slot |
| Products.WithoutCarriers | cms-server/src/core/products/product.service.ts:657-659 | those variants are gone and every other one stays |
| Products.WithoutRow | cms-server/src/core/products/product.service.ts:645-655 | the row with the id is gone and every other row stays |
| Products.SlotOfValue | cms-server/src/core/products/product.service.ts:538-548 | the slot of the value's option, or nothing when the option is missing |
| Products.RenameStep | cms-server/src/core/products/product.service.ts:537-609 | a rename succeeds exactly when the value exists, its option has a slot and the title is free in the option; a taken title is exactly the not-unique failure; on success exactly the named value gets the title |
| Products.DeleteStep | cms-server/src/core/products/product.service.ts:643-660 | a deletion succeeds exactly when the value exists and its option has a slot, and otherwise fails with the server error; afterwards no value has the id |
| Products.DeleteStepSpec | cms-server/src/core/products/product.service.ts:644-659 | a deletion pass removes the value and exactly the product's variants carrying its title in its slot; their offers lose the variant; no other offer changes |
| Products.RenameLoop | cms-server/src/core/products/product.service.ts:537-609 | the loop computes `RenameAll`: the passes in request order, stopping at the first failure |
| Products.DeleteLoop | cms-server/src/core/products/product.service.ts:644-660 | the loop computes `DeleteAll` |
| Images.Uploaded | cms-server/src/core/products/product.service.ts:276-283 | one image per stored file, in order, with the owner's product title as `alt` |
| Images.WithImageData | cms-server/src/core/products/product.service.ts:303-311 | only the named image changes: the given source and text, the others kept |
| Images.Detached | cms-server/src/core/products/product.service.ts:356-361 | only the named image changes: it leaves its owner |
| Images.DetachedFrom | cms-server/src/core/products/product.service.ts:1007-1009 | images of deleted owners lose the owner; nothing else changes |
| Images.RemovedSpec | cms-server/src/core/products/product.service.ts:353-379 | after a removal the image has no owner; the owner's positions are 0..n-1; every row keeps its id and data |
| Images.ImageUpdate | cms-server/src/core/products/product.service.ts:300-343 | it fails exactly when a query runs on a missing image; otherwise the text change, then the move: with a position the result is `Move` of the edited rows, without one it is the edited rows |
| Variants.CreatedVariant | cms-server/src/core/variants/variant.service.ts:235-274 | a missing product fails; a tuple taken in the product is not unique; otherwise the variant has the given columns and the request's SKU and barcode, or the product's when they are missing or empty |
| Variants.CreatedKeepsTuplesUnique | cms-server/src/core/variants/variant.service.ts:254-260 | creating a variant keeps each product's tuples distinct |
| Variants.EditedTuple | cms-server/src/core/variants/variant.service.ts:428-431 | a left-out column keeps its value |
| Variants.WithVariant | cms-server/src/core/variants/variant.service.ts:438-448 | only the named variant changes |
| Variants.UpdatedVariantAsWritten | cms-server/src/core/variants/variant.service.ts:437-475 | a missing variant fails; a tuple that any other variant of any product has is rejected; it succeeds exactly when the variant exists and no other variant has the tuple, and then the variant's live offers get "TODO" |
| Variants.UpdatedVariant | cms-server/src/core/variants/variant.service.ts:437-475 | as written, but the clash is within the product and the live offers get the `" \| "` title of the new tuple |
| Variants.UpdatedKeepsTuplesUnique | cms-server/src/core/variants/variant.service.ts:450-461 | a successful edit keeps each product's tuples distinct |
| Variants.GlobalClashAcrossProducts | cms-server/src/core/variants/variant.service.ts:450-461 | the check as written rejects a tuple only another product's variant has; the intended check accepts it |
| Variants.TodoTitle | cms-server/src/core/variants/variant.service.ts:463-473 | as written, a live offer's title becomes "TODO" where the intended title is the new tuple's |
| Offers.ProfileFor | cms-server/src/core/offers/offer.service.ts:212-226 | a left-out profile is the first default, and fails when there is none; a given one is used as given |
| Offers.NewOffer | cms-server/src/core/offers/offer.service.ts:178-233 | a missing variant is not found; the offer copies product id, product title and variant title from the variant; its status is the requested one or ACTIVE |
| Offers.EditedOffer | cms-server/src/core/offers/offer.service.ts:248-317 | success exactly when `EditAllowed` holds; an unknown offer or an unknown variant to relink to is `NotFound`; SOLD and RETURNING are always rejected with their own errors; NO_MATCH with a status but no variant is rejected; relinking copies the variant's ids and titles and turns a NO_MATCH offer without a requested status ACTIVE; otherwise the given fields are written and the links stay |
| Offers.EditKeepsMatching | cms-server/src/core/offers/offer.service.ts:270-308 | a NO_MATCH offer leaves NO_MATCH only by naming a variant; an edit never leaves a live offer without a variant |
| Offers.WithOffer | cms-server/src/core/offers/offer.service.ts:312-317 | only the offer with the id is replaced |
| Offers.WithoutOffer | cms-server/src/core/offers/offer.service.ts:351-353 | exactly the offer with the id is gone |
| Offers.OfferRemoval | cms-server/src/core/offers/offer.service.ts:329-353 | unknown: not found; SOLD or RETURNING: rejected with its own error; otherwise exactly that offer is deleted |
| Shipping.FirstDefault | cms-server/src/core/shipping/shipping.service.ts:253-257 | the first profile flagged default, or nothing exactly when none is |
| Shipping.FindProfile | cms-server/src/core/shipping/shipping.service.ts:246-251 | a profile with the id, or nothing exactly when none has it |
| Shipping.ClearDefaults | cms-server/src/core/shipping/shipping.service.ts:239-244 | every profile loses the flag and nothing else changes |
| Shipping.WithProfile | cms-server/src/core/shipping/shipping.service.ts:246-251 | only the named profile changes: the given title and flag |
| Shipping.MakeDefault | cms-server/src/core/shipping/shipping.service.ts:239-251 | making a profile the default leaves it the only default, the one `findFirst` returns |
| Shipping.OtherUpdateKeepsDefaults | cms-server/src/core/shipping/shipping.service.ts:246-251 | an update that does not set the flag keeps at most one default |
| Shipping.Attached | cms-server/src/core/shipping/shipping.service.ts:263-272 | exactly the listed offers move to the profile |
| Shipping.Reattached | cms-server/src/core/shipping/shipping.service.ts:324-340 | one row per offer; `ReattachedSpec` states what changes |
| Shipping.ReattachedSpec | cms-server/src/core/shipping/shipping.service.ts:333-340 | afterwards no offer is without a profile or on the removed one; only profile links change, and a changed link points to the default |
| Shipping.WithoutProfile | cms-server/src/core/shipping/shipping.service.ts:324-331 | exactly the profile with the id is gone |
| Shipping.RemovalKeepsUniqueIds | cms-server/src/core/shipping/shipping.service.ts:324-331 | removal keeps profile ids distinct |
| Shipping.RemovalKeepsDefault | cms-server/src/core/shipping/shipping.service.ts:316-331 | removing a profile other than the default keeps a default, and at most one |
| Shipping.ProfileUpdate | cms-server/src/core/shipping/shipping.service.ts:237-273 | success exactly when the profile exists, its new title is free, the offers to connect and to disconnect exist, and a default is left; a missing profile is the server error, a taken title is `NotUnique`, an offer to connect or to disconnect that does not exist is the server error, no default left is `NoDefaultProfile`; on success the profile is edited, disconnected offers go to the default, connected ones to the profile, every other offer is unchanged, and offers change only in their profile |
| Shipping.UpdatedProfilesKeepDefault | cms-server/src/core/shipping/shipping.service.ts:239-251 | an update keeps at most one default; making the profile the default makes it the one `findFirst` finds |
| Shipping.UpdatedProfilesKeepIds | cms-server/src/core/shipping/shipping.service.ts:246-251 | an update keeps every profile's id |
| Shipping.ProfileRemoval | cms-server/src/core/shipping/shipping.service.ts:307-341 | no default: fails; the default: fails; a missing profile: fails; otherwise it is deleted and its offers and every offer without a profile take the default |
| Shipping.ProfileRemovalKeepsDefault | cms-server/src/core/shipping/shipping.service.ts:316-331 | a removal keeps at most one default, keeps one when there was one, and keeps the ids distinct |
| Shop.FieldValue | parser-server/src/core/shop/shop.service.ts:73-75 | the value of the first metafield with the key, or nothing exactly when none has it |
| Shop.ReplaceCommas | parser-server/src/core/shop/shop.service.ts:73 | every comma becomes a dot, every other character stays, and no comma is left |
| Shop.ProviderOffers | parser-server/src/core/shop/shop.service.ts:43-53 | exactly the provider's offers on the variant |
| Shop.LowestPrice | parser-server/src/core/shop/shop.service.ts:79 | the lowest price among the offers, or null exactly when there is none |
| Shop.VariantsOf | parser-server/src/core/shop/shop.service.ts:37-42 | exactly the product's variants |
| Shop.ProductViewOf | parser-server/src/core/shop/shop.service.ts:70-82 | the projection keeps the product's id and title and has one entry per variant of the product |
| Shop.ProductViewSpec | parser-server/src/core/shop/shop.service.ts:70-82 | each projected variant belongs to the product and carries its `" \| "` title; `shopPrice` is the provider's lowest price on it or null; `shopAmount` counts those offers; `pfactor` has no comma, and is null exactly when the metafield is missing |
| Shop.ViewOfPrice | parser-server/src/core/shop/shop.service.ts:79 | one variant's `shopPrice` is the lowest price of the provider's offers on it, and null exactly when there is none |
| Shop.ProductViewShape | parser-server/src/core/shop/shop.service.ts:70-82 | the entries are the product's variants, all of them, in table order; `pamount` and `stockx` are the metafields' values unchanged |
| Shop.Kept | parser-server/src/core/shop/shop.service.ts:203-211 | exactly the offers that are not the user's non-terminal offers on the variant stay |
| Shop.Mine | parser-server/src/core/shop/shop.service.ts:203-211 | exactly the user's offers on the variant that are neither SOLD nor RETURNING |
| Shop.Template | parser-server/src/core/shop/shop.service.ts:191-201 | an ACTIVE offer of the user on the variant, with the product's id and title, and the given profile and prices |
| Shop.Copies | parser-server/src/core/shop/shop.service.ts:213-215 | `amount` copies of the template, differing only in id |
| Shop.KeptTwice | parser-server/src/core/shop/shop.service.ts:203-211 | deleting twice is deleting once |
| Shop.CopiesAllMine | parser-server/src/core/shop/shop.service.ts:213-215 | every copy is one of the user's replaceable offers on the variant |
| Shop.Upserted | parser-server/src/core/shop/shop.service.ts:203-215 | an offer is in the result exactly when it was there and is not one of the user's replaceable offers on the variant, or is one of the copies |
| Shop.UpsertedSpec | parser-server/src/core/shop/shop.service.ts:203-215 | afterwards the user's replaceable offers on the variant are exactly the `amount` copies; every other offer is the one that was there, in order |
| Shop.UpsertIdempotent | parser-server/src/core/shop/shop.service.ts:203-215 | running it twice equals running it once with the second run's ids |
| Database.WithoutProduct | cms-server/src/core/products/product.service.ts:1007-1009 | exactly the product with the id is gone |
| Database.WithProductFields | cms-server/src/core/products/product.service.ts:976-981 | only the named product changes: the given title, SKU and barcode |
| Database.OptionIdsOf | cms-server/src/core/products/product.service.ts:1007-1009 | exactly the ids of the product's options |
| Database.ValuesOutside | cms-server/src/core/products/product.service.ts:1007-1009 | the values of deleted options are gone and every other value stays |
| Database.ProductCleared | cms-server/src/core/products/product.service.ts:1007-1009 | offers of the deleted product lose it and keep every other field |
| Database.EditOption | cms-server/src/core/products/product.service.ts:512-534 | a missing option fails; otherwise the option gets the title and the new values are appended after its last value |
| Database.EditSteps | cms-server/src/core/products/product.service.ts:512-711 | the steps before the synchronisation never give an id back |
| Database.UpdateOptionTx | cms-server/src/core/products/product.service.ts:505-798 | a successful update needs the product, and leaves no live offer without a variant |
| Database.UpdateOptionComplete | cms-server/src/core/products/product.service.ts:511-784 | after a successful update every generated tuple has a variant of the product, no live offer lacks a variant, and the id counter does not go back |
| Database.SyncCovers | cms-server/src/core/products/product.service.ts:715-771 | the synchronisation keeps options and values, never gives an id back, and leaves a variant of the product for every generated tuple |
| Database.ApplyOptionEdit | cms-server/src/core/products/product.service.ts:511-784 | the queries in the source's order compute `UpdateOptionTx` |
| Database.ReorderValueStep | cms-server/src/core/products/product.service.ts:611-640 | the value move on an array computes the pure move |
| Database.DeleteValuesStep | cms-server/src/core/products/product.service.ts:643-679 | the deletion loop, then the renumbering loop, compute `DeleteValues` |
| Database.MoveOptionStep | cms-server/src/core/products/product.service.ts:682-711 | the option move on an array computes the pure move |
| Database.SyncVariantsStep | cms-server/src/core/products/product.service.ts:715-771 | the sync loop computes `SyncVariants` |
| Database.CreationError | cms-server/src/core/products/product.service.ts:398-420 | three options: rejected; a missing product: server error; a taken option title or repeated value titles: not unique; otherwise nothing |
| Database.ChooseSlot | cms-server/src/core/products/product.service.ts:392-408 | the chosen slot is free, and every smaller slot is held |
| Database.NewOptionKeepsDense | cms-server/src/core/products/product.service.ts:412-417 | a new option takes the next position and keeps the product's positions 0..n-1 |
| Database.OptionAdded | cms-server/src/core/products/product.service.ts:411-486 | after a new option no live offer lacks a variant, and the counter moves past the option, its values and the new variants |
| Database.OptionAddedVariants | cms-server/src/core/products/product.service.ts:411-486 | after a new option the product's variants are one per generated tuple, other products' are untouched, and no live offer lacks a variant |
| Database.WithoutOptionSpec | cms-server/src/core/products/product.service.ts:804-852 | the option is gone and the product's remaining positions are 0..n-1 |
| Database.RemoveOptionTx | cms-server/src/core/products/product.service.ts:802-886 | a missing option fails with the server error; otherwise the renumbering loop and the regeneration give `OptionRemoved`, with no live offer lacking a variant |
| Database.OptionRemoved | cms-server/src/core/products/product.service.ts:800-894 | after a removal no option has the id, the product's option positions are 0..n-1, no live offer lacks a variant, and the counter does not go back |
| Database.OptionRemovedVariants | cms-server/src/core/products/product.service.ts:854-873 | after a removal the product's variants are one per generated tuple, none when no option is left |
| Database.ProfileUpdateKeeps | cms-server/src/core/shipping/shipping.service.ts:237-273 | a successful profile update keeps at most one default, distinct profile ids and every live offer on a variant; a profile made the default is the one `findFirst` finds |
| Database.UpsertKeepsNoLiveOrphans | parser-server/src/core/shop/shop.service.ts:203-215 | an upsert keeps every live offer on a variant |
| Database.Store.CreateOption | cms-server/src/core/products/product.service.ts:391-503 | on the errors of `CreationError` nothing changes; otherwise the returned slot is the smallest free one and the tables become `OptionAdded` |
| Database.Store.UpdateOption | cms-server/src/core/products/product.service.ts:505-798 | the tables become `UpdateOptionTx`'s on success and are unchanged on failure |
| Database.Store.RemoveOption | cms-server/src/core/products/product.service.ts:800-894 | the tables become `RemoveOptionTx`'s on success and are unchanged on failure |
| Database.Store.UpdateProduct | cms-server/src/core/products/product.service.ts:897-1002 | a missing product fails and nothing changes; otherwise the product fields are written and a new title reaches the product's live offers |
| Database.Store.RemoveProduct | cms-server/src/core/products/product.service.ts:1004-1028 | the product, its options, values and variants go; offers and images lose the links; then the demotion |
| Database.Store.UploadProductImages | cms-server/src/core/products/product.service.ts:250-297 | a missing product or a failed upload fails with nothing changed; otherwise the images are appended after the last, with the title as text |
| Database.Store.UpdateProductImage | cms-server/src/core/products/product.service.ts:300-351 | the images become `ImageUpdate`'s, atomically |
| Database.Store.RemoveProductImage | cms-server/src/core/products/product.service.ts:353-388 | the images become `Removed`'s |
| Database.Store.UploadVariantImages | cms-server/src/core/variants/variant.service.ts:286-335 | a missing variant is exactly `NotFound`; a missing product or a failed upload is exactly the server error; either way nothing changes; success exactly otherwise, with the images appended after the variant's last one, the product title as text, and one id taken per image |
| Database.Store.UpdateVariantImage | cms-server/src/core/variants/variant.service.ts:337-388 | the images become `ImageUpdate`'s; a missing image fails and changes nothing |
| Database.Store.RemoveVariantImage | cms-server/src/core/variants/variant.service.ts:390-424 | the variant's images become `Removed`'s |
| Database.Store.CreateVariant | cms-server/src/core/variants/variant.service.ts:235-284 | the variants gain `CreatedVariant`'s row with the next id, which is returned; on failure nothing changes |
| Database.Store.UpdateVariant | cms-server/src/core/variants/variant.service.ts:427-487 | the variants and offers become `UpdatedVariant`'s on success and are unchanged on failure |
| Database.Store.RemoveVariant | cms-server/src/core/variants/variant.service.ts:489-515 | the variant goes, its offers and images lose it, then the demotion |
| Database.Store.CreateOffer | cms-server/src/core/offers/offer.service.ts:178-246 | the offers gain `NewOffer`'s row with the next id, which is returned |
| Database.Store.UpdateOffer | cms-server/src/core/offers/offer.service.ts:248-327 | the offer becomes `EditedOffer`'s, and nothing changes on failure |
| Database.Store.RemoveOffer | cms-server/src/core/offers/offer.service.ts:329-361 | the offers become `OfferRemoval`'s, and nothing changes on failure |
| Database.Store.UpsertOffers | parser-server/src/core/shop/shop.service.ts:161-222 | a missing variant or product, a negative amount, or a missing profile with copies to make is the one generic error, with nothing changed; otherwise the offers become `Upserted`'s and `amount` ids are taken |
| Database.Store.UpdateProfile | cms-server/src/core/shipping/shipping.service.ts:220-291 | profiles and offers become `ProfileUpdate`'s on success and are unchanged on failure |
| Database.Store.RemoveProfile | cms-server/src/core/shipping/shipping.service.ts:307-354 | profiles and offers become `ProfileRemoval`'s on success and are unchanged on failure |
| Dragging.Ids | cms-client/components/products/blocks/Features.tsx:29 | the ids, index by index |
| Dragging.DragOver | cms-client/components/products/blocks/Features.tsx:109-125 | nothing happens exactly when nothing is selected, the hovered entry is the dragged one, or it is unsaved; otherwise the entries are renumbered 0..n-1 |
| Dragging.ExchangeIsSwap | cms-client/components/products/blocks/Features.tsx:117-122 | over an id-unique list holding the hovered entry and the dragged one (perhaps at another position than the one the drag started from) the exchange swaps the two entries' places and keeps every other entry |
| Dragging.DragOverPermutes | cms-client/components/products/blocks/Features.tsx:109-125 | dragging an entry over another saved one yields the same entries, with only their positions changed, also on the later drag-over events of one drag, where the dragged entry is still the one of the drag start |
| Features.Find | cms-client/components/products/blocks/Features.tsx:39 | a listed entry with the id, or nothing exactly when none has it |
| Features.FindFirst | cms-client/components/products/blocks/Features.tsx:39 | the entry found is the first one with the id |
| Features.ReorderFeatures | cms-client/components/products/blocks/Features.tsx:29 | the local id list is sent exactly when the lengths agree, every local id is on the server, and the id sequences differ |
| Features.CreatedFeatures | cms-client/components/products/blocks/Features.tsx:30 | exactly the local features unknown to the server, as title and pairs; empty exactly when every local id is known |
| Features.DeletedFeatures | cms-client/components/products/blocks/Features.tsx:31 | exactly the ids on the server and not local; empty exactly when every server id is local |
| Features.ReorderValues | cms-client/components/products/blocks/Features.tsx:44 | an empty local list gives `[]`; otherwise the local value ids are sent exactly when all are on the server and the order differs |
| Features.ReorderIsPermutation | cms-client/components/products/blocks/Features.tsx:29-31 | a reorder carries the server's ids, each once, in another order, so nothing is created or deleted beside it |
| Features.Diff | cms-client/components/products/blocks/Features.tsx:26-59 | no creation exactly when every local feature is on the server; no update exactly when none needs one; no deletion exactly when every server feature is still local |
| Features.DiffOfUnchanged | cms-client/components/products/blocks/Features.tsx:26-58 | with no local edit every field of the change set is `undefined` |
| Features.UnchangedFeature | cms-client/components/products/blocks/Features.tsx:33-37 | a feature compared with itself needs no update |
| Features.UpdateListed | cms-client/components/products/blocks/Features.tsx:32-49 | a local feature that needs an update is sent as one |
| Features.UpdatesSent | cms-client/components/products/blocks/Features.tsx:32-49 | the updates sent are exactly those of the local features that need one, both ways |
| Features.UpdatedFeatures | cms-client/components/products/blocks/Features.tsx:32-49 | at most one update per local feature |
| Features.SameIdsOnlyUpdates | cms-client/components/products/blocks/Features.tsx:29-31 | edits that keep the id list send no reorder, creation or deletion |
| Features.FeatureRenamed | cms-client/components/products/blocks/Features.tsx:127-129 | only the feature with the id gets the title |
| Features.RenameReported | cms-client/components/products/blocks/Features.tsx:32-48 | renaming a saved feature is sent as an update carrying the new title, and as nothing else |
| Features.FeatureRemoved | cms-client/components/products/blocks/Features.tsx:131-133 | exactly the features with the id are gone |
| Features.RemoveReported | cms-client/components/products/blocks/Features.tsx:31 | removing a saved feature is sent as its deletion |
| Features.MaxPosition | cms-client/components/products/blocks/Features.tsx:76 | at least 0 and at least every position, and either 0 or the position of some entry |
| Features.FeatureValueAdded | cms-client/components/products/blocks/Features.tsx:135-137 | only the named feature changes: it gains the pair, with the fresh id, after its values, at position `MaxPosition` of its values plus one, so ranked after all of them |
| Features.FeatureValueEdited | cms-client/components/products/blocks/Features.tsx:139-142 | only the named value of the named feature changes, and only in the edited field |
| Features.FeatureValueRemoved | cms-client/components/products/blocks/Features.tsx:144-146 | only the named feature changes: it loses exactly the values with the id |
| Features.ValueEditReported | cms-client/components/products/blocks/Features.tsx:36-46 | changing a saved value is sent as an update of its feature listing the value with its new pair |
| Features.EditedValueSent | cms-client/components/products/blocks/Features.tsx:46 | a local value whose saved counterpart has other data is listed among its feature's value updates |
| Features.ValueRemoveReported | cms-client/components/products/blocks/Features.tsx:35-47 | removing a saved value is sent as an update of its feature listing the value's id among the deletions |
| Features.ValueAddReported | cms-client/components/products/blocks/Features.tsx:32-45 | adding a pair with a fresh id to a saved feature is sent as an update of that feature listing the pair among the values to create |
| Features.AddedValueSent | cms-client/components/products/blocks/Features.tsx:45 | a local value whose id the saved feature lacks is listed among the values to create |
| Features.KeyedRows | cms-client/components/products/blocks/Features.tsx:85 | every kept row has a key |
| Features.KeyedRowsKept | cms-client/components/products/blocks/Features.tsx:85 | every row with a key is kept, and only those, in their order (the rows at `KeptPositions`) |
| Features.EditDraftRow | cms-client/components/products/blocks/Features.tsx:80-93 | the edit lands in its row; keyless rows are dropped; a blank row is appended exactly when none is left or the last has a value; the editor stays well formed |
| Features.DraftRowRemoved | cms-client/components/products/blocks/Features.tsx:95-97 | the row at the index goes: the rows before it stay in place and the rows after it move up one; a well-formed editor stays well formed |
| Features.SubmitDraft | cms-client/components/products/blocks/Features.tsx:67-78 | a blank title or no row but the last fails, with that error first; otherwise the feature is appended at position `MaxPosition` of the features plus one, so ranked after every feature, with the rows but the last as values at positions 0..n-1, and the editor is reset |
| Features.DraftValuesHaveKeys | cms-client/components/products/blocks/Features.tsx:67-93 | a well-formed editor only produces values with a key, and its reset state is well formed |
| FeatureCard.SubmitValue | cms-client/components/products/cards/Feature.tsx:65-73 | accepted exactly when key and value are non-empty and the key is unused; an empty key wins over an empty value; acceptance hands on the pair and resets the inputs; a refusal keeps them |
| FeatureCard.AcceptedValueKeepsKeysDistinct | cms-client/components/products/cards/Feature.tsx:65-73 | an accepted pair lands once, after the feature's values, and the keys stay distinct |
| FeatureCard.ValueDrop | cms-client/components/products/cards/Feature.tsx:42-59 | only the dragged feature's values change, and nothing changes when the drag is ignored |
| FeatureCard.ValueDropPermutes | cms-client/components/products/cards/Feature.tsx:42-59 | the feature keeps the same values, renumbered 0..n-1, also on later drag-over events of one drag, where the dropped value is the one of the drag start |
| Addresses.Find | cms-client/components/users/blocks/Addresses.tsx:18 | a listed address with the id, or nothing exactly when none has it |
| Addresses.FindFirst | cms-client/components/users/blocks/Addresses.tsx:18 | the address found is the first one with the id |
| Addresses.TextLeTotal | cms-client/components/users/blocks/Addresses.tsx:19 | string order is total |
| Addresses.TextLeAntisymmetric | cms-client/components/users/blocks/Addresses.tsx:19 | string order is antisymmetric |
| Addresses.TextLeTransitive | cms-client/components/users/blocks/Addresses.tsx:19 | string order is transitive |
| Addresses.SortText | cms-client/components/users/blocks/Addresses.tsx:19 | `sort()` permutes the strings |
| Addresses.SortTextSorted | cms-client/components/users/blocks/Addresses.tsx:19 | `sort()` yields ascending strings |
| Addresses.SortedUnique | cms-client/components/users/blocks/Addresses.tsx:19 | two sorted permutations of one list are equal |
| Addresses.SortedTextIgnoresFields | cms-client/components/users/blocks/Addresses.tsx:19 | the compared text depends only on the multiset of values, not on which field holds which |
| Addresses.CreatedAddresses | cms-client/components/users/blocks/Addresses.tsx:18 | exactly the local addresses with an unknown id, without the id |
| Addresses.DeletedAddresses | cms-client/components/users/blocks/Addresses.tsx:20 | exactly the ids of originals no longer present |
| Addresses.UpdatedAddressesAsWritten | cms-client/components/users/blocks/Addresses.tsx:19 | exactly the local addresses whose original's sorted, joined values differ |
| Addresses.UpdatedAddresses | cms-client/components/users/blocks/Addresses.tsx:19 | exactly the local addresses that differ from their original |
| Addresses.SwappedFieldsUnreported | cms-client/components/users/blocks/Addresses.tsx:18-26 | exchanging country and region of a saved address sends nothing as written, and the update under the intended test |
| Addresses.SwapReported | cms-client/components/users/blocks/Addresses.tsx:19 | the intended test reports the exchange |
| Addresses.DeletedNone | cms-client/components/users/blocks/Addresses.tsx:20 | no deletion exactly when every original id is still in the list |
| Addresses.DiffAsWritten | cms-client/components/users/blocks/Addresses.tsx:17-27 | no creation exactly when every address has an original; no update exactly when no address differs in its sorted, joined values; no deletion exactly when every original is still listed |
| Addresses.Diff | cms-client/components/users/blocks/Addresses.tsx:17-27 | the same, with an update exactly when some address differs from its original in a field |
| Addresses.DiffOfUnchanged | cms-client/components/users/blocks/Addresses.tsx:17-27 | with no local edit every field of the change set is `undefined` |
| Addresses.AddressAdded | cms-client/components/users/blocks/Addresses.tsx:30-33 | the list gains exactly the new address at the end, with the fresh id |
| Addresses.AddressReplaced | cms-client/components/users/blocks/Addresses.tsx:35-37 | exactly the entries with the id are replaced |
| Addresses.AddressRemoved | cms-client/components/users/blocks/Addresses.tsx:39-41 | exactly the entries with the id are gone |
| Addresses.AddReported | cms-client/components/users/blocks/Addresses.tsx:18-33 | an added address is sent as a creation |
| Addresses.RemoveReported | cms-client/components/users/blocks/Addresses.tsx:20-41 | a deleted saved address is sent as the deletion of its id |
| Addresses.ReplaceReported | cms-client/components/users/blocks/Addresses.tsx:19-37 | replacing a saved address by a different one is sent as an update carrying it |

## Left out

- Database behaviour the code relies on is stated as assumptions of the model:
  - deleting a product cascades to its variants (`Store.RemoveProduct`);
  - deleting a variant sets the variant link of its images to null (`Store.RemoveVariant`);
  - deleting a delivery profile sets `offer.deliveryProfileId` to null before the offers are reattached (`Shipping.Reattached`);
  - deleting a variant sets `offer.variantId` to null;
  - deleting a product cascades to its options and their values, and sets the product links of offers and images to null;
  - a product image leaves its product when `productId` is set to null;
  - titles must be unique: an option's title within its product, a value's title within its option, and a profile's title (error P2002);
  - a new offer's default status is ACTIVE.
- Every error of a transaction is an `Error` value; the HTTP status codes and messages are not modelled. The variant tuple clash of `updateVariant`, which the source reports with status 500 (variant.service.ts:459-460), is modelled as `NotUnique`.
- Images are two tables, product images and variant images. The source has one `image` table, and `updateImage` and `removeImage` address a row by its id alone (product.service.ts:304-310, 356-361; variant.service.ts:340-346, 393-398). So a product's `removeImage` given the id of a variant's image succeeds in the source and fails in the model, and likewise the other way round.
- Catalog.Contains: `contains` is compared case-sensitively. MySQL's default collation compares case-insensitively (product.service.ts:573-575), so the model can miss offers the source retitles.
- Database.Store.UpdateVariant: the store commits the corrected update, `Variants.UpdatedVariant` (the tuple clash checked within the product, and the joined title on the live offers). It does not commit the code as written, with the global clash check and the literal "TODO". The as-written behaviour is `Variants.UpdatedVariantAsWritten`, under "## Findings".
- File storage is a parameter: the result of `files.upload` is a list of stored sources, or nothing on failure. `path` and `blurhash` are left out.
- Ids of new rows come from a counter in the store. The database's auto-increment is not modelled.
- Collections, tags, metafields, `compareAtPrice`, `comment`, `handle`, and the product fields other than title, SKU and barcode are left out: no operation of the core depends on them. The pfactor lookup keeps metafields as key/value pairs.
- Read-only queries other than the parser service's product projection are left out. `skip`, `take` and `createdAt` ordering are not modelled.
- Prices are integers. The parser service receives prices as strings, and the source does not compute with them.
- The `updateImage` of variants writes the text outside the move's transaction. The model keeps that order, but not the interleavings with other requests. No concurrency is modelled.
- Client ids are reals:
  - `isNewId` is modelled as "has a fractional part";
  - exponent renderings of `toString` are not modelled;
  - `Math.random()` results are parameters;
  - address ids are naturals, rendered in decimal;
  - the check that a random id is fresh is not modelled.
- Client string order is by character code, as in Dafny. `sort()` compares UTF-16 code units; the two orders agree except beyond the Basic Multilingual Plane.
- `join()` over the feature and value id lists is modelled as equality of the id sequences. Number ids render without commas, so the two agree. The address values are joined with commas as the source does (`Addresses.Join`).
- Features.FeatureValueEdited: the source compares `a.id.toString()` with the value id taken from the input's name; the model compares the ids themselves.
- Features.IsBlank: `trim` is modelled by JavaScript's white space and line terminators.
- Features.EditDraftRow: the source writes the edited text into the shared row object before copying; the model edits a copy.
- Features.MaxPosition: `Math.max` over a spread is modelled without the engine's argument-count limit.
- React state, rendering, toasts, drag start/end, popups, and the `selected` bookkeeping are left out. The handlers are modelled as functions of the previous state.
- Users, pages, collections, zones, variables, the parser's scraping and pricing, controllers and DTO validation are not part of this model.

## Findings

| source | as written | input that shows it | evidently intended | confidence | as-written member | corrected member |
|---|---|---|---|---|---|---|
| cms-server/src/core/variants/variant.service.ts:450-461 | the uniqueness check after an update counts variants with the tuple across all products | variant 1 of product 10 and variant 2 of product 20; variant 2 is changed to size M, which variant 1 already has: the update is rejected | reject only when another variant of the same product has the tuple, as createVariant does | not executed | Variants.GlobalClashAcrossProducts | Variants.UpdatedVariant |
| cms-server/src/core/variants/variant.service.ts:463-473 | the variant's live offers get the literal title "TODO" | variant 1 of a product whose only option is size is changed to M: its live offer shows "TODO" | the `" \| "` join of the new tuple over the product's options, as value renames and upsertOffers compute it | not executed | Variants.TodoTitle | Variants.UpdatedVariant |
| cms-client/components/users/blocks/Addresses.tsx:19 | an address is sent as updated when its sorted, comma-joined values differ from the original's | a saved address whose country and region are exchanged: nothing is sent | an address is sent as updated when any of its fields differs from the original's | not executed | Addresses.SwappedFieldsUnreported | Addresses.UpdatedAddresses |
