/** The offer transactions of cms-server/src/core/offers/offer.service.ts:
    creation from a variant, the status guards and the re-link rule of an
    edit, and the guarded removal. */
module Offers {
  import opened Wrappers
  import opened Reorder
  import opened Catalog
  import opened Shipping

  /** The fields of an offer edit; a left-out field is `None`. */
  datatype OfferChange = OfferChange(variantId: Option<Id>, status: Option<Status>, userId: Option<Id>,
                                     price: Option<int>, offerPrice: Option<int>, profileId: Option<Id>)

  /** The profile of a new offer: a left-out one is the default profile, and
      there must be one; a given one must exist (the foreign key). */
  function ProfileFor(profiles: seq<Profile>, profileId: Option<Id>): (r: Result<Id, Error>)
    ensures profileId.None? ==>
      (r.Success? <==> FirstDefault(profiles).Some?) &&
      (r.Success? ==> r.value == FirstDefault(profiles).value.id) &&
      (r.Failure? ==> r.error == NoDefaultProfile)
    ensures profileId.Some? ==>
      (r.Success? <==> exists i :: 0 <= i < |profiles| && profiles[i].id == profileId.value) &&
      (r.Success? ==> r.value == profileId.value) &&
      (r.Failure? ==> r.error == ServerError)
  {
    match profileId
    case None =>
      (match FirstDefault(profiles)
       case None => Failure(NoDefaultProfile)
       case Some(d) => Success(d.id))
    case Some(id) =>
      if FindProfile(profiles, id).None? then Failure(ServerError) else Success(id)
  }

  /** createOffer's row: the variant must exist; the product's id and title
      and the variant's title are copied onto the offer; the status defaults
      to ACTIVE. */
  function NewOffer(variants: seq<Variant>, products: seq<Product>, profiles: seq<Profile>, id: Id,
                    variantId: Id, userId: Id, status: Option<Status>, price: int, offerPrice: int,
                    profileId: Option<Id>): (r: Result<Offer, Error>)
    ensures FindVariant(variants, variantId).None? <==> r == Failure(NotFound)
    ensures r.Success? ==>
      && FindVariant(variants, variantId).Some?
      && FindProduct(products, FindVariant(variants, variantId).value.productId).Some?
      && ProfileFor(profiles, profileId).Success?
    ensures r.Success? ==>
      var v := FindVariant(variants, variantId).value;
      var p := FindProduct(products, v.productId).value;
      r.value == Offer(id, userId, status.GetOr(Active), price, offerPrice, Some(v.productId), Some(variantId),
                       p.title, v.title, Some(ProfileFor(profiles, profileId).value))
    ensures FindVariant(variants, variantId).Some? &&
            FindProduct(products, FindVariant(variants, variantId).value.productId).Some? ==>
      (r.Failure? <==> ProfileFor(profiles, profileId).Failure?)
  {
    match FindVariant(variants, variantId)
    case None => Failure(NotFound)
    case Some(v) =>
      match FindProduct(products, v.productId)
      case None => Failure(ServerError)
      case Some(p) =>
        var profile :- ProfileFor(profiles, profileId);
        Success(Offer(id, userId, status.GetOr(Active), price, offerPrice, Some(p.id), Some(variantId),
                      p.title, v.title, Some(profile)))
  }

  /** True when the edit names a variant other than the offer's own. */
  predicate Relinks(o: Offer, c: OfferChange)
  {
    c.variantId.Some? && c.variantId != o.variantId
  }

  /** The given fields written over the offer. */
  function Changed(o: Offer, c: OfferChange): Offer
  {
    o.(userId := c.userId.GetOr(o.userId), status := c.status.GetOr(o.status),
       price := c.price.GetOr(o.price), offerPrice := c.offerPrice.GetOr(o.offerPrice),
       profileId := if c.profileId.Some? then c.profileId else o.profileId)
  }

  /** The checks updateOffer makes, in its order: the offer exists and is
      neither SOLD nor RETURNING, a NO_MATCH offer takes no status without a
      variant, a named other variant exists with its product, and a given
      profile exists. */
  predicate EditAllowed(offers: seq<Offer>, variants: seq<Variant>, products: seq<Product>, profiles: seq<Profile>,
                        offerId: Id, c: OfferChange)
  {
    match FindOffer(offers, offerId)
    case None => false
    case Some(o) =>
      && !IsTerminal(o.status)
      && !(o.status == NoMatch && c.variantId.None? && c.status.Some?)
      && (Relinks(o, c) ==>
            FindVariant(variants, c.variantId.value).Some? &&
            FindProduct(products, FindVariant(variants, c.variantId.value).value.productId).Some?)
      && (c.profileId.Some? ==> FindProfile(profiles, c.profileId.value).Some?)
  }

  /** updateOffer: the guards on the stored offer in order, then, when the
      edit names another variant, the copy of the variant's links and titles;
      a given profile must exist.

      A missing offer is not found; a SOLD or RETURNING offer is never edited,
      whatever the edit; a NO_MATCH offer does not take a status without a
      variant. A successful edit writes the given fields and keeps the id.
      Naming another variant copies that variant's id, product id, product
      title and variant title, and a NO_MATCH offer with no requested status
      becomes ACTIVE; otherwise the links and titles stay and the status is
      the requested one or the old one. */
  function EditedOffer(offers: seq<Offer>, variants: seq<Variant>, products: seq<Product>, profiles: seq<Profile>,
                       offerId: Id, c: OfferChange): (r: Result<Offer, Error>)
    ensures FindOffer(offers, offerId).None? <==> r == Failure(NotFound) && (forall i :: 0 <= i < |offers| ==> offers[i].id != offerId)
    ensures FindOffer(offers, offerId).Some? && FindOffer(offers, offerId).value.status == Sold ==> r == Failure(OfferSold)
    ensures FindOffer(offers, offerId).Some? && FindOffer(offers, offerId).value.status == Returning ==> r == Failure(OfferReturning)
    ensures var found := FindOffer(offers, offerId);
      found.Some? && found.value.status == NoMatch && c.variantId.None? && c.status.Some? ==> r == Failure(UnmatchedStatusChange)
    ensures var found := FindOffer(offers, offerId);
      && found.Some? && !IsTerminal(found.value.status)
      && !(found.value.status == NoMatch && c.variantId.None? && c.status.Some?)
      && Relinks(found.value, c) && FindVariant(variants, c.variantId.value).None?
      ==> r == Failure(NotFound)
    ensures r.Success? <==> EditAllowed(offers, variants, products, profiles, offerId, c)
    ensures r.Success? ==> FindOffer(offers, offerId).Some? && !IsTerminal(FindOffer(offers, offerId).value.status)
    ensures r.Success? ==>
      var o := FindOffer(offers, offerId).value;
      && r.value.id == offerId
      && r.value.userId == c.userId.GetOr(o.userId) && r.value.price == c.price.GetOr(o.price)
      && r.value.offerPrice == c.offerPrice.GetOr(o.offerPrice)
      && (c.profileId.Some? ==> r.value.profileId == c.profileId && FindProfile(profiles, c.profileId.value).Some?)
      && (c.profileId.None? ==> r.value.profileId == o.profileId)
    ensures r.Success? && !Relinks(FindOffer(offers, offerId).value, c) ==>
      var o := FindOffer(offers, offerId).value;
      && r.value.variantId == o.variantId && r.value.productId == o.productId
      && r.value.productTitle == o.productTitle && r.value.variantTitle == o.variantTitle
      && r.value.status == c.status.GetOr(o.status)
    ensures r.Success? && Relinks(FindOffer(offers, offerId).value, c) ==>
      var o := FindOffer(offers, offerId).value;
      && FindVariant(variants, c.variantId.value).Some?
      && var v := FindVariant(variants, c.variantId.value).value;
      && FindProduct(products, v.productId).Some?
      && r.value.variantId == c.variantId && r.value.productId == Some(v.productId)
      && r.value.productTitle == FindProduct(products, v.productId).value.title && r.value.variantTitle == v.title
      && r.value.status == if o.status == NoMatch && c.status.None? then Active else c.status.GetOr(o.status)
  {
    match FindOffer(offers, offerId)
    case None => Failure(NotFound)
    case Some(o) =>
      if o.status == Sold then Failure(OfferSold)
      else if o.status == Returning then Failure(OfferReturning)
      else if o.status == NoMatch && c.variantId.None? && c.status.Some? then Failure(UnmatchedStatusChange)
      else
        var linked :- if !Relinks(o, c) then Success(Changed(o, c))
          else match FindVariant(variants, c.variantId.value)
            case None => Failure(NotFound)
            case Some(v) =>
              match FindProduct(products, v.productId)
              case None => Failure(ServerError)
              case Some(p) =>
                Success(Changed(o, c).(status := if o.status == NoMatch && c.status.None? then Active else c.status.GetOr(o.status),
                                       productId := Some(p.id), productTitle := p.title,
                                       variantTitle := v.title, variantId := c.variantId));
        if c.profileId.Some? && FindProfile(profiles, c.profileId.value).None? then Failure(ServerError)
        else Success(linked)
  }

  /** A NO_MATCH offer only leaves NO_MATCH when the edit names a variant,
      and an edit never leaves a live offer without a variant when every live
      offer had one. */
  lemma EditKeepsMatching(offers: seq<Offer>, variants: seq<Variant>, products: seq<Product>, profiles: seq<Profile>,
                          offerId: Id, c: OfferChange)
    requires EditedOffer(offers, variants, products, profiles, offerId, c).Success?
    ensures var o := FindOffer(offers, offerId).value;
      var r := EditedOffer(offers, variants, products, profiles, offerId, c).value;
      && (o.status == NoMatch && r.status != NoMatch ==> c.variantId.Some?)
      && (NoLiveOrphans(offers) && IsLive(r.status) ==> r.variantId.Some?)
  {
    var o := FindOffer(offers, offerId).value;
    var k :| 0 <= k < |offers| && offers[k] == o;
  }

  /** `offer.update({ where: { id } })`: the offer with that id is replaced. */
  function WithOffer(offers: seq<Offer>, id: Id, o: Offer): (r: seq<Offer>)
    ensures |r| == |offers|
    ensures forall i :: 0 <= i < |r| ==> r[i] == if offers[i].id == id then o else offers[i]
  {
    seq(|offers|, i requires 0 <= i < |offers| => if offers[i].id == id then o else offers[i])
  }

  /** `offer.delete({ where: { id } })`. */
  function WithoutOffer(offers: seq<Offer>, id: Id): (r: seq<Offer>)
    ensures forall x :: x in r <==> x in offers && x.id != id
    ensures |r| <= |offers|
  {
    if offers == [] then []
    else (if offers[0].id == id then [] else [offers[0]]) + WithoutOffer(offers[1..], id)
  }

  /** removeOffer: a missing offer is not found, a SOLD or RETURNING one is
      kept, any other one is deleted and nothing else changes. */
  function OfferRemoval(offers: seq<Offer>, offerId: Id): (r: Result<seq<Offer>, Error>)
    ensures FindOffer(offers, offerId).None? <==> r == Failure(NotFound)
    ensures r == Failure(OfferSold) <==> FindOffer(offers, offerId).Some? && FindOffer(offers, offerId).value.status == Sold
    ensures r == Failure(OfferReturning) <==> FindOffer(offers, offerId).Some? && FindOffer(offers, offerId).value.status == Returning
    ensures r.Success? <==> FindOffer(offers, offerId).Some? && !IsTerminal(FindOffer(offers, offerId).value.status)
    ensures r.Success? ==> forall x :: x in r.value <==> x in offers && x.id != offerId
  {
    match FindOffer(offers, offerId)
    case None => Failure(NotFound)
    case Some(o) =>
      if o.status == Sold then Failure(OfferSold)
      else if o.status == Returning then Failure(OfferReturning)
      else Success(WithoutOffer(offers, offerId))
  }
}
