/** Delivery profiles and the default-profile rule
    (cms-server/src/core/shipping/shipping.service.ts, and the fallback in
    cms-server/src/core/offers/offer.service.ts): at most one profile is the
    default, the default cannot be removed, and offers that lose their profile
    go to the default. */
module Shipping {
  import opened Wrappers
  import opened Reorder
  import opened Catalog

  /** `findFirst({ where: { isDefault: true } })`. */
  function FirstDefault(profiles: seq<Profile>): (r: Option<Profile>)
    ensures r.None? <==> forall i :: 0 <= i < |profiles| ==> !profiles[i].isDefault
    ensures r.Some? ==> r.value in profiles && r.value.isDefault
  {
    if profiles == [] then None
    else if profiles[0].isDefault then Some(profiles[0])
    else
      assert forall i :: 1 <= i < |profiles| ==> profiles[i] == profiles[1..][i - 1];
      FirstDefault(profiles[1..])
  }

  function FindProfile(profiles: seq<Profile>, id: Id): (r: Option<Profile>)
    ensures r.Some? <==> exists i :: 0 <= i < |profiles| && profiles[i].id == id
    ensures r.Some? ==> r.value in profiles && r.value.id == id
  {
    if profiles == [] then None
    else if profiles[0].id == id then Some(profiles[0])
    else
      assert forall i :: 1 <= i < |profiles| ==> profiles[i] == profiles[1..][i - 1];
      FindProfile(profiles[1..], id)
  }

  ghost predicate AtMostOneDefault(profiles: seq<Profile>)
  {
    forall i, j :: 0 <= i < j < |profiles| && profiles[i].isDefault ==> !profiles[j].isDefault
  }

  /** No two profiles share an id (the primary key). */
  ghost predicate UniqueProfileIds(profiles: seq<Profile>)
  {
    forall i, j :: 0 <= i < j < |profiles| ==> profiles[i].id != profiles[j].id
  }

  /** `deliveryProfile.updateMany({ where: {}, data: { isDefault: false } })`. */
  function ClearDefaults(profiles: seq<Profile>): (r: seq<Profile>)
    ensures |r| == |profiles|
    ensures forall i :: 0 <= i < |r| ==> r[i] == profiles[i].(isDefault := false)
  {
    seq(|profiles|, i requires 0 <= i < |profiles| => profiles[i].(isDefault := false))
  }

  /** `deliveryProfile.update` of the title and the flag, where given. */
  function WithProfile(profiles: seq<Profile>, id: Id, title: Option<string>, isDefault: Option<bool>): (r: seq<Profile>)
    ensures |r| == |profiles|
    ensures forall i :: 0 <= i < |r| && profiles[i].id != id ==> r[i] == profiles[i]
    ensures forall i :: 0 <= i < |r| && profiles[i].id == id ==>
      r[i] == profiles[i].(title := title.GetOr(profiles[i].title), isDefault := isDefault.GetOr(profiles[i].isDefault))
  {
    seq(|profiles|, i requires 0 <= i < |profiles| =>
      if profiles[i].id == id
      then profiles[i].(title := title.GetOr(profiles[i].title), isDefault := isDefault.GetOr(profiles[i].isDefault))
      else profiles[i])
  }

  /** The profile table after updateProfile's two writes. */
  function UpdatedProfiles(profiles: seq<Profile>, id: Id, title: Option<string>, isDefault: Option<bool>): seq<Profile>
  {
    WithProfile(if isDefault == Some(true) then ClearDefaults(profiles) else profiles, id, title, isDefault)
  }

  /** Making a profile the default leaves it the only default, and it is the
      one `findFirst` returns. */
  lemma MakeDefault(profiles: seq<Profile>, id: Id, title: Option<string>, k: nat)
    requires k < |profiles| && profiles[k].id == id
    requires UniqueProfileIds(profiles)
    ensures var r := UpdatedProfiles(profiles, id, title, Some(true));
      && AtMostOneDefault(r)
      && FirstDefault(r) == Some(r[k])
      && r[k].isDefault
  {
    var r := UpdatedProfiles(profiles, id, title, Some(true));
    assert forall i :: 0 <= i < |r| && i != k ==> !r[i].isDefault;
    FirstIs(r, k);
  }

  lemma {:induction false} FirstIs(profiles: seq<Profile>, k: nat)
    requires k < |profiles| && profiles[k].isDefault
    requires forall i :: 0 <= i < |profiles| && i != k ==> !profiles[i].isDefault
    ensures FirstDefault(profiles) == Some(profiles[k])
  {
    if k > 0 {
      FirstIs(profiles[1..], k - 1);
    }
  }

  /** An update that does not set the flag makes no new default, so at most
      one default stays at most one. */
  lemma OtherUpdateKeepsDefaults(profiles: seq<Profile>, id: Id, title: Option<string>, isDefault: Option<bool>)
    requires isDefault != Some(true)
    ensures var r := UpdatedProfiles(profiles, id, title, isDefault);
      forall i :: 0 <= i < |r| && r[i].isDefault ==> profiles[i].isDefault
    ensures AtMostOneDefault(profiles) ==> AtMostOneDefault(UpdatedProfiles(profiles, id, title, isDefault))
  {
  }

  /** `offers: { connect: ids }`: the listed offers are attached to the profile. */
  function Attached(offers: seq<Offer>, ids: seq<Id>, profileId: Id): (r: seq<Offer>)
    ensures |r| == |offers|
    ensures forall i :: 0 <= i < |r| ==> r[i].(profileId := offers[i].profileId) == offers[i]
    ensures forall i :: 0 <= i < |r| ==> r[i].profileId == if offers[i].id in ids then Some(profileId) else offers[i].profileId
  {
    seq(|offers|, i requires 0 <= i < |offers| =>
      if offers[i].id in ids then offers[i].(profileId := Some(profileId)) else offers[i])
  }

  /** Every listed id names an offer (`connect` fails otherwise). */
  predicate AllExist(offers: seq<Offer>, ids: seq<Id>)
  {
    forall j :: 0 <= j < |ids| ==> exists i :: 0 <= i < |offers| && offers[i].id == ids[j]
  }

  /** removeProfile: the removed profile's offers lose it (`ON DELETE SET
      NULL`), then every offer without a profile takes the default. */
  function Reattached(offers: seq<Offer>, removed: Id, defaultId: Id): (r: seq<Offer>)
    ensures |r| == |offers|
  {
    seq(|offers|, i requires 0 <= i < |offers| =>
      if offers[i].profileId.None? || offers[i].profileId == Some(removed) then offers[i].(profileId := Some(defaultId))
      else offers[i])
  }

  /** After a removal no offer is without a profile or on the removed one;
      the offers that were take the default, and nothing else changes. */
  lemma ReattachedSpec(offers: seq<Offer>, removed: Id, defaultId: Id)
    requires removed != defaultId
    ensures var r := Reattached(offers, removed, defaultId);
      && (forall i :: 0 <= i < |r| ==> r[i].profileId.Some? && r[i].profileId != Some(removed))
      && (forall i :: 0 <= i < |r| ==> r[i].(profileId := offers[i].profileId) == offers[i])
      && (forall i :: 0 <= i < |r| && r[i].profileId != offers[i].profileId ==> r[i].profileId == Some(defaultId))
  {
  }

  /** The profiles without the removed one. */
  function WithoutProfile(profiles: seq<Profile>, id: Id): (r: seq<Profile>)
    ensures forall p :: p in r <==> p in profiles && p.id != id
  {
    if profiles == [] then []
    else (if profiles[0].id == id then [] else [profiles[0]]) + WithoutProfile(profiles[1..], id)
  }

  lemma UniqueTail(profiles: seq<Profile>)
    requires profiles != [] && UniqueProfileIds(profiles)
    ensures UniqueProfileIds(profiles[1..])
    ensures forall p :: p in profiles[1..] ==> p.id != profiles[0].id
  {
    var tail := profiles[1..];
    forall i, j | 0 <= i < j < |tail| ensures tail[i].id != tail[j].id {
      assert tail[i] == profiles[i + 1] && tail[j] == profiles[j + 1];
    }
    forall p | p in tail ensures p.id != profiles[0].id {
      var j :| 0 <= j < |tail| && tail[j] == p;
      assert profiles[j + 1] == p;
    }
  }

  lemma UniqueCons(p: Profile, rest: seq<Profile>)
    requires UniqueProfileIds(rest)
    requires forall q :: q in rest ==> q.id != p.id
    ensures UniqueProfileIds([p] + rest)
  {
    var r := [p] + rest;
    forall i, j | 0 <= i < j < |r| ensures r[i].id != r[j].id {
      assert r[j] == rest[j - 1];
      if i > 0 {
        assert r[i] == rest[i - 1];
      }
    }
  }

  /** Removing a profile keeps the other profiles' ids distinct. */
  lemma {:induction false} RemovalKeepsUniqueIds(profiles: seq<Profile>, id: Id)
    requires UniqueProfileIds(profiles)
    ensures UniqueProfileIds(WithoutProfile(profiles, id))
  {
    if profiles != [] {
      var tail := profiles[1..];
      UniqueTail(profiles);
      RemovalKeepsUniqueIds(tail, id);
      if profiles[0].id != id {
        UniqueCons(profiles[0], WithoutProfile(tail, id));
      }
    }
  }

  /** Removing a profile other than the only default keeps exactly that default. */
  lemma RemovalKeepsDefault(profiles: seq<Profile>, id: Id)
    requires AtMostOneDefault(profiles)
    requires FirstDefault(profiles).Some? && FirstDefault(profiles).value.id != id
    ensures FirstDefault(WithoutProfile(profiles, id)).Some?
    ensures AtMostOneDefault(WithoutProfile(profiles, id))
  {
    var d := FirstDefault(profiles).value;
    assert d in WithoutProfile(profiles, id);
    SubsequenceKeepsAtMostOne(profiles, id);
  }

  lemma {:induction false} SubsequenceKeepsAtMostOne(profiles: seq<Profile>, id: Id)
    requires AtMostOneDefault(profiles)
    ensures AtMostOneDefault(WithoutProfile(profiles, id))
  {
    if profiles != [] {
      var tail := profiles[1..];
      assert AtMostOneDefault(tail) by {
        forall i, j | 0 <= i < j < |tail| && tail[i].isDefault ensures !tail[j].isDefault {
          assert tail[i] == profiles[i + 1] && tail[j] == profiles[j + 1];
        }
      }
      SubsequenceKeepsAtMostOne(tail, id);
      var rest := WithoutProfile(tail, id);
      if profiles[0].id != id && profiles[0].isDefault {
        forall p | p in rest ensures !p.isDefault {
          var j :| 0 <= j < |tail| && tail[j] == p;
          assert profiles[j + 1] == p;
        }
        var r := [profiles[0]] + rest;
        forall i, j | 0 <= i < j < |r| && r[i].isDefault ensures !r[j].isDefault {
          assert r[j] in rest;
        }
      }
    }
  }

  // ---------------------------------------------------------------------
  // The two transactions
  // ---------------------------------------------------------------------

  /** True when another profile has the title (profile titles are unique). */
  predicate ProfileTitleTaken(profiles: seq<Profile>, exceptId: Id, title: string)
  {
    exists i :: 0 <= i < |profiles| && profiles[i].id != exceptId && profiles[i].title == title
  }

  /** The fields of a profile edit; a left-out field is `None`. */
  datatype ProfileEdit = ProfileEdit(title: Option<string>, isDefault: Option<bool>,
                                     connect: Option<seq<Id>>, disconnect: Option<seq<Id>>)

  /** The two tables the profile transactions write. */
  datatype ProfileTables = ProfileTables(profiles: seq<Profile>, offers: seq<Offer>)

  /** The checks of updateProfile's first write: the profile exists, its
      new title is free, and the offers to connect exist. */
  predicate UpdateAllowed(profiles: seq<Profile>, offers: seq<Offer>, profileId: Id, e: ProfileEdit)
  {
    && FindProfile(profiles, profileId).Some?
    && (e.title.None? || !ProfileTitleTaken(profiles, profileId, e.title.value))
    && (e.connect.None? || AllExist(offers, e.connect.value))
  }

  /** updateProfile: clear every flag when the profile becomes the default,
      update the profile, require a default afterwards, and attach the
      offers to disconnect to the default. */
  function ProfileUpdate(profiles: seq<Profile>, offers: seq<Offer>, profileId: Id, e: ProfileEdit): (r: Result<ProfileTables, Error>)
    ensures FindProfile(profiles, profileId).None? ==> r == Failure(ServerError)
    ensures FindProfile(profiles, profileId).Some? && e.title.Some? && ProfileTitleTaken(profiles, profileId, e.title.value) ==>
      r == Failure(NotUnique)
    ensures !UpdateAllowed(profiles, offers, profileId, e) ==> r.Failure?
    ensures (&& FindProfile(profiles, profileId).Some?
             && (e.title.None? || !ProfileTitleTaken(profiles, profileId, e.title.value))
             && e.connect.Some? && !AllExist(offers, e.connect.value)) ==> r == Failure(ServerError)
    ensures var updated := UpdatedProfiles(profiles, profileId, e.title, e.isDefault);
      (UpdateAllowed(profiles, offers, profileId, e) && FirstDefault(updated).Some? && !AllExist(offers, e.disconnect.GetOr([]))) ==>
        r == Failure(ServerError)
    ensures var updated := UpdatedProfiles(profiles, profileId, e.title, e.isDefault);
      UpdateAllowed(profiles, offers, profileId, e) && FirstDefault(updated).None? ==> r == Failure(NoDefaultProfile)
    ensures r.Success? <==>
      && UpdateAllowed(profiles, offers, profileId, e)
      && FirstDefault(UpdatedProfiles(profiles, profileId, e.title, e.isDefault)).Some?
      && AllExist(offers, e.disconnect.GetOr([]))
    ensures r.Success? ==> r.value.profiles == UpdatedProfiles(profiles, profileId, e.title, e.isDefault)
    ensures r.Success? ==> FirstDefault(r.value.profiles).Some?
    ensures r.Success? ==> |r.value.offers| == |offers|
    ensures r.Success? ==> forall i :: 0 <= i < |offers| ==> r.value.offers[i].(profileId := offers[i].profileId) == offers[i]
    ensures r.Success? ==>
      var released := e.disconnect.GetOr([]);
      forall i :: 0 <= i < |offers| && offers[i].id in released ==>
        r.value.offers[i].profileId == Some(FirstDefault(r.value.profiles).value.id)
    ensures r.Success? ==>
      var released, taken := e.disconnect.GetOr([]), e.connect.GetOr([]);
      forall i :: 0 <= i < |offers| && offers[i].id in taken && offers[i].id !in released ==>
        r.value.offers[i].profileId == Some(profileId)
    ensures r.Success? ==>
      var released, taken := e.disconnect.GetOr([]), e.connect.GetOr([]);
      forall i :: 0 <= i < |offers| && offers[i].id !in taken && offers[i].id !in released ==>
        r.value.offers[i] == offers[i]
  {
    if FindProfile(profiles, profileId).None? then Failure(ServerError)
    else if e.title.Some? && ProfileTitleTaken(profiles, profileId, e.title.value) then Failure(NotUnique)
    else if e.connect.Some? && !AllExist(offers, e.connect.value) then Failure(ServerError)
    else
      var updated := UpdatedProfiles(profiles, profileId, e.title, e.isDefault);
      var connected := if e.connect.Some? then Attached(offers, e.connect.value, profileId) else offers;
      match FirstDefault(updated)
      case None => Failure(NoDefaultProfile)
      case Some(d) =>
        if !AllExist(offers, e.disconnect.GetOr([])) then Failure(ServerError)
        else Success(ProfileTables(updated, Attached(connected, e.disconnect.GetOr([]), d.id)))
  }

  /** With at most one default, an update of an existing profile keeps at
      most one default; making the profile the default makes it the default
      `findFirst` finds. */
  lemma UpdatedProfilesKeepDefault(profiles: seq<Profile>, profileId: Id, title: Option<string>, isDefault: Option<bool>)
    requires UniqueProfileIds(profiles) && AtMostOneDefault(profiles)
    requires FindProfile(profiles, profileId).Some?
    ensures AtMostOneDefault(UpdatedProfiles(profiles, profileId, title, isDefault))
    ensures isDefault == Some(true) ==>
      var r := UpdatedProfiles(profiles, profileId, title, isDefault);
      FirstDefault(r).Some? && FirstDefault(r).value.id == profileId
  {
    var k :| 0 <= k < |profiles| && profiles[k].id == profileId;
    if isDefault == Some(true) {
      MakeDefault(profiles, profileId, title, k);
    } else {
      OtherUpdateKeepsDefaults(profiles, profileId, title, isDefault);
    }
  }

  /** An update keeps every profile's id. */
  lemma UpdatedProfilesKeepIds(profiles: seq<Profile>, profileId: Id, title: Option<string>, isDefault: Option<bool>)
    ensures var r := UpdatedProfiles(profiles, profileId, title, isDefault);
      |r| == |profiles| && forall i :: 0 <= i < |r| ==> r[i].id == profiles[i].id
    ensures UniqueProfileIds(profiles) ==> UniqueProfileIds(UpdatedProfiles(profiles, profileId, title, isDefault))
  {
  }

  /** removeProfile: there must be a default, the profile must not be it,
      and it must exist; its offers and every offer without a profile then
      take the default. */
  function ProfileRemoval(profiles: seq<Profile>, offers: seq<Offer>, profileId: Id): (r: Result<ProfileTables, Error>)
    ensures FirstDefault(profiles).None? <==> r == Failure(NoDefaultProfile)
    ensures r == Failure(DefaultProfileRemoval) <==> FirstDefault(profiles).Some? && FirstDefault(profiles).value.id == profileId
    ensures r.Success? <==> FirstDefault(profiles).Some? && FirstDefault(profiles).value.id != profileId &&
                            FindProfile(profiles, profileId).Some?
    ensures r.Success? ==>
      var d := FirstDefault(profiles).value;
      && r.value.profiles == WithoutProfile(profiles, profileId)
      && FirstDefault(r.value.profiles).Some?
      && |r.value.offers| == |offers|
      && (forall i :: 0 <= i < |offers| ==> r.value.offers[i].(profileId := offers[i].profileId) == offers[i])
      && (forall i :: 0 <= i < |offers| ==> r.value.offers[i].profileId.Some? && r.value.offers[i].profileId != Some(profileId))
      && (forall i :: 0 <= i < |offers| && r.value.offers[i].profileId != offers[i].profileId ==>
            r.value.offers[i].profileId == Some(d.id))
  {
    match FirstDefault(profiles)
    case None => Failure(NoDefaultProfile)
    case Some(d) =>
      if d.id == profileId then Failure(DefaultProfileRemoval)
      else if FindProfile(profiles, profileId).None? then Failure(ServerError)
      else
        ReattachedSpec(offers, profileId, d.id);
        assert d in WithoutProfile(profiles, profileId);
        Success(ProfileTables(WithoutProfile(profiles, profileId), Reattached(offers, profileId, d.id)))
  }

  /** A removal keeps at most one default and the ids distinct. */
  lemma ProfileRemovalKeepsDefault(profiles: seq<Profile>, offers: seq<Offer>, profileId: Id)
    requires UniqueProfileIds(profiles) && AtMostOneDefault(profiles)
    requires ProfileRemoval(profiles, offers, profileId).Success?
    ensures AtMostOneDefault(ProfileRemoval(profiles, offers, profileId).value.profiles)
    ensures UniqueProfileIds(ProfileRemoval(profiles, offers, profileId).value.profiles)
  {
    SubsequenceKeepsAtMostOne(profiles, profileId);
    RemovalKeepsUniqueIds(profiles, profileId);
  }
}
