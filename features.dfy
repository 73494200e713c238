/** The product-features block of the product editor: the change set it sends
    to the server after every local edit (create, update, delete and reorder
    features, and per feature create, update, delete and reorder values), the
    local edit handlers, and the new-feature editor. */
module Features {
  import opened Wrappers
  import opened Lists
  import opened Dragging

  datatype KeyValue = KeyValue(key: string, value: string)

  /** The input a key/value edit comes from (`key_<i>` or `value_<i>`). */
  datatype PairField = KeyField | ValueField

  function WithField(kv: KeyValue, field: PairField, text: string): KeyValue
  {
    match field
    case KeyField => kv.(key := text)
    case ValueField => kv.(value := text)
  }

  type FeatureValue = Entry<KeyValue>

  datatype FeatureBody = FeatureBody(title: string, values: seq<FeatureValue>)

  /** A feature as the editor holds it: the server's snapshot or the local copy. */
  type Feature = Entry<FeatureBody>

  datatype NewFeature = NewFeature(title: string, values: seq<KeyValue>)

  datatype ValueUpdate = ValueUpdate(id: real, key: string, value: string)

  datatype FeatureUpdate = FeatureUpdate(
    id: real,
    title: Option<string>,
    reorderValues: Option<seq<real>>,
    createValues: seq<KeyValue>,
    updateValues: seq<ValueUpdate>,
    deleteValues: seq<real>)

  /** The request body; `None` is a field sent as `undefined`. */
  datatype FeatureChanges = FeatureChanges(
    reorderFeatures: Option<seq<real>>,
    createFeatures: Option<seq<NewFeature>>,
    updateFeatures: Option<seq<FeatureUpdate>>,
    deleteFeatures: Option<seq<real>>)

  /** `s.find(c => c.id === id)`: the first entry with that id. */
  function Find<T>(s: seq<Entry<T>>, id: real): (r: Option<Entry<T>>)
    ensures r.Some? <==> HasId(s, id)
    ensures r.Some? ==> r.value in s && r.value.id == id
  {
    if s == [] then None
    else if s[0].id == id then Some(s[0])
    else
      assert forall i :: 1 <= i < |s| ==> s[i] == s[1..][i - 1];
      Find(s[1..], id)
  }

  /** `find` returns the first entry with the id. */
  lemma {:induction false} FindFirst<T>(s: seq<Entry<T>>, id: real)
    requires HasId(s, id)
    ensures exists i :: 0 <= i < |s| && s[i] == Find(s, id).value && forall j :: 0 <= j < i ==> s[j].id != id
  {
    if s[0].id != id {
      assert HasId(s[1..], id) by {
        var k :| 0 <= k < |s| && s[k].id == id;
        assert s[1..][k - 1] == s[k];
      }
      FindFirst(s[1..], id);
      var i :| 0 <= i < |s[1..]| && s[1..][i] == Find(s[1..], id).value && forall j :: 0 <= j < i ==> s[1..][j].id != id;
      assert s[i + 1] == Find(s, id).value;
      assert forall j :: 0 <= j < i + 1 ==> s[j].id != id by {
        forall j | 0 <= j < i + 1 ensures s[j].id != id {
          if j > 0 { assert s[j] == s[1..][j - 1]; }
        }
      }
    } else {
      assert s[0] == Find(s, id).value;
    }
  }

  lemma FindUnique<T>(s: seq<Entry<T>>, k: nat)
    requires UniqueIds(s) && k < |s|
    ensures Find(s, s[k].id) == Some(s[k])
  {
    var r := Find(s, s[k].id).value;
    var j :| 0 <= j < |s| && s[j] == r;
  }

  function ValueData(v: FeatureValue): KeyValue
  {
    v.data
  }

  function AsNewFeature(f: Feature): NewFeature
  {
    NewFeature(f.data.title, Map(ValueData, f.data.values))
  }

  function AsValueUpdate(v: FeatureValue): ValueUpdate
  {
    ValueUpdate(v.id, v.data.key, v.data.value)
  }

  /** The full local id list, sent when the local list only reorders the
      server's features. */
  function ReorderFeatures(local: seq<Feature>, server: seq<Feature>): (r: Option<seq<real>>)
    ensures r.Some? <==> |local| == |server| && (forall c :: c in local ==> HasId(server, c.id)) && Ids(local) != Ids(server)
    ensures r.Some? ==> r.value == Ids(local)
  {
    if |local| == |server| && (forall c :: c in local ==> HasId(server, c.id)) && Ids(local) != Ids(server)
    then Some(Ids(local))
    else None
  }

  /** Local features the server does not know, without their ids. */
  function CreatedFeatures(local: seq<Feature>, server: seq<Feature>): (r: seq<NewFeature>)
    ensures forall f :: f in local && !HasId(server, f.id) ==> AsNewFeature(f) in r
    ensures forall n :: n in r ==> exists f :: f in local && !HasId(server, f.id) && n == AsNewFeature(f)
    ensures r == [] <==> forall f :: f in local ==> HasId(server, f.id)
  {
    var added := Filter(local, (f: Feature) => !HasId(server, f.id));
    var r := Map(AsNewFeature, added);
    assert forall f :: f in added ==> AsNewFeature(f) in r by {
      forall f | f in added ensures AsNewFeature(f) in r {
        var i :| 0 <= i < |added| && added[i] == f;
        assert r[i] == AsNewFeature(f);
      }
    }
    assert forall n :: n in r ==> exists f :: f in local && !HasId(server, f.id) && n == AsNewFeature(f) by {
      forall n | n in r ensures exists f :: f in local && !HasId(server, f.id) && n == AsNewFeature(f) {
        var i :| 0 <= i < |r| && r[i] == n;
        assert added[i] in added;
      }
    }
    assert r != [] ==> r[0] in r;
    r
  }

  /** Ids of server features no longer present locally. */
  function DeletedFeatures(local: seq<Feature>, server: seq<Feature>): (r: seq<real>)
    ensures forall id :: id in r <==> HasId(server, id) && !HasId(local, id)
    ensures r == [] <==> forall f :: f in server ==> HasId(local, f.id)
  {
    var gone := Filter(server, (f: Feature) => !HasId(local, f.id));
    var r := Ids(gone);
    assert forall id :: HasId(server, id) && !HasId(local, id) ==> id in r by {
      forall id | HasId(server, id) && !HasId(local, id) ensures id in r {
        var i :| 0 <= i < |server| && server[i].id == id;
        assert server[i] in gone;
        var j :| 0 <= j < |gone| && gone[j] == server[i];
        assert r[j] == id;
      }
    }
    assert forall id :: id in r ==> HasId(server, id) && !HasId(local, id) by {
      forall id | id in r ensures HasId(server, id) && !HasId(local, id) {
        var j :| 0 <= j < |r| && r[j] == id;
        assert gone[j] in server;
      }
    }
    assert r != [] ==> r[0] in r;
    assert forall f :: f in server && !HasId(local, f.id) ==> f.id in r by {
      forall f | f in server && !HasId(local, f.id) ensures f.id in r {
        var i :| 0 <= i < |server| && server[i] == f;
      }
    }
    r
  }

  /** Some value present on both sides has a different key or value. */
  predicate ValuesEdited(server: seq<FeatureValue>, local: seq<FeatureValue>)
  {
    exists i, j :: 0 <= i < |server| && 0 <= j < |local| && local[j].id == server[i].id && server[i].data != local[j].data
  }

  /** Every server value is still there, in another order. */
  predicate ValuesReordered(server: seq<FeatureValue>, local: seq<FeatureValue>)
  {
    (forall i :: 0 <= i < |server| ==> HasId(local, server[i].id)) && Ids(server) != Ids(local)
  }

  /** What makes the local copy `c` of the server feature `a` need an update. */
  predicate Changed(a: Feature, c: Feature)
  {
    || a.data.title != c.data.title
    || |a.data.values| != |c.data.values|
    || ValuesEdited(a.data.values, c.data.values)
    || ValuesReordered(a.data.values, c.data.values)
  }

  predicate NeedsUpdate(server: seq<Feature>, c: Feature)
  {
    exists i :: 0 <= i < |server| && server[i].id == c.id && Changed(server[i], c)
  }

  /** `reorderValues`: the join comparison sits inside `every`, so an empty
      local value list always yields the empty reorder. */
  function ReorderValues(local: seq<FeatureValue>, current: seq<FeatureValue>): (r: Option<seq<real>>)
    ensures local == [] ==> r == Some([])
    ensures local != [] ==> (r.Some? <==> (forall c :: c in local ==> HasId(current, c.id)) && Ids(local) != Ids(current))
    ensures r.Some? ==> r.value == Ids(local)
  {
    assert local != [] ==> local[0] in local;
    if forall c :: c in local ==> HasId(current, c.id) && Ids(local) != Ids(current)
    then Some(Ids(local))
    else None
  }

  /** The values of the server feature with this id, or none. */
  function CurrentValues(server: seq<Feature>, id: real): seq<FeatureValue>
  {
    match Find(server, id)
    case Some(a) => a.data.values
    case None => []
  }

  function UpdateOf(server: seq<Feature>, f: Feature): FeatureUpdate
  {
    var current := CurrentValues(server, f.id);
    var local := f.data.values;
    FeatureUpdate(
      f.id,
      if exists i :: 0 <= i < |server| && server[i].id == f.id && server[i].data.title != f.data.title
      then Some(f.data.title) else None,
      ReorderValues(local, current),
      Map(ValueData, Filter(local, (v: FeatureValue) => !HasId(current, v.id))),
      Map(AsValueUpdate, Filter(local, (v: FeatureValue) =>
        exists i :: 0 <= i < |current| && current[i].id == v.id && current[i].data != v.data)),
      Ids(Filter(current, (v: FeatureValue) => !HasId(local, v.id))))
  }

  /** One update per local feature that needs one, in local order. */
  function UpdatedFeatures(local: seq<Feature>, server: seq<Feature>): (r: seq<FeatureUpdate>)
    ensures |r| <= |local|
  {
    Map((f: Feature) => UpdateOf(server, f), Filter(local, (f: Feature) => NeedsUpdate(server, f)))
  }

  /** The change set the block emits for the local list against the server's. */
  function Diff(local: seq<Feature>, server: seq<Feature>): (r: FeatureChanges)
    ensures r.createFeatures.None? <==> forall f :: f in local ==> HasId(server, f.id)
    ensures r.updateFeatures.None? <==> forall f :: f in local ==> !NeedsUpdate(server, f)
    ensures r.deleteFeatures.None? <==> forall f :: f in server ==> HasId(local, f.id)
  {
    FilterEmpty(local, (f: Feature) => NeedsUpdate(server, f));
    FeatureChanges(
      ReorderFeatures(local, server),
      NonEmpty(CreatedFeatures(local, server)),
      NonEmpty(UpdatedFeatures(local, server)),
      NonEmpty(DeletedFeatures(local, server)))
  }

  ghost predicate Distinct(s: seq<real>)
  {
    forall i, j :: 0 <= i < j < |s| ==> s[i] != s[j]
  }

  lemma {:induction false} DistinctCard(s: seq<real>)
    requires Distinct(s)
    ensures |set x | x in s| == |s|
  {
    if s != [] {
      DistinctCard(s[1..]);
      assert (set x | x in s) == {s[0]} + (set x | x in s[1..]);
      assert s[0] !in (set x | x in s[1..]);
    }
  }

  lemma {:induction false} SubsetCard(a: set<real>, b: set<real>)
    requires a <= b
    ensures |a| <= |b|
    ensures |a| == |b| ==> a == b
  {
    assert a + (b - a) == b;
    assert a * (b - a) == {};
    if |a| == |b| {
      assert |b - a| == 0;
    }
  }

  /** A reorder is only sent when the local ids are the server's ids in
      another order, so no feature is created or deleted alongside it. */
  lemma ReorderIsPermutation(local: seq<Feature>, server: seq<Feature>)
    requires UniqueIds(local) && UniqueIds(server)
    requires ReorderFeatures(local, server).Some?
    ensures var r := ReorderFeatures(local, server).value;
      && |r| == |server|
      && Distinct(r)
      && (forall id :: id in r <==> id in Ids(server))
    ensures CreatedFeatures(local, server) == []
    ensures DeletedFeatures(local, server) == []
  {
    var l := Ids(local);
    var s := Ids(server);
    var ls := set x | x in l;
    var ss := set x | x in s;
    assert ls <= ss by {
      forall x | x in ls ensures x in ss {
        var i :| 0 <= i < |l| && l[i] == x;
        assert local[i] in local;
        var j :| 0 <= j < |server| && server[j].id == x;
        assert s[j] == x;
      }
    }
    DistinctCard(l);
    DistinctCard(s);
    SubsetCard(ls, ss);
    assert forall f :: f in local ==> HasId(server, f.id);
    forall f | f in server ensures HasId(local, f.id) {
      var j :| 0 <= j < |server| && server[j] == f;
      assert s[j] in ss;
      var i :| 0 <= i < |l| && l[i] == f.id;
    }
  }

  /** A feature compared with itself needs no update. */
  lemma UnchangedFeature(f: Feature)
    requires UniqueIds(f.data.values)
    ensures !Changed(f, f)
  {
  }

  /** With nothing edited locally the block sends nothing. */
  lemma DiffOfUnchanged(server: seq<Feature>)
    requires UniqueIds(server)
    requires forall f :: f in server ==> UniqueIds(f.data.values)
    ensures Diff(server, server) == FeatureChanges(None, None, None, None)
  {
    assert forall f :: f in server ==> HasId(server, f.id) by {
      forall f | f in server ensures HasId(server, f.id) {
        var i :| 0 <= i < |server| && server[i] == f;
      }
    }
    forall c | c in server ensures !NeedsUpdate(server, c) {
      UnchangedFeature(c);
    }
    FilterEmpty(server, (f: Feature) => NeedsUpdate(server, f));
  }

  /** `onFeatureChange` on the title input. */
  function FeatureRenamed(items: seq<Feature>, id: real, title: string): (r: seq<Feature>)
    ensures |r| == |items| && Ids(r) == Ids(items)
    ensures forall i :: 0 <= i < |items| && items[i].id == id ==> r[i].data == items[i].data.(title := title) && r[i].position == items[i].position
    ensures forall i :: 0 <= i < |items| && items[i].id != id ==> r[i] == items[i]
  {
    Map((c: Feature) => if c.id != id then c else c.(data := c.data.(title := title)), items)
  }

  /** A feature listed locally that needs an update is sent as one. */
  lemma UpdateListed(local: seq<Feature>, server: seq<Feature>, c: Feature)
    requires c in local && NeedsUpdate(server, c)
    ensures UpdateOf(server, c) in UpdatedFeatures(local, server)
  {
    var needs := Filter(local, (f: Feature) => NeedsUpdate(server, f));
    assert c in needs;
    var j :| 0 <= j < |needs| && needs[j] == c;
    assert UpdatedFeatures(local, server)[j] == UpdateOf(server, c);
  }

  /** The updates sent are exactly those of the local features that need
      one. */
  lemma UpdatesSent(local: seq<Feature>, server: seq<Feature>)
    ensures forall u :: u in UpdatedFeatures(local, server) <==>
      exists c :: c in local && NeedsUpdate(server, c) && u == UpdateOf(server, c)
  {
    var needs := Filter(local, (f: Feature) => NeedsUpdate(server, f));
    var r := UpdatedFeatures(local, server);
    forall u | u in r
      ensures exists c :: c in local && NeedsUpdate(server, c) && u == UpdateOf(server, c)
    {
      var j :| 0 <= j < |r| && r[j] == u;
      assert needs[j] in needs;
    }
    forall c | c in local && NeedsUpdate(server, c)
      ensures UpdateOf(server, c) in r
    {
      UpdateListed(local, server, c);
    }
  }

  /** Local edits that keep the id list are sent as updates only. */
  lemma SameIdsOnlyUpdates(local: seq<Feature>, server: seq<Feature>)
    requires Ids(local) == Ids(server)
    ensures var d := Diff(local, server);
      d.reorderFeatures.None? && d.createFeatures.None? && d.deleteFeatures.None?
  {
    forall f | f in local ensures HasId(server, f.id) {
      var i :| 0 <= i < |local| && local[i] == f;
      assert Ids(local)[i] == Ids(server)[i];
    }
    forall f | f in server ensures HasId(local, f.id) {
      var i :| 0 <= i < |server| && server[i] == f;
      assert Ids(local)[i] == Ids(server)[i];
    }
  }

  /** Renaming a saved feature is sent as an update carrying the new title,
      and as nothing else. */
  lemma RenameReported(server: seq<Feature>, k: nat, title: string)
    requires k < |server|
    requires title != server[k].data.title
    ensures var d := Diff(FeatureRenamed(server, server[k].id, title), server);
      && d.reorderFeatures.None? && d.createFeatures.None? && d.deleteFeatures.None?
      && d.updateFeatures.Some?
      && exists u :: u in d.updateFeatures.value && u.id == server[k].id && u.title == Some(title)
  {
    var local := FeatureRenamed(server, server[k].id, title);
    SameIdsOnlyUpdates(local, server);
    var c := local[k];
    assert server[k].id == c.id && Changed(server[k], c);
    UpdateListed(local, server, c);
    var u := UpdateOf(server, c);
    assert u.title == Some(title);
  }

  /** `onFeatureRemove`. */
  function FeatureRemoved(items: seq<Feature>, id: real): (r: seq<Feature>)
    ensures forall f :: f in r <==> f in items && f.id != id
  {
    Filter(items, (c: Feature) => c.id != id)
  }

  /** Removing a saved feature locally is sent as its deletion. */
  lemma RemoveReported(server: seq<Feature>, local: seq<Feature>, id: real)
    requires HasId(server, id)
    ensures id in DeletedFeatures(FeatureRemoved(local, id), server)
    ensures Diff(FeatureRemoved(local, id), server).deleteFeatures.Some?
  {
  }

  /** `Math.max(...s.map(c => c.position), 0)`. */
  function MaxPosition<T>(s: seq<Entry<T>>): (r: int)
    ensures r >= 0
    ensures forall e :: e in s ==> e.position <= r
    ensures r == 0 || exists i :: 0 <= i < |s| && s[i].position == r
  {
    if s == [] then 0
    else
      var rest := MaxPosition(s[1..]);
      assert forall e :: e in s ==> e == s[0] || e in s[1..];
      if s[0].position > rest then s[0].position else rest
  }

  /** `onFeatureValueCreate`: the feature with that id gets the pair as a new
      last value, ranked after every value it has. */
  function FeatureValueAdded(items: seq<Feature>, id: real, kv: KeyValue, freshId: real): (r: seq<Feature>)
    ensures |r| == |items| && Ids(r) == Ids(items)
    ensures forall i :: 0 <= i < |items| && items[i].id != id ==> r[i] == items[i]
    ensures forall i :: 0 <= i < |items| && items[i].id == id ==>
      var old_values := items[i].data.values;
      var new_values := r[i].data.values;
      && r[i].data.title == items[i].data.title
      && |new_values| == |old_values| + 1
      && new_values[..|old_values|] == old_values
      && new_values[|old_values|].data == kv
      && new_values[|old_values|].id == freshId
      && new_values[|old_values|].position == MaxPosition(old_values) + 1
      && forall v :: v in old_values ==> v.position < new_values[|old_values|].position
  {
    Map((c: Feature) =>
      if c.id != id then c
      else c.(data := c.data.(values := c.data.values + [Entry(freshId, MaxPosition(c.data.values) + 1, kv)])),
      items)
  }

  /** `onFeatureValueChange`: the value with that id, in the feature with
      that id, gets the edited key or value; nothing else changes. */
  function FeatureValueEdited(items: seq<Feature>, id: real, valueId: real, field: PairField, text: string): (r: seq<Feature>)
    ensures |r| == |items| && Ids(r) == Ids(items)
    ensures forall i :: 0 <= i < |items| && items[i].id != id ==> r[i] == items[i]
    ensures forall i :: 0 <= i < |items| && items[i].id == id ==>
      && r[i].position == items[i].position && r[i].data.title == items[i].data.title
      && |r[i].data.values| == |items[i].data.values|
      && forall j :: 0 <= j < |items[i].data.values| ==>
           var v := items[i].data.values[j];
           r[i].data.values[j] == if v.id == valueId then v.(data := WithField(v.data, field, text)) else v
  {
    Map((c: Feature) => if c.id != id then c
      else c.(data := c.data.(values := Map((a: FeatureValue) => if a.id != valueId then a else a.(data := WithField(a.data, field, text)), c.data.values))),
      items)
  }

  /** `onFeatureValueRemove`: the feature with that id loses the value with
      that id; nothing else changes. */
  function FeatureValueRemoved(items: seq<Feature>, id: real, valueId: real): (r: seq<Feature>)
    ensures |r| == |items| && Ids(r) == Ids(items)
    ensures forall i :: 0 <= i < |items| && items[i].id != id ==> r[i] == items[i]
    ensures forall i :: 0 <= i < |items| && items[i].id == id ==>
      && r[i].position == items[i].position && r[i].data.title == items[i].data.title
      && forall v :: v in r[i].data.values <==> v in items[i].data.values && v.id != valueId
  {
    Map((c: Feature) => if c.id != id then c
      else c.(data := c.data.(values := Filter(c.data.values, (a: FeatureValue) => a.id != valueId))),
      items)
  }

  /** Changing the key or value of a saved value of a saved feature to
      something new is sent as an update of that feature listing the value. */
  lemma ValueEditReported(server: seq<Feature>, k: nat, j: nat, field: PairField, text: string)
    requires UniqueIds(server) && k < |server|
    requires j < |server[k].data.values|
    requires var v := server[k].data.values[j]; WithField(v.data, field, text) != v.data
    ensures var v := server[k].data.values[j];
      var d := Diff(FeatureValueEdited(server, server[k].id, v.id, field, text), server);
      && d.updateFeatures.Some?
      && exists u :: u in d.updateFeatures.value && u.id == server[k].id
           && ValueUpdate(v.id, WithField(v.data, field, text).key, WithField(v.data, field, text).value) in u.updateValues
  {
    var v := server[k].data.values[j];
    var local := FeatureValueEdited(server, server[k].id, v.id, field, text);
    var c := local[k];
    var edited := c.data.values[j];
    assert edited == v.(data := WithField(v.data, field, text));
    assert ValuesEdited(server[k].data.values, c.data.values);
    UpdateListed(local, server, c);
    FindUnique(server, k);
    EditedValueSent(server, c, edited);
  }

  /** A local value whose saved counterpart has other data is listed among
      the value updates of its feature. */
  lemma EditedValueSent(server: seq<Feature>, c: Feature, edited: FeatureValue)
    requires edited in c.data.values
    requires var current := CurrentValues(server, c.id);
      exists i :: 0 <= i < |current| && current[i].id == edited.id && current[i].data != edited.data
    ensures AsValueUpdate(edited) in UpdateOf(server, c).updateValues
  {
    var current := CurrentValues(server, c.id);
    var changed := Filter(c.data.values, (a: FeatureValue) =>
      exists i :: 0 <= i < |current| && current[i].id == a.id && current[i].data != a.data);
    assert edited in changed;
    var m :| 0 <= m < |changed| && changed[m] == edited;
    assert UpdateOf(server, c).updateValues[m] == AsValueUpdate(edited);
  }

  /** Removing a saved value of a saved feature is sent as an update of that
      feature listing the value's id among its deletions. */
  lemma ValueRemoveReported(server: seq<Feature>, k: nat, j: nat)
    requires UniqueIds(server) && k < |server|
    requires j < |server[k].data.values|
    ensures var valueId := server[k].data.values[j].id;
      var d := Diff(FeatureValueRemoved(server, server[k].id, valueId), server);
      && d.updateFeatures.Some?
      && exists u :: u in d.updateFeatures.value && u.id == server[k].id && valueId in u.deleteValues
  {
    var v := server[k].data.values[j];
    var local := FeatureValueRemoved(server, server[k].id, v.id);
    var c := local[k];
    var current := server[k].data.values;
    FilterShorter(current, (a: FeatureValue) => a.id != v.id, v);
    assert Changed(server[k], c);
    UpdateListed(local, server, c);
    FindUnique(server, k);
    var u := UpdateOf(server, c);
    var gone := Filter(current, (a: FeatureValue) => !HasId(c.data.values, a.id));
    assert v in gone;
    var m :| 0 <= m < |gone| && gone[m] == v;
    assert u.deleteValues[m] == v.id;
  }

  /** Adding a pair with a fresh id to a saved feature is sent as an update
      of that feature listing the pair among the values to create. */
  lemma ValueAddReported(server: seq<Feature>, k: nat, kv: KeyValue, freshId: real)
    requires UniqueIds(server) && k < |server|
    requires !HasId(server[k].data.values, freshId)
    ensures var d := Diff(FeatureValueAdded(server, server[k].id, kv, freshId), server);
      && d.updateFeatures.Some?
      && exists u :: u in d.updateFeatures.value && u.id == server[k].id && kv in u.createValues
  {
    var local := FeatureValueAdded(server, server[k].id, kv, freshId);
    var c := local[k];
    assert Changed(server[k], c);
    UpdateListed(local, server, c);
    FindUnique(server, k);
    AddedValueSent(server, c, c.data.values[|server[k].data.values|]);
  }

  /** A local value whose id the saved feature lacks is listed among the
      values to create. */
  lemma AddedValueSent(server: seq<Feature>, c: Feature, added: FeatureValue)
    requires added in c.data.values && !HasId(CurrentValues(server, c.id), added.id)
    ensures added.data in UpdateOf(server, c).createValues
  {
    var current := CurrentValues(server, c.id);
    var created := Filter(c.data.values, (v: FeatureValue) => !HasId(current, v.id));
    assert added in created;
    var m :| 0 <= m < |created| && created[m] == added;
    assert UpdateOf(server, c).createValues[m] == added.data;
  }

  // ----- The new-feature editor -----

  /** A row of the new-feature editor (its id and position are always 0). */
  datatype DraftRow = DraftRow(key: string, value: string)

  const BlankRow := DraftRow("", "")

  datatype Draft = Draft(title: string, rows: seq<DraftRow>)

  const EmptyDraft := Draft("", [BlankRow])

  datatype DraftError = BlankTitle | NoValues

  /** The rows the editor can show: every row but the last has a key, and the
      last row is still open (its key or its value is empty). */
  ghost predicate WellFormedRows(rows: seq<DraftRow>)
  {
    && rows != []
    && (rows[|rows| - 1].key == "" || rows[|rows| - 1].value == "")
    && forall i :: 0 <= i < |rows| - 1 ==> rows[i].key != ""
  }

  function EditedRow(row: DraftRow, field: PairField, text: string): DraftRow
  {
    match field
    case KeyField => row.(key := text)
    case ValueField => row.(value := text)
  }

  predicate Keyed(row: DraftRow)
  {
    row.key != ""
  }

  function KeyedRows(rows: seq<DraftRow>): (r: seq<DraftRow>)
    ensures forall i :: 0 <= i < |r| ==> r[i].key != ""
  {
    var r := Filter(rows, Keyed);
    assert forall i :: 0 <= i < |r| ==> r[i] in r;
    r
  }

  /** `KeyedRows` keeps every row with a key, and only those, in their
      order: the rows at the positions `KeptPositions` selects. */
  lemma KeyedRowsKept(rows: seq<DraftRow>)
    ensures forall row :: row in KeyedRows(rows) <==> row in rows && row.key != ""
    ensures var idx := KeptPositions(rows, Keyed);
      && |KeyedRows(rows)| == |idx|
      && forall i :: 0 <= i < |idx| ==> idx[i] < |rows| && KeyedRows(rows)[i] == rows[idx[i]]
  {
    FilterSelects(rows, Keyed);
  }

  /** `onNewFeatureValueChange`: writes the edited field into the row, drops
      rows whose key is empty, and appends a blank row when the last row is
      complete (or none is left). */
  method EditDraftRow(rows: seq<DraftRow>, index: nat, field: PairField, text: string) returns (r: seq<DraftRow>)
    requires index < |rows|
    ensures WellFormedRows(r)
    ensures var kept := KeyedRows(rows[index := EditedRow(rows[index], field, text)]);
      && (r == kept || r == kept + [BlankRow])
      && (r == kept + [BlankRow] <==> kept == [] || kept[|kept| - 1].value != "")
  {
    var values := rows;
    values := values[index := EditedRow(values[index], field, text)];
    values := KeyedRows(values);
    if values == [] || values[|values| - 1].value != "" {
      values := values + [BlankRow];
    }
    r := values;
  }

  /** `onNewFeatureValueRemove`, offered on every row but the last. */
  function DraftRowRemoved(rows: seq<DraftRow>, index: nat): (r: seq<DraftRow>)
    requires index < |rows| - 1
    ensures |r| == |rows| - 1
    ensures forall i :: 0 <= i < |r| ==> r[i] == if i < index then rows[i] else rows[i + 1]
    ensures WellFormedRows(rows) ==> WellFormedRows(r)
  {
    rows[..index] + rows[index + 1..]
  }

  /** JavaScript's white space and line terminators, which `trim` removes. */
  predicate IsWhiteSpace(c: char)
  {
    || c == '\t' || c == '\n' || c == '\U{000B}' || c == '\U{000C}' || c == '\r' || c == ' '
    || c == '\U{00A0}' || c == '\U{1680}' || ('\U{2000}' <= c <= '\U{200A}')
    || c == '\U{2028}' || c == '\U{2029}' || c == '\U{202F}' || c == '\U{205F}'
    || c == '\U{3000}' || c == '\U{FEFF}'
  }

  /** `s.trim().length === 0`. */
  predicate IsBlank(s: string)
  {
    forall i :: 0 <= i < |s| ==> IsWhiteSpace(s[i])
  }

  /** The new feature: ranked after every feature, its values taken from all
      rows but the last and ranked 0..n-1. `random` stands for successive
      `Math.random()` results. */
  function DraftFeature(items: seq<Feature>, draft: Draft, random: nat -> real): Feature
    requires |draft.rows| >= 1
  {
    var rows := draft.rows[..|draft.rows| - 1];
    Entry(random(0), MaxPosition(items) + 1, FeatureBody(draft.title,
      seq(|rows|, i requires 0 <= i < |rows| => Entry(random(i + 1), i, KeyValue(rows[i].key, rows[i].value)))))
  }

  /** `onNewFeatureCreate`: on success the list gains the new feature and the
      editor is reset. */
  function SubmitDraft(items: seq<Feature>, draft: Draft, random: nat -> real): (r: Result<(seq<Feature>, Draft), DraftError>)
    ensures r.Failure? <==> IsBlank(draft.title) || |draft.rows| <= 1
    ensures r.Failure? ==> r.error == if IsBlank(draft.title) then BlankTitle else NoValues
    ensures r.Success? ==> r.value.1 == EmptyDraft && |r.value.0| == |items| + 1 && r.value.0[..|items|] == items
    ensures r.Success? ==>
      var f := r.value.0[|items|];
      && f.data.title == draft.title
      && f.position == MaxPosition(items) + 1
      && f.position >= 1 && (forall e :: e in items ==> e.position < f.position)
      && |f.data.values| == |draft.rows| - 1
      && forall i :: 0 <= i < |f.data.values| ==>
           f.data.values[i].position == i && f.data.values[i].data == KeyValue(draft.rows[i].key, draft.rows[i].value)
  {
    if IsBlank(draft.title) then Failure(BlankTitle)
    else if |draft.rows| <= 1 then Failure(NoValues)
    else Success((items + [DraftFeature(items, draft, random)], EmptyDraft))
  }

  /** The editor's rows only produce values with a key, and the reset editor
      is one the editor can show. */
  lemma DraftValuesHaveKeys(items: seq<Feature>, draft: Draft, random: nat -> real)
    requires WellFormedRows(draft.rows)
    ensures WellFormedRows(EmptyDraft.rows)
    ensures var r := SubmitDraft(items, draft, random);
      r.Success? ==> forall v :: v in r.value.0[|items|].data.values ==> v.data.key != ""
  {
    var r := SubmitDraft(items, draft, random);
    if r.Success? {
      var values := r.value.0[|items|].data.values;
      forall v | v in values ensures v.data.key != "" {
        var i :| 0 <= i < |values| && values[i] == v;
        assert v.data.key == draft.rows[i].key;
      }
    }
  }
}
