/** One feature's card in the product editor: the form that adds a key/value
    pair to the feature, and dragging one value over another. */
module FeatureCard {
  import opened Wrappers
  import opened Lists
  import opened Dragging
  import opened Features

  /** The card's two inputs for a new pair. */
  datatype ValueForm = ValueForm(key: string, value: string)

  const EmptyForm := ValueForm("", "")

  datatype ValueError = EmptyKey | EmptyValue | KeyTaken

  predicate KeyUsed(values: seq<FeatureValue>, key: string)
  {
    exists i :: 0 <= i < |values| && values[i].data.key == key
  }

  ghost predicate DistinctKeys(values: seq<FeatureValue>)
  {
    forall i, j :: 0 <= i < j < |values| ==> values[i].data.key != values[j].data.key
  }

  /** `onNewFeatureValueCreate`: the pair handed to the block (or the error
      shown), and the form afterwards. */
  function SubmitValue(values: seq<FeatureValue>, form: ValueForm): (r: (Result<KeyValue, ValueError>, ValueForm))
    ensures r.0.Success? <==> form.key != "" && form.value != "" && !KeyUsed(values, form.key)
    ensures r.0.Success? ==> r.0.value == KeyValue(form.key, form.value) && r.1 == EmptyForm
    ensures r.0.Failure? ==> r.1 == form
    ensures r.0.Failure? && form.key == "" ==> r.0.error == EmptyKey
    ensures r.0.Failure? && form.key != "" && form.value == "" ==> r.0.error == EmptyValue
  {
    if form.key == "" then (Failure(EmptyKey), form)
    else if form.value == "" then (Failure(EmptyValue), form)
    else if KeyUsed(values, form.key) then (Failure(KeyTaken), form)
    else (Success(KeyValue(form.key, form.value)), EmptyForm)
  }

  /** A pair the card accepts lands exactly once in its feature, after the
      values it had, and the feature's keys stay distinct. */
  lemma AcceptedValueKeepsKeysDistinct(items: seq<Feature>, k: nat, form: ValueForm, freshId: real)
    requires k < |items| && DistinctKeys(items[k].data.values)
    requires SubmitValue(items[k].data.values, form).0.Success?
    ensures var kv := SubmitValue(items[k].data.values, form).0.value;
      var before := items[k].data.values;
      var after := FeatureValueAdded(items, items[k].id, kv, freshId)[k].data.values;
      && |after| == |before| + 1
      && after[..|before|] == before
      && after[|before|].data == kv
      && DistinctKeys(after)
  {
    var kv := SubmitValue(items[k].data.values, form).0.value;
    var before := items[k].data.values;
    var after := FeatureValueAdded(items, items[k].id, kv, freshId)[k].data.values;
    forall i, j | 0 <= i < j < |after| ensures after[i].data.key != after[j].data.key {
      if j == |before| {
        assert after[i] == before[i];
      } else {
        assert after[i] == before[i] && after[j] == before[j];
      }
    }
  }

  /** Dragging a value of `feature` over another (Feature.tsx's `onDragOver`
      handing its result to the block's `onFeatureValueReorder`). */
  function ValueDrop(items: seq<Feature>, feature: Feature, selected: Option<FeatureValue>, hovered: FeatureValue): (r: seq<Feature>)
    ensures DragOver(feature.data.values, selected, hovered).None? ==> r == items
    ensures |r| == |items| && Ids(r) == Ids(items)
    ensures forall i :: 0 <= i < |items| && items[i].id != feature.id ==> r[i] == items[i]
  {
    match DragOver(feature.data.values, selected, hovered)
    case None => items
    case Some(values) =>
      Map((c: Feature) => if c.id != feature.id then c else c.(data := c.data.(values := values)), items)
  }

  /** Dropping one value of a listed feature (as it was when the drag
      started) over another saved one leaves that
      feature with the same values renumbered 0..n-1 and everything else as it
      was. */
  lemma ValueDropPermutes(items: seq<Feature>, k: nat, dragged: FeatureValue, hovered: FeatureValue)
    requires k < |items|
    requires var values := items[k].data.values;
      && UniqueIds(values) && hovered in values
      && exists q :: 0 <= q < |values| && values[q].id == dragged.id && Unplaced(values[q]) == Unplaced(dragged)
    requires hovered.id != dragged.id && !IsNewId(hovered.id)
    ensures var r := ValueDrop(items, items[k], Some(dragged), hovered)[k];
      && r.id == items[k].id && r.position == items[k].position && r.data.title == items[k].data.title
      && |r.data.values| == |items[k].data.values|
      && (forall i :: 0 <= i < |r.data.values| ==> r.data.values[i].position == i)
      && multiset(Map(Unplaced, r.data.values)) == multiset(Map(Unplaced, items[k].data.values))
  {
    DragOverPermutes(items[k].data.values, dragged, hovered);
  }
}
