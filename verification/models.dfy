/** Choosing the selected model when the model list loads: the remembered
    choice if it is still offered, else the first model marked as default,
    else the first model, and nothing when no model is offered. */
module Models {
  import opened Common

  datatype ModelInfo = ModelInfo(provider: string, modelId: string, displayName: string, isDefault: Option<bool>)

  /** `${provider}:${modelId}` */
  function Key(m: ModelInfo): string {
    m.provider + ":" + m.modelId
  }

  /** `models.some(m => key(m) === k)` */
  predicate Offers(models: seq<ModelInfo>, k: string) {
    exists i :: 0 <= i < |models| && Key(models[i]) == k
  }

  /** `models.find(m => m.isDefault === true)`, as an index. */
  function FirstDefault(models: seq<ModelInfo>): (i: int)
    ensures -1 <= i < |models|
    ensures i >= 0 ==> models[i].isDefault == Some(true)
    ensures forall j :: 0 <= j < |models| && (i < 0 || j < i) ==> models[j].isDefault != Some(true)
  {
    if models == [] then -1
    else if models[0].isDefault == Some(true) then 0
    else
      var k := FirstDefault(models[1..]);
      if k < 0 then -1 else k + 1
  }

  /** The model chosen when the remembered key is not offered. */
  function Fallback(models: seq<ModelInfo>): ModelInfo
    requires models != []
  {
    var d := FirstDefault(models);
    if d >= 0 then models[d] else models[0]
  }

  /** What loading the list settles on: the models shown, the selected key,
      and the key written back to storage (if any). */
  datatype Selection = Selection(models: seq<ModelInfo>, selected: string, written: Option<string>)

  /** `loadModels`, given the backend's answer and the remembered key. */
  function LoadModels(response: Result<seq<ModelInfo>, string>, saved: Option<string>): (r: Selection)
    ensures response.Failure? ==> r == Selection([], "", None)
    ensures response.Success? ==> r.models == response.value
    ensures r.selected == "" <==> r.models == []
    ensures r.models != [] ==> Offers(r.models, r.selected)
    ensures r.written.Some? ==> r.written.value == r.selected
  {
    match response
    case Failure(_) => Selection([], "", None)
    case Success(models) =>
      if models == [] then Selection(models, "", None)
      else if Truthy(saved) && Offers(models, saved.value) then Selection(models, saved.value, None)
      else
        var k := Key(Fallback(models));
        assert Key(Fallback(models))[|Fallback(models).provider|] == ':';
        var d := FirstDefault(models);
        assert Offers(models, k) by {
          if d >= 0 {
            assert Key(models[d]) == k;
          } else {
            assert Key(models[0]) == k;
          }
        }
        Selection(models, k, Some(k))
  }

  /** The remembered key is selected exactly when it is still offered;
      otherwise the first default model, or failing that the first model, is
      selected and remembered. */
  lemma SavedWinsIffOffered(models: seq<ModelInfo>, saved: string)
    requires models != [] && saved != ""
    ensures LoadModels(Success(models), Some(saved)).selected == saved <==> Offers(models, saved)
    ensures !Offers(models, saved) ==>
      LoadModels(Success(models), Some(saved)).selected == Key(Fallback(models)) &&
      LoadModels(Success(models), Some(saved)).written == Some(Key(Fallback(models)))
  {
  }

  /** The choice is stable: reloading the same list with the key just
      selected selects it again and writes nothing. */
  lemma SelectionStable(models: seq<ModelInfo>, saved: Option<string>)
    requires models != []
    ensures var k := LoadModels(Success(models), saved).selected;
      LoadModels(Success(models), Some(k)) == Selection(models, k, None)
  {
    var k := LoadModels(Success(models), saved).selected;
    assert Offers(models, k);
    var i :| 0 <= i < |models| && Key(models[i]) == k;
    assert k[|models[i].provider|] == ':';
  }
}
