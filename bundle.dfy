/**
 * What joblib stores in model_rf.pkl: either a bare estimator or a dict
 * whose "model" entry is the estimator.
 */
module Bundle {
  import opened Common

  datatype Saved<M> = Dict(entries: map<string, M>) | Bare(model: M)

  /** The estimator of a loaded bundle: saved["model"] for a dict (KeyError
      when the key is absent), the object itself otherwise. */
  function LoadModel<M>(saved: Saved<M>): (r: Result<M, Error>)
    ensures r.Err? <==> saved.Dict? && "model" !in saved.entries
    ensures r.Err? ==> r.error == MissingKey("model")
    ensures r.Ok? && saved.Dict? ==> r.value == saved.entries["model"]
    ensures r.Ok? && saved.Bare? ==> r.value == saved.model
  {
    match saved
    case Dict(entries) => if "model" in entries then Ok(entries["model"]) else Err(MissingKey("model"))
    case Bare(m) => Ok(m)
  }
}
