/** The fetch-or-fail helpers of util/ExceptionUtils.kt over an in-memory repository. */
module ExceptionUtils {
  import opened Wrappers

  /** `fail()`: never yields a value; always an IllegalArgumentException without a message. */
  function Fail<T>(): (r: Result<T>)
    ensures r.Err? && r.error == IllegalArgument(None)
  {
    Err(IllegalArgument(None))
  }

  /** Spring Data's `findByIdOrNull` over a repository modelled as a map from id to entity. */
  function FindByIdOrNull<ID, T>(repository: map<ID, T>, id: ID): (r: Option<T>)
    ensures r.Some? <==> id in repository
    ensures r.Some? ==> r.value == repository[id]
  {
    if id in repository then Some(repository[id]) else None
  }

  /**
   * `findByIdOrThrow`: the stored entity when the id is present, otherwise
   * the failure of `fail()` instead of null.
   */
  function FindByIdOrThrow<ID, T>(repository: map<ID, T>, id: ID): (r: Result<T>)
    ensures r.Ok? <==> id in repository
    ensures r.Ok? ==> r.value == repository[id]
    ensures r.Err? ==> r.error == IllegalArgument(None)
  {
    match FindByIdOrNull(repository, id)
    case Some(entity) => Ok(entity)
    case None => Fail()
  }

  /** `findByIdOrThrow` succeeds exactly when `findByIdOrNull` is non-null, with the same entity. */
  lemma ThrowAgreesWithOrNull<ID, T>(repository: map<ID, T>, id: ID)
    ensures FindByIdOrThrow(repository, id).Ok? <==> FindByIdOrNull(repository, id).Some?
    ensures FindByIdOrThrow(repository, id).Ok? ==>
              FindByIdOrThrow(repository, id).value == FindByIdOrNull(repository, id).value
  {
  }
}
