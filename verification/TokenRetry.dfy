// An operation with its one retry (draft_operation_with_refresh in src/broker/handlers/tokens.rs), as the sequence of
// its attempts' results.
module TokenRetry {
  import opened Wrappers
  import opened ProviderCalls

  // Whether a token could be had at first, and another one after a rejection.
  datatype Tokens = Tokens(cached: bool, refreshed: bool)

  datatype Failure = Credential | Gmail(error: Error)

  predicate Rejected<R>(r: Result<R, Error>) {
    r.Err? && IsUnauthorized(r.error)
  }

  // No attempt without a token; one attempt; a second one, with another token, after a 401.
  predicate AttemptsMade<R>(tokens: Tokens, results: seq<Result<R, Error>>) {
    if !tokens.cached then results == []
    else results != [] && |results| == if Rejected(results[0]) && tokens.refreshed then 2 else 1
  }

  // What becomes of the operation: the last attempt's own result, a second 401 included, unless a token was missing.
  function Final<R>(tokens: Tokens, results: seq<Result<R, Error>>): Result<R, Failure>
    requires AttemptsMade(tokens, results)
  {
    if !tokens.cached || (Rejected(results[0]) && !tokens.refreshed) then Err(Credential)
    else
      var last := results[|results| - 1];
      if last.Ok? then Ok(last.value) else Err(Gmail(last.error))
  }

  // A success is the last attempt's, and an attempt before it was rejected.
  lemma LastSucceeds<R>(tokens: Tokens, results: seq<Result<R, Error>>)
    requires AttemptsMade(tokens, results) && Final(tokens, results).Ok?
    ensures 1 <= |results| <= 2 && results[|results| - 1] == Ok(Final(tokens, results).value)
    ensures |results| == 2 ==> results[0].Err?
  {
  }
}
