/** `retryHTTPRequest` in ota-agent/main.go: call a request function up to
    `maxRetries` times, sleeping between attempts, until it answers 200. */
module Retry {
  import opened Common

  datatype Response = Response(status: int, body: string)

  /** What one call of the request function gives back: an error (with or
      without a response), or a response and no error. */
  datatype Reply = Errored(err: string) | Answered(response: Response)

  /** Why an attempt did not succeed. */
  datatype Failure = Cause(err: string) | BadStatus(status: int)

  /** "after N retries: <last failure>"; `last` is None when no attempt was made. */
  datatype RetryError = RetryError(attempts: int, last: Option<Failure>)

  predicate Succeeded(r: Reply)
  {
    r.Answered? && r.response.status == 200
  }

  function FailureOf(r: Reply): Failure
    requires !Succeeded(r)
  {
    if r.Errored? then Cause(r.err) else BadStatus(r.response.status)
  }

  /** `call(i)` is what the `i`-th call (from 0) returns. The ghost results
      count the calls made and the sleeps taken. */
  method RetryHttpRequest(maxRetries: int, call: nat -> Reply)
    returns (r: Result<Response, RetryError>, ghost calls: nat, ghost sleeps: nat)
    ensures maxRetries <= 0 ==> calls == 0
    ensures maxRetries > 0 ==> 1 <= calls <= maxRetries
    ensures sleeps == if calls == 0 then 0 else calls - 1
    ensures forall i :: 0 <= i < calls - 1 ==> !Succeeded(call(i))
    ensures r.Success? <==> exists i :: 0 <= i < maxRetries && Succeeded(call(i))
    ensures r.Success? ==> Succeeded(call(calls - 1)) && r.value == call(calls - 1).response
    ensures r.Failure? ==> calls == (if maxRetries <= 0 then 0 else maxRetries)
    ensures r.Failure? ==> r.error == RetryError(maxRetries,
      if maxRetries <= 0 then None else Some(FailureOf(call(maxRetries - 1))))
  {
    var lastErr: Option<Failure> := None;
    var i := 0;
    calls, sleeps := 0, 0;
    while i < maxRetries
      invariant 0 <= i && (i <= maxRetries || i == 0)
      invariant calls == i && sleeps == (if i == 0 then 0 else i - 1)
      invariant forall j :: 0 <= j < i ==> !Succeeded(call(j))
      invariant lastErr == if i == 0 then None else Some(FailureOf(call(i - 1)))
    {
      if i > 0 {
        sleeps := sleeps + 1;
      }
      var reply := call(i);
      calls := calls + 1;
      if Succeeded(reply) {
        r := Success(reply.response);
        return;
      }
      lastErr := Some(FailureOf(reply));
      i := i + 1;
    }
    r := Failure(RetryError(maxRetries, lastErr));
  }
}
