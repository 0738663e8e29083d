/** The Requester: asks the endpoints in turn until one answers or the retries are used up. */
module RequesterActor {
  import opened Types
  import opened CollectorSpec
  import AskNet

  /** The answer of endpoint `url` at a given attempt, if it has one. */
  type Api = (nat, nat) -> Option<FullMessage>

  datatype Response = Response(index: nat, result: Option<FullMessage>)

  // ------------------------------------------------------------------------------------------------------------
  // Specification
  // ------------------------------------------------------------------------------------------------------------

  function Turned(urls: seq<nat>): seq<nat>
    requires urls != []
  {
    urls[1..] + [urls[0]]
  }

  /** The endpoints after `k` turns. */
  function Turn(urls: seq<nat>, k: nat): (r: seq<nat>)
    ensures multiset(r) == multiset(urls)
    decreases k
  {
    if k == 0 || urls == [] then urls
    else
      assert urls == [urls[0]] + urls[1..];
      Turn(Turned(urls), k - 1)
  }

  /** Attempt `k` asks the endpoint that is first after `k` turns. */
  function Attempt(urls: seq<nat>, api: Api, k: nat): Option<FullMessage>
    requires urls != []
  {
    if Turn(urls, k) == [] then None else api(Turn(urls, k)[0], k)
  }

  /** The attempts from `k` on, `retries` of them at most. */
  function Try(urls: seq<nat>, retries: nat, api: Api, k: nat): (seq<nat>, Option<FullMessage>)
    decreases retries
  {
    if retries == 0 || urls == [] then (urls, None)
    else if api(urls[0], k).Some? then (urls, api(urls[0], k))
    else Try(Turned(urls), retries - 1, api, k + 1)
  }

  /** The first `k` attempts failed. */
  ghost predicate FailedBefore(urls: seq<nat>, api: Api, k: nat)
    requires urls != []
  {
    forall i :: 0 <= i < k ==> Attempt(urls, api, i).None?
  }

  lemma {:induction false} TurnOnce(urls: seq<nat>, k: nat)
    requires urls != []
    ensures Turn(urls, k) != [] && Turn(urls, k + 1) == Turned(Turn(urls, k))
    decreases k
  {
    assert |multiset(Turn(urls, k))| == |multiset(urls)|;
    if k > 0 {
      TurnOnce(Turned(urls), k - 1);
    }
  }

  /** The loop after `k` failures. */
  lemma {:induction false} TryFrom(urls: seq<nat>, retries: nat, api: Api, k: nat)
    requires urls != [] && k <= retries && FailedBefore(urls, api, k)
    ensures Try(urls, retries, api, 0) == Try(Turn(urls, k), retries - k, api, k)
  {
    if k > 0 {
      TryFrom(urls, retries, api, k - 1);
      TurnOnce(urls, k - 1);
      assert Attempt(urls, api, k - 1).None?;
    }
  }

  /** Main result: the answer is that of the first attempt that succeeds, with its endpoint left in front; there is none
      exactly when all attempts fail, or there is no endpoint; and no endpoint is lost. */
  lemma {:induction false} TryIsFirstSuccess(urls: seq<nat>, retries: nat, api: Api)
    ensures var (after, result) := Try(urls, retries, api, 0);
            && multiset(after) == multiset(urls)
            && (urls == [] ==> result.None?)
            && (urls != [] ==>
                 if result.None? then FailedBefore(urls, api, retries) && after == Turn(urls, retries)
                 else exists k :: FirstSuccess(urls, retries, api, k) && result == Attempt(urls, api, k) && after == Turn(urls, k))
  {
    if urls != [] {
      var k := 0;
      while k < retries && Attempt(urls, api, k).None?
        invariant k <= retries && FailedBefore(urls, api, k)
      {
        k := k + 1;
      }
      TryFrom(urls, retries, api, k);
      TurnOnce(urls, k);
      if k < retries {
        assert FirstSuccess(urls, retries, api, k);
      }
    }
  }

  ghost predicate FirstSuccess(urls: seq<nat>, retries: nat, api: Api, k: nat)
    requires urls != []
  {
    k < retries && Attempt(urls, api, k).Some? && FailedBefore(urls, api, k)
  }

  /** What is sent for a request: a message that was asked for by id goes under that id. */
  function Respond(target: Target, index: nat, result: Option<FullMessage>): (r: Response)
    ensures r.index == index && AskNet.Fits(target, r.result) && (r.result.Some? <==> result.Some?)
    ensures r.result.Some? ==> r.result.value.(id := result.value.id) == result.value
    ensures target.TheMessage? || r.result == result
  {
    Response(index, if target.TheMessage? && result.Some? then Some(result.value.(id := target.id)) else result)
  }

  // ------------------------------------------------------------------------------------------------------------
  // The actor
  // ------------------------------------------------------------------------------------------------------------

  class Requester {
    const retries: nat
    /** Each endpoint is represented by a number. */
    var apiEndpoints: seq<nat>
    var sent: seq<Response>

    constructor (endpoints: seq<nat>, retriesPerEndpoint: nat)
      ensures apiEndpoints == endpoints && retries == |endpoints| * retriesPerEndpoint && sent == []
    {
      apiEndpoints := endpoints;
      retries := |endpoints| * retriesPerEndpoint;
      sent := [];
    }

    /** Exactly one response, whatever the endpoints answer. */
    method RequestWithRetries(target: Target, index: nat, api: Api)
      modifies this
      ensures sent == old(sent) + [Respond(target, index, Try(old(apiEndpoints), retries, api, 0).1)]
      ensures apiEndpoints == Try(old(apiEndpoints), retries, api, 0).0
      ensures multiset(apiEndpoints) == multiset(old(apiEndpoints))
    {
      TryIsFirstSuccess(apiEndpoints, retries, api);
      var left, attempt := retries, 0;
      while left > 0
        invariant Try(old(apiEndpoints), retries, api, 0) == Try(apiEndpoints, left, api, attempt)
        invariant sent == old(sent)
        decreases left
      {
        if apiEndpoints == [] {
          break;
        }
        var url := apiEndpoints[0];
        apiEndpoints := apiEndpoints[1..];
        var response := api(url, attempt);
        if response.Some? {
          RespondToCollector(target, index, response);
          apiEndpoints := [url] + apiEndpoints;
          return;
        }
        apiEndpoints := apiEndpoints + [url];
        left, attempt := left - 1, attempt + 1;
      }
      RespondToCollector(target, index, None);
    }

    method RespondToCollector(target: Target, index: nat, result: Option<FullMessage>)
      modifies this`sent
      ensures sent == old(sent) + [Respond(target, index, result)]
    {
      sent := sent + [Respond(target, index, result)];
    }

    /** Adds an endpoint that is not there yet, and shuffles; `shuffled` is the outcome of the shuffle. */
    method AddEndpoint(url: nat, shuffled: seq<nat>)
      requires multiset(shuffled) == multiset(if url in apiEndpoints then apiEndpoints else [url] + apiEndpoints)
      modifies this`apiEndpoints
      ensures multiset(apiEndpoints) == multiset(old(apiEndpoints)) + if url in old(apiEndpoints) then multiset{} else multiset{url}
    {
      if url !in apiEndpoints {
        apiEndpoints := [url] + apiEndpoints;
      }
      apiEndpoints := shuffled;
    }

    /** Removes the first occurrence of an endpoint. */
    method RemoveEndpoint(url: nat)
      modifies this`apiEndpoints
      ensures multiset(apiEndpoints) == multiset(old(apiEndpoints)) - multiset{url}
    {
      var p := 0;
      while p < |apiEndpoints| && apiEndpoints[p] != url
        invariant p <= |apiEndpoints| && url !in apiEndpoints[..p]
      {
        p := p + 1;
      }
      if p < |apiEndpoints| {
        assert apiEndpoints == apiEndpoints[..p] + [url] + apiEndpoints[p + 1..];
        apiEndpoints := apiEndpoints[..p] + apiEndpoints[p + 1..];
      } else {
        assert apiEndpoints[..p] == apiEndpoints;
      }
    }
  }
}
