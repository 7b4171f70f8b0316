/**
 * The credit gate of the image-generation controller: what one request does
 * to the caller's balance, and what the balance is after a run of requests.
 */
module Generation {
  import opened Common

  /** What the inference service returned: one URL, or an array of them. */
  datatype Output = Url(url: string) | Urls(urls: seq<string>)

  /** The outcome of the inference call: it threw, or it returned an output. */
  datatype Inference = InferenceFailed | Succeeded(output: Output)

  /** One generation request: whether a file was uploaded, and how inference would go. */
  datatype Request = Request(hasFile: bool, inference: Inference)

  /** `Array.isArray(output) ? output[0] : output`; an empty array yields `undefined`. */
  function ImageUrl(output: Output): (u: Option<string>)
    ensures output.Url? ==> u == Some(output.url)
    ensures output.Urls? && |output.urls| > 0 ==> u == Some(output.urls[0])
    ensures output.Urls? && |output.urls| == 0 ==> u == None
  {
    match output
    case Url(url) => Some(url)
    case Urls(urls) => if |urls| > 0 then Some(urls[0]) else None
  }

  /** Whether the request reaches the inference call: credits first, then the file. */
  predicate Invokes(credits: int, hasFile: bool)
  {
    credits > 0 && hasFile
  }

  /** The caller's balance after one request: one credit less exactly when inference ran and succeeded. */
  function Charge(credits: int, req: Request): (after: int)
    ensures after == credits - 1 || after == credits
    ensures after == credits - 1 <==> Invokes(credits, req.hasFile) && req.inference.Succeeded?
    ensures credits >= 0 ==> after >= 0
  {
    if Invokes(credits, req.hasFile) && req.inference.Succeeded? then credits - 1 else credits
  }

  /** The balance after serving `reqs` one after another from balance `credits`. */
  function BalanceAfter(credits: int, reqs: seq<Request>): int
    decreases |reqs|
  {
    if reqs == [] then credits else BalanceAfter(Charge(credits, reqs[0]), reqs[1..])
  }

  predicate AllSucceed(reqs: seq<Request>)
  {
    forall i :: 0 <= i < |reqs| ==> reqs[i].hasFile && reqs[i].inference.Succeeded?
  }

  /** N successful generations from balance C >= N leave exactly C - N. */
  lemma {:induction false} SuccessfulRuns(credits: int, reqs: seq<Request>)
    requires AllSucceed(reqs)
    requires |reqs| <= credits
    ensures BalanceAfter(credits, reqs) == credits - |reqs|
    decreases |reqs|
  {
    if reqs != [] {
      assert AllSucceed(reqs[1..]) by {
        forall i | 0 <= i < |reqs[1..]| ensures reqs[1..][i].hasFile && reqs[1..][i].inference.Succeeded? {
          assert reqs[1..][i] == reqs[i + 1];
        }
      }
      SuccessfulRuns(credits - 1, reqs[1..]);
    }
  }

  /**
   * Any run of requests costs at most one credit each, never refunds, and
   * never takes a non-negative balance below zero.
   */
  lemma {:induction false} BalanceBounds(credits: int, reqs: seq<Request>)
    ensures credits - |reqs| <= BalanceAfter(credits, reqs) <= credits
    ensures credits >= 0 ==> BalanceAfter(credits, reqs) >= 0
    decreases |reqs|
  {
    if reqs != [] {
      BalanceBounds(Charge(credits, reqs[0]), reqs[1..]);
    }
  }

  /** Once the balance is spent, every further request is refused and costs nothing. */
  lemma {:induction false} SpentStaysSpent(credits: int, reqs: seq<Request>)
    requires credits <= 0
    ensures BalanceAfter(credits, reqs) == credits
    decreases |reqs|
  {
    if reqs != [] {
      SpentStaysSpent(credits, reqs[1..]);
    }
  }
}
