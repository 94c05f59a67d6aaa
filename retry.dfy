/**
 * The status check behind each recorded page: up to three plain requests
 * for the URL, an exponential back-off after each connection error or
 * timeout, an immediate stop on any other error, and missing status and
 * size when no request succeeded.
 */
module Retry {
  import opened Wrappers

  /** How one request for the page ends. */
  datatype Reply =
    | Response(status: int, sizeBytes: nat)  // a response arrived, whatever its status code
    | Transient                               // a connection error or a timeout
    | Unexpected                              // any other exception

  /** The number of requests the loop may make. */
  const Retries: nat := 3

  /** The replies the first, second and third request would get, if made. */
  type ReplyScript = s: seq<Reply> | |s| == Retries witness [Transient, Transient, Transient]

  /** What the loop hands back: status and size (absent when no request succeeded), how many requests it made, and the sleeps it asked for. */
  datatype Verification = Verification(status: Option<int>, sizeBytes: Option<nat>, requests: nat, sleeps: seq<nat>)

  function Pow2(k: nat): (r: nat)
    ensures r >= 1
  {
    if k == 0 then 1 else 2 * Pow2(k - 1)
  }

  /**
   * The retry policy: requests are repeated only after transient failures,
   * at most `Retries` of them; the last request decides status and size;
   * the k-th transient failure (counting from 0) is followed by a sleep of
   * 2^k, including after the last request.
   */
  ghost predicate RetriedAsSpecified(replies: ReplyScript, v: Verification) {
    && 1 <= v.requests <= Retries
    && (forall k :: 0 <= k < v.requests - 1 ==> replies[k] == Transient)
    && (v.requests < Retries ==> replies[v.requests - 1] != Transient)
    && (match replies[v.requests - 1]
        case Response(status, size) => v.status == Some(status) && v.sizeBytes == Some(size)
        case _ => v.status == None && v.sizeBytes == None)
    && |v.sleeps| == (if replies[v.requests - 1] == Transient then v.requests else v.requests - 1)
    && forall k :: 0 <= k < |v.sleeps| ==> v.sleeps[k] == Pow2(k)
  }

  /** Requests the page until a response arrives, a non-transient error occurs or three attempts are used up. */
  method VerifyWithRetry(replies: ReplyScript) returns (v: Verification)
    ensures RetriedAsSpecified(replies, v)
  {
    var sleeps: seq<nat> := [];
    var requests := 0;
    for attempt := 0 to Retries
      invariant requests == attempt
      invariant forall k :: 0 <= k < attempt ==> replies[k] == Transient
      invariant |sleeps| == attempt
      invariant forall k :: 0 <= k < attempt ==> sleeps[k] == Pow2(k)
    {
      requests := requests + 1;
      match replies[attempt]
      case Response(status, size) =>
        return Verification(Some(status), Some(size), requests, sleeps);
      case Transient =>
        sleeps := sleeps + [Pow2(attempt)];
      case Unexpected =>
        break;
    }
    v := Verification(None, None, requests, sleeps);
  }

  /** The policy leaves no freedom: two outcomes that both follow it are the same. */
  lemma RetryDeterministic(replies: ReplyScript, v: Verification, w: Verification)
    requires RetriedAsSpecified(replies, v) && RetriedAsSpecified(replies, w)
    ensures v == w
  {
    assert v.requests == w.requests;
    assert v.sleeps == w.sleeps;
  }

  /** Three transient failures in a row: no status, no size, three requests and sleeps of 1, 2 and 4. */
  lemma ExhaustionDegrades(replies: ReplyScript, v: Verification)
    requires replies == [Transient, Transient, Transient]
    requires RetriedAsSpecified(replies, v)
    ensures v == Verification(None, None, 3, [1, 2, 4])
  {
    assert v.requests == 3;
    assert |v.sleeps| == 3;
    assert v.sleeps[0] == Pow2(0) && v.sleeps[1] == Pow2(1) && v.sleeps[2] == Pow2(2);
  }

  /** A non-transient error ends the loop at once, without a sleep. */
  lemma UnexpectedStopsAtOnce(replies: ReplyScript, v: Verification, k: nat)
    requires k < Retries && replies[k] == Unexpected
    requires forall i :: 0 <= i < k ==> replies[i] == Transient
    requires RetriedAsSpecified(replies, v)
    ensures v.requests == k + 1 && v.status == None && v.sizeBytes == None && |v.sleeps| == k
  {
  }
}
