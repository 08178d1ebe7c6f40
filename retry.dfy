/**
 * The bounded retry used when fetching a page: up to five GET attempts, each
 * of which either yields a body or fails (a rejected request). The loop stops
 * at the first attempt that yields a body, the empty body included.
 */
module Retry {
  import opened Wrappers

  const MaxAttempts: nat := 5

  /** The index of the first attempt that yielded a body, or |outcomes| when none did. */
  function FirstSuccess(outcomes: seq<Option<string>>): (i: nat)
    ensures i <= |outcomes|
    ensures forall j :: 0 <= j < i ==> outcomes[j].None?
    ensures i < |outcomes| ==> outcomes[i].Some?
  {
    if outcomes == [] then 0
    else if outcomes[0].Some? then 0
    else 1 + FirstSuccess(outcomes[1..])
  }

  /**
   * How many requests the loop sends, given what the five attempts would
   * yield: one more than the first success, or all five.
   */
  function AttemptCount(outcomes: seq<Option<string>>): (k: nat)
    requires |outcomes| == MaxAttempts
    ensures 1 <= k <= MaxAttempts
    ensures forall j :: 0 <= j < k - 1 ==> outcomes[j].None?
    ensures k < MaxAttempts ==> outcomes[k - 1].Some?
  {
    var i := FirstSuccess(outcomes);
    if i < MaxAttempts then i + 1 else MaxAttempts
  }

  /** The value the loop ends with: the first body, or None when every attempt failed. */
  function FetchResult(outcomes: seq<Option<string>>): (r: Option<string>)
    requires |outcomes| == MaxAttempts
    ensures r.None? <==> forall j :: 0 <= j < MaxAttempts ==> outcomes[j].None?
    ensures r.Some? ==> r == outcomes[AttemptCount(outcomes) - 1]
  {
    var i := FirstSuccess(outcomes);
    if i < MaxAttempts then outcomes[i] else None
  }

  /**
   * When attempt k is the first to yield a body, exactly k + 1 requests go
   * out and the loop ends with that body, even when it is empty.
   */
  lemma StopsAtFirstBody(outcomes: seq<Option<string>>, k: nat)
    requires |outcomes| == MaxAttempts
    requires k < MaxAttempts && outcomes[k].Some?
    requires forall j :: 0 <= j < k ==> outcomes[j].None?
    ensures AttemptCount(outcomes) == k + 1
    ensures FetchResult(outcomes) == outcomes[k]
  {
  }

  /** When every attempt fails, all five requests go out and the result is None. */
  lemma AllFailuresExhaust(outcomes: seq<Option<string>>)
    requires |outcomes| == MaxAttempts
    requires forall j :: 0 <= j < MaxAttempts ==> outcomes[j].None?
    ensures AttemptCount(outcomes) == MaxAttempts
    ensures FetchResult(outcomes).None?
  {
  }
}
