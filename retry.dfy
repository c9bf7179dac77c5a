/**
 `get_chapter_content_with_retry` (scrape.py:465-497): up to `max_retries`
 fetches of a chapter page; the first body longer than ten characters once
 stripped is returned; a raised error waits `delay * (attempt + 1)` before the
 next attempt, other failures retry at once. The network is replaced by the
 sequence of what each fetch would yield, and `time.sleep` by the list of
 waits taken.
 */
module ContentRetry {
  import opened Wrappers
  import opened Text

  /** What one fetch of a chapter page yields. */
  datatype Attempt =
    | Raised              // the request, `raise_for_status` or parsing raised
    | NoElement           // the page has no `.chapter-text` element
    | Body(text: string)  // the element's text, scripts and styles removed

  /** The `max_retries` and `delay` the crawler passes (scrape.py:325, 465). */
  const MaxRetries: int := 3
  const Delay: int := 2

  /** The test `content and len(content.strip()) > 10`. */
  predicate Accepted(a: Attempt) {
    a.Body? && |Strip(a.text)| > 10
  }

  /** The body the loop returns when it reaches attempt `k`: the first
      accepted one among attempts `k .. maxRetries - 1`, so never one of ten
      characters or fewer once stripped. */
  function RetryFrom(outcomes: seq<Attempt>, k: nat, maxRetries: int): (r: Option<string>)
    ensures r.Some? ==> |Strip(r.value)| > 10
    decreases |outcomes| - k
  {
    if k >= maxRetries || k >= |outcomes| then None
    else if Accepted(outcomes[k]) then Some(outcomes[k].text)
    else RetryFrom(outcomes, k + 1, maxRetries)
  }

  /** The fetches the loop makes from attempt `k` on: it stops after the
      first accepted body. */
  function FetchesFrom(outcomes: seq<Attempt>, k: nat, maxRetries: int): (n: nat)
    ensures n > 0 ==> k + n <= |outcomes|
    decreases |outcomes| - k
  {
    if k >= maxRetries || k >= |outcomes| then 0
    else if Accepted(outcomes[k]) then 1
    else 1 + FetchesFrom(outcomes, k + 1, maxRetries)
  }

  /** The wait after the 0-based attempt `k`: only a raised error waits, and
      never after the last allowed attempt. */
  function WaitAfter(k: nat, a: Attempt, maxRetries: int, delay: int): seq<int> {
    if a.Raised? && k < maxRetries - 1 then [delay * (k + 1)] else []
  }

  /** The waits taken over the first `n` attempts, in order. */
  function Waits(outcomes: seq<Attempt>, n: nat, maxRetries: int, delay: int): seq<int>
    requires n <= |outcomes|
  {
    if n == 0 then []
    else Waits(outcomes, n - 1, maxRetries, delay) + WaitAfter(n - 1, outcomes[n - 1], maxRetries, delay)
  }

  /** `range(max_retries)` has this many values. */
  function Budget(maxRetries: int): nat {
    if maxRetries > 0 then maxRetries else 0
  }

  /** The retry loop. `outcomes[k]` is what the k-th fetch would yield; the
      loop makes `fetches` of them. */
  method GetChapterContentWithRetry(outcomes: seq<Attempt>, maxRetries: int, delay: int)
    returns (content: Option<string>, fetches: nat, waits: seq<int>)
    requires maxRetries <= |outcomes|
    ensures content == RetryFrom(outcomes, 0, maxRetries)
    ensures fetches == FetchesFrom(outcomes, 0, maxRetries) && fetches <= |outcomes|
    ensures waits == Waits(outcomes, fetches, maxRetries, delay)
  {
    content, fetches, waits := None, 0, [];
    var attempt := 0;
    while attempt < maxRetries
      invariant 0 <= attempt <= Budget(maxRetries)
      invariant fetches == attempt && content == None
      invariant RetryFrom(outcomes, 0, maxRetries) == RetryFrom(outcomes, attempt, maxRetries)
      invariant FetchesFrom(outcomes, 0, maxRetries) == attempt + FetchesFrom(outcomes, attempt, maxRetries)
      invariant waits == Waits(outcomes, attempt, maxRetries, delay)
    {
      fetches := fetches + 1;
      match outcomes[attempt] {
        case Raised =>
          if attempt < maxRetries - 1 {
            waits := waits + [delay * (attempt + 1)];
          }
        case NoElement =>
        case Body(text) =>
          if |Strip(text)| > 10 {
            content := Some(text);
            return;
          }
      }
      attempt := attempt + 1;
    }
  }

  /** From attempt `k` on, the loop never goes past `max_retries` fetches in
      all, and when it returns nothing it used its whole budget. */
  lemma {:induction false} FetchesBound(outcomes: seq<Attempt>, k: nat, maxRetries: int)
    requires maxRetries <= |outcomes| && k <= Budget(maxRetries)
    ensures k + FetchesFrom(outcomes, k, maxRetries) <= Budget(maxRetries)
    ensures RetryFrom(outcomes, k, maxRetries).None? ==>
      k + FetchesFrom(outcomes, k, maxRetries) == Budget(maxRetries)
    decreases |outcomes| - k
  {
    if k < maxRetries && !Accepted(outcomes[k]) {
      FetchesBound(outcomes, k + 1, maxRetries);
    }
  }

  /** The loop returns a body exactly when its last fetch was accepted, and
      that fetch's body. */
  lemma {:induction false} FetchesLastAccepted(outcomes: seq<Attempt>, k: nat, maxRetries: int)
    ensures RetryFrom(outcomes, k, maxRetries).Some? <==>
      FetchesFrom(outcomes, k, maxRetries) > 0
      && Accepted(outcomes[k + FetchesFrom(outcomes, k, maxRetries) - 1])
    ensures RetryFrom(outcomes, k, maxRetries).Some? ==>
      RetryFrom(outcomes, k, maxRetries).value
        == outcomes[k + FetchesFrom(outcomes, k, maxRetries) - 1].text
    decreases |outcomes| - k
  {
    if k >= maxRetries || k >= |outcomes| {
      assert RetryFrom(outcomes, k, maxRetries).None? && FetchesFrom(outcomes, k, maxRetries) == 0;
    } else if Accepted(outcomes[k]) {
      assert RetryFrom(outcomes, k, maxRetries) == Some(outcomes[k].text);
      assert FetchesFrom(outcomes, k, maxRetries) == 1;
    } else {
      FetchesLastAccepted(outcomes, k + 1, maxRetries);
      var m := FetchesFrom(outcomes, k + 1, maxRetries);
      assert FetchesFrom(outcomes, k, maxRetries) == 1 + m;
      assert RetryFrom(outcomes, k, maxRetries) == RetryFrom(outcomes, k + 1, maxRetries);
    }
  }

  /** A returned body is the first one within the budget that passes the
      length test: every earlier attempt failed. */
  lemma {:induction false} RetryFirstAccepted(outcomes: seq<Attempt>, k: nat, maxRetries: int)
    requires RetryFrom(outcomes, k, maxRetries).Some?
    ensures exists i :: (k <= i < |outcomes| && i < maxRetries && Accepted(outcomes[i])
      && RetryFrom(outcomes, k, maxRetries).value == outcomes[i].text
      && forall j :: k <= j < i ==> !Accepted(outcomes[j]))
    decreases |outcomes| - k
  {
    if !Accepted(outcomes[k]) {
      RetryFirstAccepted(outcomes, k + 1, maxRetries);
    }
  }

  /** No body is returned exactly when no attempt within the budget passes. */
  lemma {:induction false} RetryNoneIff(outcomes: seq<Attempt>, k: nat, maxRetries: int)
    ensures RetryFrom(outcomes, k, maxRetries).None? <==>
      forall i :: k <= i < |outcomes| && i < maxRetries ==> !Accepted(outcomes[i])
    decreases |outcomes| - k
  {
    if k < maxRetries && k < |outcomes| && !Accepted(outcomes[k]) {
      RetryNoneIff(outcomes, k + 1, maxRetries);
    }
  }

  /** Every wait follows a raised attempt `k` that is not the last allowed one,
      and lasts `delay * (k + 1)`; there are never more than `max_retries - 1` waits. */
  lemma {:induction false} WaitsFollowRaised(outcomes: seq<Attempt>, n: nat, maxRetries: int, delay: int)
    requires n <= |outcomes| && n <= maxRetries
    ensures |Waits(outcomes, n, maxRetries, delay)| <= n
    ensures |Waits(outcomes, n, maxRetries, delay)| <= Budget(maxRetries - 1)
    ensures forall i :: 0 <= i < |Waits(outcomes, n, maxRetries, delay)| ==>
      exists k :: 0 <= k < n && k < maxRetries - 1 && outcomes[k].Raised?
        && Waits(outcomes, n, maxRetries, delay)[i] == delay * (k + 1)
  {
    if n > 0 {
      WaitsFollowRaised(outcomes, n - 1, maxRetries, delay);
      var w := Waits(outcomes, n, maxRetries, delay);
      var w0 := Waits(outcomes, n - 1, maxRetries, delay);
      forall i | 0 <= i < |w|
        ensures exists k :: 0 <= k < n && k < maxRetries - 1 && outcomes[k].Raised? && w[i] == delay * (k + 1)
      {
        assert w == w0 + WaitAfter(n - 1, outcomes[n - 1], maxRetries, delay);
        if i < |w0| {
          assert w[i] == w0[i];
          var k :| 0 <= k < n - 1 && k < maxRetries - 1 && outcomes[k].Raised? && w0[i] == delay * (k + 1);
        } else {
          assert outcomes[n - 1].Raised?;
        }
      }
    }
  }

  /** Attempts that only miss the element or bring too short a body never wait. */
  lemma {:induction false} NoWaitWithoutRaise(outcomes: seq<Attempt>, n: nat, maxRetries: int, delay: int)
    requires n <= |outcomes|
    requires forall k :: 0 <= k < n ==> !outcomes[k].Raised?
    ensures Waits(outcomes, n, maxRetries, delay) == []
  {
    if n > 0 {
      NoWaitWithoutRaise(outcomes, n - 1, maxRetries, delay);
    }
  }

  /** When every attempt raises, the waits are `delay, 2*delay, ...`: one per
      attempt except after the last allowed one. */
  lemma {:induction false} WaitsWhenAllRaise(outcomes: seq<Attempt>, n: nat, maxRetries: int, delay: int)
    requires n <= |outcomes| && n <= maxRetries
    requires forall k :: 0 <= k < n ==> outcomes[k].Raised?
    ensures |Waits(outcomes, n, maxRetries, delay)| == if 0 < n == maxRetries then n - 1 else n
    ensures forall i :: 0 <= i < |Waits(outcomes, n, maxRetries, delay)| ==>
      Waits(outcomes, n, maxRetries, delay)[i] == delay * (i + 1)
  {
    if n > 0 {
      WaitsWhenAllRaise(outcomes, n - 1, maxRetries, delay);
    }
  }

  /** Retry exhaustion with the crawler's settings: three raised attempts give
      no content after exactly three fetches, waiting 2 and then 4 seconds. */
  method RetryExhaustionExample() returns (content: Option<string>, fetches: nat, waits: seq<int>)
    ensures content == None && fetches == 3 && waits == [2, 4]
  {
    var outcomes := [Raised, Raised, Raised];
    content, fetches, waits := GetChapterContentWithRetry(outcomes, MaxRetries, Delay);
    RetryNoneIff(outcomes, 0, MaxRetries);
    FetchesBound(outcomes, 0, MaxRetries);
    WaitsWhenAllRaise(outcomes, 3, MaxRetries, Delay);
  }
}
