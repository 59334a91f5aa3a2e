/**
 What the access-token task promises, stated about its specification
 `BackgroundStep`, and about a run of several executions that share one
 persisted store.
 */
module TokenCacheProperties {
  import opened Wrappers
  import opened JavaLong
  import opened GoogleAuth
  import opened SharedPrefs
  import opened TokenListener
  import opened AccessTokenTask

  lemma ToleranceConstants()
    ensures Tolerance == 1_800_000 && FetchMargin == 60_000 && FetchMargin < Tolerance
  {
  }

  /** A present value with a positive expiry beyond the tolerance is returned as stored, with no refresh. */
  lemma ReuseWhenValid(entries: map<string, PrefValue>, now: Long, refresh: RefreshOutcome, v: string, e: Long)
    requires ValueKey in entries && entries[ValueKey] == StringPref(v)
    requires ExpiryKey in entries && entries[ExpiryKey] == LongPref(e)
    requires e > 0 && e > now + Tolerance
    ensures RecordWellTyped(entries)
    ensures var b := BackgroundStep(entries, now, refresh);
      && b.result == Some(AccessToken(v, e))
      && b.entries == entries
      && b.failures == []
      && !b.refreshed
  {
  }

  /** While the clock sum does not overflow, the task skips the refresh exactly when the reuse test passes. */
  lemma RefreshIffNotReusable(entries: map<string, PrefValue>, now: Long, refresh: RefreshOutcome)
    requires RecordWellTyped(entries)
    requires now <= MaxLong - Tolerance
    ensures !BackgroundStep(entries, now, refresh).refreshed <==>
      (&& ValueKey in entries && ExpiryKey in entries
       && entries[ExpiryKey].n > 0 && entries[ExpiryKey].n > now + Tolerance)
  {
  }

  /** The task refreshes exactly when the reuse test fails on the value and expiry read with their defaults. */
  lemma RefreshIffReuseTestFails(entries: map<string, PrefValue>, now: Long, refresh: RefreshOutcome)
    requires RecordWellTyped(entries)
    ensures !BackgroundStep(entries, now, refresh).refreshed <==>
      StillValid(StringOr(entries, ValueKey, None), LongOr(entries, ExpiryKey, -1), now)
  {
  }

  /** The test is strict: a token expiring exactly at the tolerance boundary, or earlier, is refreshed. */
  lemma BoundaryRefreshes(entries: map<string, PrefValue>, now: Long, refresh: RefreshOutcome)
    requires RecordWellTyped(entries)
    requires now <= MaxLong - Tolerance
    requires ExpiryKey in entries && entries[ExpiryKey].n <= now + Tolerance
    ensures BackgroundStep(entries, now, refresh).refreshed
  {
  }

  /** A missing value, a missing expiry (read as -1) or a non-positive one always refreshes, at any clock reading. */
  lemma MissingRecordRefreshes(entries: map<string, PrefValue>, now: Long, refresh: RefreshOutcome)
    requires RecordWellTyped(entries)
    requires ValueKey !in entries || ExpiryKey !in entries || entries[ExpiryKey].n <= 0
    ensures BackgroundStep(entries, now, refresh).refreshed
  {
  }

  /** As written, a clock reading within the tolerance of the largest long wraps the deadline negative,
      and then every present token with a positive expiry is reused. */
  lemma OverflowedDeadlineReuses(entries: map<string, PrefValue>, now: Long, refresh: RefreshOutcome, v: string, e: Long)
    requires ValueKey in entries && entries[ValueKey] == StringPref(v)
    requires ExpiryKey in entries && entries[ExpiryKey] == LongPref(e)
    requires e > 0 && now > MaxLong - Tolerance
    ensures RecordWellTyped(entries)
    ensures var b := BackgroundStep(entries, now, refresh);
      && b.result == Some(AccessToken(v, e))
      && !b.refreshed
      && b.entries == entries
      && b.failures == []
  {
  }

  /** A successful refresh overwrites both keys with the fresh token, keeps every other key, and returns that token. */
  lemma RefreshSuccessPersists(entries: map<string, PrefValue>, now: Long, t: AccessToken)
    requires RecordWellTyped(entries)
    requires BackgroundStep(entries, now, Refreshed(t)).refreshed
    ensures var b := BackgroundStep(entries, now, Refreshed(t));
      && b.result == Some(t)
      && HoldsToken(b.entries, t)
      && b.entries.Keys == entries.Keys + {ValueKey, ExpiryKey}
      && (forall k :: k in entries && k != ValueKey && k != ExpiryKey ==> b.entries[k] == entries[k])
      && b.failures == []
  {
  }

  /** A failed refresh leaves the store alone, reports the prefixed message once, and yields null. */
  lemma RefreshFailureKeepsStore(entries: map<string, PrefValue>, now: Long, message: Option<string>)
    requires RecordWellTyped(entries)
    requires BackgroundStep(entries, now, IoFailure(message)).refreshed
    ensures var b := BackgroundStep(entries, now, IoFailure(message));
      && b.entries == entries
      && b.result == None
      && b.failures == [TokenFail(FailurePrefix + (if message.Some? then message.value else "null"))]
  {
  }

  /** One execution fires `[TokenFail(m), TokenSuccess(null)]` when the refresh fails, and `[TokenSuccess(token)]` otherwise. */
  lemma ExecutionTraceShapes(entries: map<string, PrefValue>, now: Long, refresh: RefreshOutcome)
    requires RecordWellTyped(entries)
    ensures var b := BackgroundStep(entries, now, refresh);
      var trace := ExecutionTrace(entries, now, refresh);
      && (b.result.None? ==>
            b.refreshed && refresh.IoFailure? &&
            trace == [TokenFail(FailureMessage(refresh.message)), TokenSuccess(None)])
      && (b.result.Some? ==> trace == [TokenSuccess(b.result)])
  {
  }

  /** Whatever an execution returns is what the next one finds: while it stays valid, it is reused without a refresh. */
  lemma NextCallReuses(entries: map<string, PrefValue>, now: Long, refresh: RefreshOutcome, t: AccessToken,
                       later: Long, nextRefresh: RefreshOutcome)
    requires RecordWellTyped(entries)
    requires BackgroundStep(entries, now, refresh).result == Some(t)
    requires t.expirationTime > 0 && t.expirationTime > later + Tolerance
    ensures var next := BackgroundStep(BackgroundStep(entries, now, refresh).entries, later, nextRefresh);
      && !next.refreshed
      && next.result == Some(t)
      && next.entries == BackgroundStep(entries, now, refresh).entries
  {
  }

  /** One execution of a sequence that all open the same "SpeechService" store. */
  datatype Call = Call(now: Long, refresh: RefreshOutcome)

  datatype RunResult = RunResult(
    results: seq<Option<AccessToken>>,
    entries: map<string, PrefValue>,
    events: seq<Event>,
    refreshes: nat)

  /** Executes the calls in order, each one seeing the store the previous one left. */
  function Run(entries: map<string, PrefValue>, calls: seq<Call>): (o: RunResult)
    requires RecordWellTyped(entries)
    ensures RecordWellTyped(o.entries)
    ensures |o.results| == |calls|
    ensures o.refreshes <= |calls|
    ensures |calls| <= |o.events| <= 2 * |calls|
    decreases |calls|
  {
    if calls == [] then RunResult([], entries, [], 0)
    else
      var b := BackgroundStep(entries, calls[0].now, calls[0].refresh);
      var rest := Run(b.entries, calls[1..]);
      RunResult([b.result] + rest.results,
                rest.entries,
                ExecutionTrace(entries, calls[0].now, calls[0].refresh) + rest.events,
                (if b.refreshed then 1 else 0) + rest.refreshes)
  }

  /** A persisted token serves every call inside its validity window: no refresh, the same token, one success callback each. */
  lemma {:induction false} ReuseThroughoutWindow(entries: map<string, PrefValue>, calls: seq<Call>, t: AccessToken)
    requires HoldsToken(entries, t) && t.expirationTime > 0
    requires forall i :: 0 <= i < |calls| ==> t.expirationTime > calls[i].now + Tolerance
    ensures RecordWellTyped(entries)
    ensures var o := Run(entries, calls);
      && o.refreshes == 0
      && o.entries == entries
      && (forall i :: 0 <= i < |calls| ==> o.results[i] == Some(t))
      && o.events == seq(|calls|, _ => TokenSuccess(Some(t)))
    decreases |calls|
  {
    if calls != [] {
      ReuseThroughoutWindow(entries, calls[1..], t);
    }
  }

  /** When a run's last call returns a token, the store holds exactly that token afterwards. */
  lemma {:induction false} LastTokenPersisted(entries: map<string, PrefValue>, calls: seq<Call>)
    requires RecordWellTyped(entries)
    requires calls != [] && Run(entries, calls).results[|calls| - 1].Some?
    ensures HoldsToken(Run(entries, calls).entries, Run(entries, calls).results[|calls| - 1].value)
    decreases |calls|
  {
    var b := BackgroundStep(entries, calls[0].now, calls[0].refresh);
    if |calls| > 1 {
      LastTokenPersisted(b.entries, calls[1..]);
    }
  }

  /** A run in which every refresh fails never changes the store. */
  lemma {:induction false} FailingRefreshesKeepStore(entries: map<string, PrefValue>, calls: seq<Call>)
    requires RecordWellTyped(entries)
    requires forall i :: 0 <= i < |calls| ==> calls[i].refresh.IoFailure?
    ensures Run(entries, calls).entries == entries
    decreases |calls|
  {
    if calls != [] {
      FailingRefreshesKeepStore(entries, calls[1..]);
    }
  }
}
