/**
 The access-token task: reuse the token persisted in the "SpeechService"
 preferences while it stays valid for more than thirty minutes, otherwise
 refresh the service-account credential, persist the fresh token and
 return it; on an I/O failure tell the listener and return null.  After
 the background step, the success callback always receives the result.

 The credential exchange is not modelled: each call is given the outcome
 the exchange would produce, and uses it only when it refreshes.  The
 clock reading is a parameter.
 */
module AccessTokenTask {
  import opened Wrappers
  import opened JavaLong
  import opened GoogleAuth
  import opened SharedPrefs
  import opened TokenListener

  const PrefsName: string := "SpeechService"
  const ValueKey: string := "access_token_value"
  const ExpiryKey: string := "access_token_expiration_time"

  /** A cached token is reused only if it expires more than this many milliseconds from now. */
  const Tolerance: Int := 30 * 60 * 1000
  /** Declared next to the tolerance; the cache decision never reads it. */
  const FetchMargin: Int := 60 * 1000

  const FailurePrefix: string := "Failed to obtain access token. "

  /** What `refreshAccessToken()` yields: a token, or an `IOException` whose message may be null. */
  datatype RefreshOutcome = Refreshed(token: AccessToken) | IoFailure(message: Option<string>)

  /** The two keys hold values of the types the task reads them with, so neither getter throws. */
  predicate RecordWellTyped(m: map<string, PrefValue>)
  {
    && (ValueKey in m ==> m[ValueKey].StringPref?)
    && (ExpiryKey in m ==> m[ExpiryKey].LongPref?)
  }

  /** The persisted record holds exactly the token `t`. */
  predicate HoldsToken(m: map<string, PrefValue>, t: AccessToken)
  {
    && ValueKey in m && m[ValueKey] == StringPref(t.tokenValue)
    && ExpiryKey in m && m[ExpiryKey] == LongPref(t.expirationTime)
  }

  /** `System.currentTimeMillis() + ACCESS_TOKEN_EXPIRATION_TOLERANCE`, a long sum. */
  function Deadline(now: Long): (d: Long)
    ensures now <= MaxLong - Tolerance ==> d == now + Tolerance
    ensures now > MaxLong - Tolerance ==> d < 0
  {
    AddLong(now, Tolerance)
  }

  /** The reuse test on the value and expiry read from the store (null value: None; missing expiry: -1). */
  predicate StillValid(value: Option<string>, expiry: Long, now: Long): (ok: bool)
    ensures ok ==> value.Some? && expiry > 0
    ensures now <= MaxLong - Tolerance ==> (ok <==> value.Some? && expiry > 0 && expiry > now + Tolerance)
    ensures now > MaxLong - Tolerance ==> (ok <==> value.Some? && expiry > 0)
  {
    value.Some? && expiry > 0 && expiry > Deadline(now)
  }

  /** `"Failed to obtain access token. " + e.getMessage()`; Java writes a null message as "null". */
  function FailureMessage(message: Option<string>): (s: string)
    ensures |s| >= |FailurePrefix| && s[..|FailurePrefix|] == FailurePrefix
    ensures message.Some? ==> s[|FailurePrefix|..] == message.value
    ensures message.None? ==> s[|FailurePrefix|..] == "null"
  {
    match message
    case Some(m) => FailurePrefix + m
    case None => FailurePrefix + "null"
  }

  /** What the background step leaves behind: its result, the store, the failure callbacks, whether it refreshed. */
  datatype Background = Background(
    result: Option<AccessToken>,
    entries: map<string, PrefValue>,
    failures: seq<Event>,
    refreshed: bool)

  /** `doInBackground`, as a function of the store, the clock and the exchange's outcome. */
  function BackgroundStep(entries: map<string, PrefValue>, now: Long, refresh: RefreshOutcome): (b: Background)
    requires RecordWellTyped(entries)
    ensures RecordWellTyped(b.entries)
    ensures b.result.Some? ==> HoldsToken(b.entries, b.result.value)
    ensures b.result.None? <==> b.failures != []
    ensures !b.refreshed ==> b.entries == entries
  {
    var value := StringOr(entries, ValueKey, None);
    var expiry := LongOr(entries, ExpiryKey, -1);
    if StillValid(value, expiry, now) then
      Background(Some(AccessToken(value.value, expiry)), entries, [], false)
    else
      match refresh
      case Refreshed(t) =>
        Background(Some(t),
                   entries + map[ValueKey := StringPref(t.tokenValue), ExpiryKey := LongPref(t.expirationTime)],
                   [], true)
      case IoFailure(message) =>
        Background(None, entries, [TokenFail(FailureMessage(message))], true)
  }

  /** Every callback one execution fires: the background step's, then `onPostExecute`'s. */
  function ExecutionTrace(entries: map<string, PrefValue>, now: Long, refresh: RefreshOutcome): (events: seq<Event>)
    requires RecordWellTyped(entries)
    ensures 1 <= |events| <= 2 && events[|events| - 1] == TokenSuccess(BackgroundStep(entries, now, refresh).result)
  {
    var b := BackgroundStep(entries, now, refresh);
    b.failures + [TokenSuccess(b.result)]
  }

  /** Where one task is in its single run: created, its background step due, its post step due, done. */
  datatype Phase = Pending | InBackground | Posting | Finished

  class Task {
    const prefs: Preferences
    const listener: Listener
    /** How many credential refreshes this task has started: at most one. */
    ghost var refreshes: nat
    /** An `AsyncTask` runs once, background step then post step; a second `execute()` throws `IllegalStateException`. */
    ghost var phase: Phase

    /** Until its background step has run, the task has started no refresh. */
    ghost predicate Valid()
      reads this
    {
      phase.Pending? || phase.InBackground? ==> refreshes == 0
    }

    constructor (prefs: Preferences, listener: Listener)
      ensures Valid() && this.prefs == prefs && this.listener == listener && refreshes == 0 && phase == Pending
    {
      this.prefs := prefs;
      this.listener := listener;
      refreshes := 0;
      phase := Pending;
    }

    method DoInBackground(now: Long, refresh: RefreshOutcome) returns (token: Option<AccessToken>)
      requires RecordWellTyped(prefs.entries)
      requires Valid() && phase == InBackground
      modifies prefs, listener, this`refreshes, this`phase
      ensures Valid() && phase == Posting
      ensures var b := BackgroundStep(old(prefs.entries), now, refresh);
        && token == b.result
        && prefs.entries == b.entries
        && listener.events == old(listener.events) + b.failures
        && refreshes == old(refreshes) + (if b.refreshed then 1 else 0)
    {
      phase := Posting;
      var value := prefs.GetString(ValueKey, None);
      var expiry := prefs.GetLong(ExpiryKey, -1);
      if value.Some? && expiry > 0 {
        if expiry > AddLong(now, Tolerance) {
          return Some(AccessToken(value.value, expiry));
        }
      }
      refreshes := refreshes + 1;
      match refresh {
        case Refreshed(t) =>
          prefs.Apply(map[ValueKey := StringPref(t.tokenValue), ExpiryKey := LongPref(t.expirationTime)]);
          return Some(t);
        case IoFailure(message) =>
          listener.OnTokenFail(FailureMessage(message));
      }
      return None;
    }

    method OnPostExecute(token: Option<AccessToken>)
      requires phase == Posting
      modifies listener, this`phase
      ensures phase == Finished
      ensures listener.events == old(listener.events) + [TokenSuccess(token)]
    {
      phase := Finished;
      listener.OnTokenSuccess(token);
    }

    /** `execute()`: the background step, then `onPostExecute` with its result. */
    method Execute(now: Long, refresh: RefreshOutcome) returns (token: Option<AccessToken>)
      requires RecordWellTyped(prefs.entries)
      requires Valid() && phase == Pending
      modifies prefs, listener, this`refreshes, this`phase
      ensures Valid() && phase == Finished && refreshes <= 1
      ensures token == BackgroundStep(old(prefs.entries), now, refresh).result
      ensures prefs.entries == BackgroundStep(old(prefs.entries), now, refresh).entries
      ensures listener.events == old(listener.events) + ExecutionTrace(old(prefs.entries), now, refresh)
      ensures refreshes == old(refreshes) + (if BackgroundStep(old(prefs.entries), now, refresh).refreshed then 1 else 0)
      ensures RecordWellTyped(prefs.entries)
    {
      phase := InBackground;
      token := DoInBackground(now, refresh);
      OnPostExecute(token);
    }
  }
}
