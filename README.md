# Access-token cache of GoogleSpeechTest, in Dafny

This project models the access-token task of the GoogleSpeechTest Android
app (`AccessTokenTask`). The task gives the speech client a bearer token for
the Cloud Speech API. It first reads the token persisted in the app's
"SpeechService" preferences, under the keys `access_token_value` (a string)
and `access_token_expiration_time` (epoch milliseconds). It reuses that
token when three tests pass: the value is present, the expiry is positive,
and the expiry is strictly later than now plus the thirty-minute tolerance.
Otherwise it refreshes the service-account credential. On success it
overwrites both keys with the fresh token and returns it. When the refresh
throws an `IOException`, it calls `onTokenFail("Failed to obtain access
token. " + message)` and returns null. After the background step,
`onPostExecute` always passes the result, null included, to
`onTokenSuccess`.

Files and modules:

- `JavaLong.dfy`: Java's 32-bit `int` and 64-bit `long`, with `a + b` wrapping as section
  15.18.2 of the Java Language Specification says.
- `SharedPrefs.dfy`: Android's `SharedPreferences`. It has typed getters
  with defaults, and `Preferences.Apply` commits an editor's puts at once.
- `GoogleAuth.dfy`: the `AccessToken` value, meaning a token string and its
  expiry.
- `TokenListener.dfy`: the two callbacks as an `Event` datatype, and a
  `Listener` that records them in order.
- `AccessTokenTask.dfy`: the constants, the reuse test, the specification
  function `BackgroundStep`, and the `Task` class.
  - `Task.DoInBackground` changes the store and the listener in place, and
    is proved against `BackgroundStep`.
  - `Task.OnPostExecute` appends exactly one `TokenSuccess` to the listener.
  - `Task.Execute` runs both steps, and is proved against `BackgroundStep`
    and `ExecutionTrace`.
  - A ghost counter `refreshes` counts the credential exchanges the task
    starts.
  - A ghost `phase` follows the task's single run: `Pending`, then
    `InBackground`, then `Posting`, then `Finished`. `Execute` needs
    `Pending`, `DoInBackground` needs `InBackground` and `OnPostExecute`
    needs `Posting`. Each one moves the task to the next phase.
  - So a `Task` runs one background step and one post step, and it starts
    at most one exchange, as an Android `AsyncTask` does. Later executions
    against the same store use new `Task` objects, as Android requires: an
    `AsyncTask` executes once.
- `TokenCacheProperties.dfy`: the task's promises, stated as lemmas about
  `BackgroundStep`. It also has `Run`, which performs several executions in
  order against one persisted store, with lemmas about such runs.
- `TaskScenarios.dfy`: clients of `Task`. Two start from an empty store.
  `TwoExecutions` shows that two tasks over one store do what `Run` says
  of two calls.

The clock reading (`System.currentTimeMillis()`) is a parameter `now`. The
credential exchange is not modelled. Instead, each execution is given a
`RefreshOutcome`, which is either the token the exchange would return or
the `IOException` it would throw. The execution consults that outcome only
when it refreshes.

Details of the code worth noting:

- The code reuses a token only when its value is present and its expiry is
  positive, as well as beyond the tolerance.
- On a failed refresh the code calls `onTokenFail` and then also
  `onTokenSuccess(null)`.
- The code prefixes the failure message with "Failed to obtain access
  token. ". A null exception message becomes "null".
- The expiry test is done on Java longs. As written, a clock reading within
  thirty minutes of the largest long makes the sum wrap to a negative
  number. Every present token with a positive expiry is then reused. This
  is `OverflowedDeadlineReuses`. No real clock reaches that value, so the
  model keeps the code's behaviour.

## Model

| member | source | states |
|---|---|---|
| JavaLong.AddLong | app/src/main/java/com/ay3524/googlespeechtest/speech/AccessTokenTask.java:54-55 | the long sum is congruent to the true sum modulo 2^64; it equals the sum when the sum fits; on overflow it has the opposite sign |
| SharedPrefs.StringOr | app/src/main/java/com/ay3524/googlespeechtest/speech/AccessTokenTask.java:49 | `getString(key, null)` on a map: the stored string when the key is present, the default otherwise |
| SharedPrefs.LongOr | app/src/main/java/com/ay3524/googlespeechtest/speech/AccessTokenTask.java:50 | `getLong(key, -1)` on a map: the stored long when the key is present, the default otherwise |
| SharedPrefs.Preferences.GetString | app/src/main/java/com/ay3524/googlespeechtest/speech/AccessTokenTask.java:49 | the store's `getString`: the string stored under the key when it is present, the default otherwise |
| SharedPrefs.Preferences.GetLong | app/src/main/java/com/ay3524/googlespeechtest/speech/AccessTokenTask.java:50 | the store's `getLong`: the long stored under the key when it is present, the default otherwise |
| AccessTokenTask.StillValid | app/src/main/java/com/ay3524/googlespeechtest/speech/AccessTokenTask.java:53-55 | passing the reuse test needs a present value and a positive expiry; while the clock sum fits, it holds exactly when the expiry is also strictly later than now + TOLERANCE; once the sum overflows, it holds exactly when the value is present and the expiry positive |
| AccessTokenTask.Deadline | app/src/main/java/com/ay3524/googlespeechtest/speech/AccessTokenTask.java:54-55 | `now + TOLERANCE`, with the int tolerance widened to long, is exactly now plus 1,800,000 while that fits in a long, and negative once it overflows |
| AccessTokenTask.FailureMessage | app/src/main/java/com/ay3524/googlespeechtest/speech/AccessTokenTask.java:76-77 | the failure message starts with "Failed to obtain access token. " and continues with the exception's message, or "null" when there is none |
| AccessTokenTask.BackgroundStep | app/src/main/java/com/ay3524/googlespeechtest/speech/AccessTokenTask.java:46-80 | keeps the record well-typed; a returned token is exactly what the store holds afterwards; the result is null exactly when a failure callback fires; without a refresh the store is unchanged |
| AccessTokenTask.ExecutionTrace | app/src/main/java/com/ay3524/googlespeechtest/speech/AccessTokenTask.java:77-85 | one execution fires one or two callbacks, and the last one is always `onTokenSuccess` with the background result |
| AccessTokenTask.Task.constructor | app/src/main/java/com/ay3524/googlespeechtest/speech/AccessTokenTask.java:40-43 | the task keeps the given store and listener, is in phase `Pending`, and has started no refresh |
| AccessTokenTask.Task.DoInBackground | app/src/main/java/com/ay3524/googlespeechtest/speech/AccessTokenTask.java:46-80 | runs once, in phase `InBackground`, and leaves phase `Posting`; the returned token, the new store, the failure callbacks and the refresh count are those of `BackgroundStep` on the old store |
| AccessTokenTask.Task.OnPostExecute | app/src/main/java/com/ay3524/googlespeechtest/speech/AccessTokenTask.java:82-85 | runs once, in phase `Posting`, and finishes the task; it appends exactly one `onTokenSuccess` carrying the given result, null included |
| AccessTokenTask.Task.Execute | app/src/main/java/com/ay3524/googlespeechtest/speech/AccessTokenTask.java:45-85 | runs only on a task in phase `Pending` and leaves it `Finished`; it runs the background step and the post step: the listener receives `ExecutionTrace`, the store becomes `BackgroundStep`'s, the record stays well-typed, and the task has started at most one refresh |
| SharedPrefs.Preferences.Apply | app/src/main/java/com/ay3524/googlespeechtest/speech/AccessTokenTask.java:70-74 | the editor's puts replace their keys and every other key keeps its value |
| TokenListener.Listener.OnTokenSuccess | app/src/main/java/com/ay3524/googlespeechtest/speech/TokenListener.java:6 | the success callback is recorded once, after all earlier callbacks |
| TokenListener.Listener.OnTokenFail | app/src/main/java/com/ay3524/googlespeechtest/speech/TokenListener.java:7 | the failure callback is recorded once, after all earlier callbacks |
| TokenCacheProperties.ToleranceConstants | app/src/main/java/com/ay3524/googlespeechtest/speech/AccessTokenTask.java:26-30 | TOLERANCE is 30·60·1000 = 1,800,000 ms and FETCH_MARGIN is 60·1000 = 60,000 ms, which is shorter |
| TokenCacheProperties.ReuseWhenValid | app/src/main/java/com/ay3524/googlespeechtest/speech/AccessTokenTask.java:49-57 | a present value with a positive expiry later than now + TOLERANCE is returned with exactly that value and expiry: no refresh, no callback, store unchanged |
| TokenCacheProperties.RefreshIffReuseTestFails | app/src/main/java/com/ay3524/googlespeechtest/speech/AccessTokenTask.java:49-58 | the background step skips the refresh if and only if `StillValid` holds of the value and expiry read with their defaults null and -1 |
| TokenCacheProperties.RefreshIffNotReusable | app/src/main/java/com/ay3524/googlespeechtest/speech/AccessTokenTask.java:49-58 | when the clock sum fits, the task skips the refresh if and only if both keys are present and the expiry is positive and strictly later than now + TOLERANCE |
| TokenCacheProperties.BoundaryRefreshes | app/src/main/java/com/ay3524/googlespeechtest/speech/AccessTokenTask.java:54-55 | the test is strict: an expiry equal to now + TOLERANCE, or earlier, leads to a refresh |
| TokenCacheProperties.MissingRecordRefreshes | app/src/main/java/com/ay3524/googlespeechtest/speech/AccessTokenTask.java:49-53 | a missing value (default null), a missing expiry (default -1) or a non-positive expiry always leads to a refresh, whatever the clock says |
| TokenCacheProperties.OverflowedDeadlineReuses | app/src/main/java/com/ay3524/googlespeechtest/speech/AccessTokenTask.java:53-56 | when now + TOLERANCE overflows, any present token with a positive expiry is reused: it is returned as stored, with no refresh, no failure callback and an unchanged store |
| TokenCacheProperties.RefreshSuccessPersists | app/src/main/java/com/ay3524/googlespeechtest/speech/AccessTokenTask.java:69-75 | a successful refresh returns the fetched token, writes its value and expiry to the two keys, adds no other key and leaves every other key unchanged |
| TokenCacheProperties.RefreshFailureKeepsStore | app/src/main/java/com/ay3524/googlespeechtest/speech/AccessTokenTask.java:76-79 | a failed refresh leaves the store unchanged, fires `onTokenFail` once with the prefixed message, and yields null |
| TokenCacheProperties.ExecutionTraceShapes | app/src/main/java/com/ay3524/googlespeechtest/speech/AccessTokenTask.java:77-85 | a null result comes only from a failed refresh and gives `[TokenFail(message), TokenSuccess(null)]`; any token result gives exactly `[TokenSuccess(token)]` |
| TokenCacheProperties.NextCallReuses | app/src/main/java/com/ay3524/googlespeechtest/speech/AccessTokenTask.java:53-74 | the token an execution returns, whether cached or fetched, is reused by a later execution while its expiry is positive and beyond that call's now + TOLERANCE; the store stays unchanged |
| TokenCacheProperties.Run | app/src/main/java/com/ay3524/googlespeechtest/speech/AccessTokenTask.java:47-74 | over n executions sharing one store, the record stays well-typed; there are n results and at most n refreshes; between n and 2n callbacks fire |
| TokenCacheProperties.ReuseThroughoutWindow | app/src/main/java/com/ay3524/googlespeechtest/speech/AccessTokenTask.java:53-57 | a persisted token serves every call in its validity window: no refresh, store unchanged, every result is that token, and each call fires one `onTokenSuccess` with it |
| TokenCacheProperties.LastTokenPersisted | app/src/main/java/com/ay3524/googlespeechtest/speech/AccessTokenTask.java:56-75 | when the last execution of a run returns a token, the store then holds exactly that token |
| TokenCacheProperties.FailingRefreshesKeepStore | app/src/main/java/com/ay3524/googlespeechtest/speech/AccessTokenTask.java:76-79 | a run in which every refresh fails never changes the store |
| TaskScenarios.RefreshThenReuse | app/src/main/java/com/ay3524/googlespeechtest/speech/AccessTokenTask.java:49-85 | from an empty store: a first task refreshes once and returns the token; a second task over the same store and listener, inside the window, returns the same token with no refresh; the listener hears two successes |
| TaskScenarios.FailedRefresh | app/src/main/java/com/ay3524/googlespeechtest/speech/AccessTokenTask.java:49-85 | from an empty store with a failing exchange: the result is null, the listener hears the failure and then a null success, and nothing is stored |
| TaskScenarios.TwoExecutions | app/src/main/java/com/ay3524/googlespeechtest/speech/AccessTokenTask.java:45-85 | two executions by new tasks over one store and listener return `Run`'s results for those two calls, leave `Run`'s store, and add `Run`'s callbacks to the listener |

## Left out

- The credential exchange is not modelled. This covers opening the raw
  `credential` resource, `GoogleCredentials.fromStream`,
  `createScoped(SCOPE)` and `refreshAccessToken()`. They are I/O and calls
  into a foreign library, so each execution takes their outcome as an
  input.
- Run-time exceptions other than `IOException` are not modelled: a missing
  resource, or a fetched token without an expiration date. In Java they
  escape `doInBackground`. The model assumes the exchange either returns a
  token with an expiry or throws `IOException`.
- AccessTokenTask.Task.DoInBackground: requires that the two keys hold a
  string and a long. If a key held another type, Android's getters would
  throw `ClassCastException`, and the model has no crash path. The task
  itself only ever writes these types (`BackgroundStep` keeps
  `RecordWellTyped`).
- AccessTokenTask.Task.Execute: requires a task in phase `Pending`.
  Android throws `IllegalStateException` on a second `execute()` of one
  `AsyncTask`, and the model has no path for that exception.
  `DoInBackground` and `OnPostExecute` require the phase that `Execute`
  and `DoInBackground` leave behind. So the direct calls that Java's
  `protected` access would allow from the same package are excluded.
- The `AsyncTask` thread hand-off is not modelled, and neither is the
  asynchronous disk write of `apply()`. The background step and the post
  step run one after the other, and the store update is atomic.
- `PREFS` appears only as the constant `PrefsName`. A `Preferences` object
  stands for that one named file.
- `SCOPE`, `HOSTNAME` and `PORT` are left out. Only the network client
  uses them.
- `ACCESS_TOKEN_FETCH_MARGIN` is declared (`FetchMargin`). The cache
  decision never reads it, and `BackgroundStep` does not mention it.
- Floating-point preference values are not modelled.
- `MainActivity.java` is not part of this model. The same goes for the
  speech session, the voice recorder and the listener fan-out. They are UI
  glue, or they live in files that are not part of this model.
