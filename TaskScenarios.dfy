/**
 Clients of the `Task` class, proved from the class's contracts alone:
 executions against a fresh, empty "SpeechService" store, and two
 executions over one store checked against `Run`.
 */
module TaskScenarios {
  import opened Wrappers
  import opened JavaLong
  import opened GoogleAuth
  import opened SharedPrefs
  import opened TokenListener
  import opened AccessTokenTask
  import opened TokenCacheProperties

  /** With nothing cached, a first task refreshes and persists; a second task over the same store,
      inside the window, reuses the token. */
  method RefreshThenReuse(now: Long, later: Long, t: AccessToken, secondRefresh: RefreshOutcome)
    returns (first: Option<AccessToken>, second: Option<AccessToken>, events: seq<Event>,
             ghost firstRefreshes: nat, ghost secondRefreshes: nat)
    requires t.expirationTime > 0 && t.expirationTime > later + Tolerance
    ensures first == Some(t) && second == Some(t)
    ensures events == [TokenSuccess(Some(t)), TokenSuccess(Some(t))]
    ensures firstRefreshes == 1 && secondRefreshes == 0
  {
    var prefs := new Preferences(map[]);
    var listener := new Listener();
    var task1 := new Task(prefs, listener);
    first := task1.Execute(now, Refreshed(t));
    var task2 := new Task(prefs, listener);
    second := task2.Execute(later, secondRefresh);
    events := listener.events;
    firstRefreshes, secondRefreshes := task1.refreshes, task2.refreshes;
  }

  /** With nothing cached and a failing exchange, the listener hears the failure and then a null success; nothing is stored. */
  method FailedRefresh(now: Long, message: string)
    returns (token: Option<AccessToken>, events: seq<Event>, stored: map<string, PrefValue>)
    ensures token == None
    ensures events == [TokenFail(FailurePrefix + message), TokenSuccess(None)]
    ensures stored == map[]
  {
    var prefs := new Preferences(map[]);
    var listener := new Listener();
    var task := new Task(prefs, listener);
    token := task.Execute(now, IoFailure(Some(message)));
    events := listener.events;
    stored := prefs.entries;
  }

  /** Two executions, each by a new task over the same store and listener, do what `Run` says of those two calls. */
  method TwoExecutions(prefs: Preferences, listener: Listener, first: Call, second: Call)
    returns (firstToken: Option<AccessToken>, secondToken: Option<AccessToken>)
    requires RecordWellTyped(prefs.entries)
    modifies prefs, listener
    ensures var o := Run(old(prefs.entries), [first, second]);
      && [firstToken, secondToken] == o.results
      && prefs.entries == o.entries
      && listener.events == old(listener.events) + o.events
  {
    ghost var start := prefs.entries;
    var task1 := new Task(prefs, listener);
    firstToken := task1.Execute(first.now, first.refresh);
    ghost var middle := prefs.entries;
    var task2 := new Task(prefs, listener);
    secondToken := task2.Execute(second.now, second.refresh);
    assert [first, second][1..] == [second];
    assert [second][1..] == [];
    assert Run(middle, [second]).results == [secondToken];
  }
}
