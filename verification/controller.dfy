/** `SunshineController` as a functional state machine. The controller record
    holds the stored `Authorization` value, the handle of the process `start`
    launched, and the fresh-installation flag. Every call into the outside
    world is a parameter: the pgrep output, the HTTPS server, the JSON reader,
    whether a launch succeeded, and the process group of a process. A call
    returns the new record, the effects it had on the outside world in order,
    and either its return value or a fault for an exception that escapes it. */
module Controller {
  import opened Basics
  import Utf8
  import Base64
  import BasicAuth
  import Pgrep
  import opened Http

  /** A process launched by the controller; only its identity matters here. */
  type Handle = nat

  datatype State = State(authHeader: string, shellHandle: Option<Handle>, isFreshInstallation: bool)

  /** The commands the controller runs through `subprocess.Popen`, other than pgrep. */
  datatype Command = Chown | Chmod | LaunchSunshine | CopyBwrap | InstallSunshine

  /** Something the controller did to the outside world: an HTTPS request, an
      attempted process launch, or a SIGTERM to a process group or a process. */
  datatype Effect = Send(request: Request) | Spawn(command: Command) | TermGroup(pgid: int) | Term(pid: int)

  datatype Run<+T> = Run(state: State, effects: seq<Effect>, outcome: Outcome<T>)

  // ---------------------------------------------------------------------------
  // Credentials

  /** `setAuthHeaderRaw(header)`: stores the value verbatim and returns it. */
  function SetAuthHeaderRaw(c: State, header: string): (r: (State, string))
    ensures r.0.authHeader == header && r.1 == r.0.authHeader
    ensures r.0.shellHandle == c.shellHandle && r.0.isFreshInstallation == c.isFreshInstallation
  {
    (c.(authHeader := header), header)
  }

  /** Only the last raw write survives. */
  lemma SetAuthHeaderRawLastWins(c: State, first: string, second: string)
    ensures SetAuthHeaderRaw(SetAuthHeaderRaw(c, first).0, second) == SetAuthHeaderRaw(c, second)
  {
  }

  /** `setAuthHeader(username, password)`: nothing happens when both are empty;
      otherwise the Basic credentials of the pair are stored and returned. */
  function SetAuthHeader(c: State, username: string, password: string): (r: (State, string))
    ensures username == "" && password == "" ==> r == (c, "")
    ensures username != "" || password != "" ==>
      && r.0 == c.(authHeader := r.1)
      && |r.1| > |BasicAuth.Scheme|
      && r.1[..|BasicAuth.Scheme|] == BasicAuth.Scheme
      && Base64.Decode(r.1[|BasicAuth.Scheme|..]) == Some(Utf8.Encode(username + ":" + password))
    ensures (username != "" || password != "") && ':' !in username ==>
      BasicAuth.Parse(r.1) == Some((username, password))
  {
    if |username| + |password| < 1 then (c, "")
    else
      BasicAuth.ReadsBack(username, password);
      SetAuthHeaderRaw(c, BasicAuth.Credentials(username, password))
  }

  /** A second non-empty `setAuthHeader` replaces the first; an empty one keeps it. */
  lemma SetAuthHeaderLastWins(c: State, u1: string, p1: string, u2: string, p2: string)
    ensures var r := SetAuthHeader(SetAuthHeader(c, u1, p1).0, u2, p2);
      r == if u2 == "" && p2 == "" then (SetAuthHeader(c, u1, p1).0, "") else SetAuthHeader(c, u2, p2)
  {
  }

  // ---------------------------------------------------------------------------
  // Replies of the web API

  /** `json.loads(text)["status"] == "true"`, with every exception read as no. */
  predicate StatusTrue(text: string, json: Json) {
    json(text) == WithStatus(JString("true"))
  }

  /** The server confirmed a request: a 2xx answer whose body is UTF-8 text,
      not empty, whose `status` field is the JSON string "true". */
  predicate Confirmed(e: Exchange, json: Json) {
    && Succeeded(e)
    && Utf8.Decode(e.body).Some?
    && Utf8.Decode(e.body).value != ""
    && StatusTrue(Utf8.Decode(e.body).value, json)
  }

  /** The reply text `request` hands back, read as a confirmation: empty text
      and a failed JSON read both mean no. */
  function Confirms(c: State, path: string, data: Payload, server: Server, json: Json): (ok: bool)
    ensures ok <==> Confirmed(server(CreateRequest(path, c.authHeader, Some(data))), json)
  {
    var text := Fetch(c.authHeader, path, Some(data), server);
    FetchReadsBody(c.authHeader, path, Some(data), server);
    |text| > 0 && StatusTrue(text, json)
  }

  function PinPayload(pin: string): Payload {
    [("pin", JString(pin))]
  }

  /** `sendPin(pin)`: POSTs the pin and reports whether the server confirmed it.
      The controller record is not touched. */
  function SendPin(c: State, pin: string, server: Server, json: Json): (r: Run<bool>)
    ensures var q := CreateRequest("/api/pin", c.authHeader, Some(PinPayload(pin)));
      && Method(q) == "POST"
      && q.body == Some(PinPayload(pin))
      && r == Run(c, [Send(q)], Done(Confirmed(server(q), json)))
  {
    var q := CreateRequest("/api/pin", c.authHeader, Some(PinPayload(pin)));
    Run(c, [Send(q)], Done(Confirms(c, "/api/pin", PinPayload(pin), server, json)))
  }

  // ---------------------------------------------------------------------------
  // setUser

  /** Python truthiness of an optional string argument. */
  predicate Given(x: Option<string>) {
    x.Some? && x.value != ""
  }

  function UserPayload(newUsername: string, newPassword: string, confirmNewPassword: string): Payload {
    [("newUsername", JString(newUsername)),
     ("newPassword", JString(newPassword)),
     ("confirmNewPassword", JString(confirmNewPassword))]
  }

  /** The shared tail of `setUser`: send the payload, and on a confirmation
      store the new credentials and return them; otherwise return `None`. */
  function ChangeUser(c: State, newUsername: string, newPassword: string, data: Payload,
                      server: Server, json: Json): (r: Run<Option<string>>)
    ensures var q := CreateRequest("/api/password", c.authHeader, Some(data));
      && r.effects == [Send(q)]
      && (Confirmed(server(q), json) ==>
            var (s, h) := SetAuthHeader(c, newUsername, newPassword);
            r.state == s && r.outcome == Done(Some(h)))
      && (!Confirmed(server(q), json) ==> r.state == c && r.outcome == Done(None))
  {
    var q := CreateRequest("/api/password", c.authHeader, Some(data));
    if Confirms(c, "/api/password", data, server, json) then
      var (s, h) := SetAuthHeader(c, newUsername, newPassword);
      Run(s, [Send(q)], Done(Some(h)))
    else
      Run(c, [Send(q)], Done(None))
  }

  /** `setUser(...)` as written: when a current user name or password is
      supplied, `dict += dict` raises before anything is sent. */
  function SetUser(c: State, newUsername: string, newPassword: string, confirmNewPassword: string,
                   currentUsername: Option<string>, currentPassword: Option<string>,
                   server: Server, json: Json): (r: Run<Option<string>>)
    ensures r.outcome.Fault? <==> Given(currentUsername) || Given(currentPassword)
    ensures r.outcome.Fault? ==> r.state == c && r.effects == []
    ensures r.outcome == Done(None) ==> r.state == c
    ensures r.outcome.Done? ==>
      var q := CreateRequest("/api/password", c.authHeader,
                             Some(UserPayload(newUsername, newPassword, confirmNewPassword)));
      && r.effects == [Send(q)]
      && (r.outcome.value.Some? <==> Confirmed(server(q), json))
      && (r.outcome.value.Some? ==> (r.state, r.outcome.value.value) == SetAuthHeader(c, newUsername, newPassword))
  {
    if Given(currentUsername) || Given(currentPassword) then
      Run(c, [], Fault)
    else
      ChangeUser(c, newUsername, newPassword, UserPayload(newUsername, newPassword, confirmNewPassword), server, json)
  }

  /** Changing the user of a server that is already protected crashes the call,
      whatever the server would have answered. */
  lemma SetUserWithCurrentPasswordFaults(c: State, server: Server, json: Json)
    ensures SetUser(c, "new", "secret", "secret", Some("old"), Some("hunter2"), server, json) == Run(c, [], Fault)
  {
  }

  /** JSON for an optional argument: `None` is `null`. */
  function JsonOf(x: Option<string>): JsonValue {
    match x
    case None => JNull
    case Some(s) => JString(s)
  }

  /** `setUser(...)` with the current credentials merged into the payload, as
      the dictionary update at py_modules/sunshine.py:279 evidently intends. */
  function SetUserMerged(c: State, newUsername: string, newPassword: string, confirmNewPassword: string,
                         currentUsername: Option<string>, currentPassword: Option<string>,
                         server: Server, json: Json): (r: Run<Option<string>>)
    ensures r.outcome.Done?
    ensures r.outcome == Done(None) ==> r.state == c
    ensures var base := UserPayload(newUsername, newPassword, confirmNewPassword);
      var data := if Given(currentUsername) || Given(currentPassword)
                  then base + [("currentUsername", JsonOf(currentUsername)), ("currentPassword", JsonOf(currentPassword))]
                  else base;
      var q := CreateRequest("/api/password", c.authHeader, Some(data));
      && r.effects == [Send(q)]
      && (r.outcome.value.Some? <==> Confirmed(server(q), json))
      && (r.outcome.value.Some? ==> (r.state, r.outcome.value.value) == SetAuthHeader(c, newUsername, newPassword))
  {
    var data := UserPayload(newUsername, newPassword, confirmNewPassword);
    if Given(currentUsername) || Given(currentPassword) then
      var extra := [("currentUsername", JsonOf(currentUsername)), ("currentPassword", JsonOf(currentPassword))];
      ChangeUser(c, newUsername, newPassword, data + extra, server, json)
    else
      ChangeUser(c, newUsername, newPassword, data, server, json)
  }

  /** Without current credentials the corrected call is the call as written. */
  lemma SetUserMergedAgrees(c: State, newUsername: string, newPassword: string, confirmNewPassword: string,
                            currentUsername: Option<string>, currentPassword: Option<string>,
                            server: Server, json: Json)
    requires !Given(currentUsername) && !Given(currentPassword)
    ensures SetUserMerged(c, newUsername, newPassword, confirmNewPassword, currentUsername, currentPassword, server, json)
         == SetUser(c, newUsername, newPassword, confirmNewPassword, currentUsername, currentPassword, server, json)
  {
  }

  // ---------------------------------------------------------------------------
  // Processes

  /** The launches of `start`, in order: take ownership of the sandbox helper,
      set its setuid bit, run Sunshine through flatpak. */
  const StartSteps: seq<Effect> := [Spawn(Chown), Spawn(Chmod), Spawn(LaunchSunshine)]

  /** `start()`. `pgrepOutput` is what `pgrep` printed, `None` when launching
      it raised. `chown` is the handle of the chown process or `None` when
      launching it raised; `chmodOk` and `launchOk` say whether the later
      launches did not raise. The handle kept is the chown process's. */
  function Start(c: State, pgrepOutput: Option<seq<byte>>, chown: Option<Handle>, chmodOk: bool, launchOk: bool): (r: Run<()>)
    ensures r.outcome.Fault? <==> Pgrep.IsRunning(pgrepOutput).Fault?
    ensures r.outcome.Fault? ==> r.state == c && r.effects == []
    ensures Pgrep.IsRunning(pgrepOutput) == Done(true) ==> r == Run(c, [], Done(()))
    ensures Pgrep.IsRunning(pgrepOutput) == Done(false) ==>
      && r.outcome.Done?
      && 0 < |r.effects| <= |StartSteps| && r.effects == StartSteps[..|r.effects|]
      && (|r.effects| > 1 <==> chown.Some?)
      && (|r.effects| > 2 <==> chown.Some? && chmodOk)
      && (r.state.shellHandle.Some? <==> chown.Some? && chmodOk && launchOk)
      && (r.state.shellHandle.Some? ==> r.state.shellHandle == chown)
      && r.state.authHeader == c.authHeader
      && r.state.isFreshInstallation == c.isFreshInstallation
  {
    match Pgrep.IsRunning(pgrepOutput)
    case Fault => Run(c, [], Fault)
    case Done(true) => Run(c, [], Done(()))
    case Done(false) =>
      if chown.None? then Run(c.(shellHandle := None), StartSteps[..1], Done(()))
      else if !chmodOk then Run(c.(shellHandle := None), StartSteps[..2], Done(()))
      else if !launchOk then Run(c.(shellHandle := None), StartSteps, Done(()))
      else Run(c.(shellHandle := chown), StartSteps, Done(()))
  }

  /** `killShell()`. `pgidOf` is `os.getpgid`, `None` where it raises; that
      exception is not caught, so the handle is kept. A signal that cannot be
      delivered is ignored. */
  function KillShell(c: State, pgidOf: Handle -> Option<int>): (r: Run<()>)
    ensures r.outcome.Done? ==> r.state == c.(shellHandle := None)
    ensures r.outcome.Fault? <==> c.shellHandle.Some? && pgidOf(c.shellHandle.value).None?
    ensures r.outcome.Fault? ==> r.state == c && r.effects == []
    ensures c.shellHandle.None? ==> r == Run(c, [], Done(()))
    ensures r.outcome.Done? && c.shellHandle.Some? ==> r.effects == [TermGroup(pgidOf(c.shellHandle.value).value)]
  {
    match c.shellHandle
    case None => Run(c, [], Done(()))
    case Some(h) =>
      match pgidOf(h)
      case None => Run(c, [], Fault)
      case Some(group) => Run(c.(shellHandle := None), [TermGroup(group)], Done(()))
  }

  /** `killSunshine()`: terminate the first process pgrep reports; a failed
      pgrep launch or an unreadable listing escapes as a fault. */
  function KillSunshine(c: State, pgrepOutput: Option<seq<byte>>): (r: Run<()>)
    ensures r.state == c
    ensures r.outcome.Fault? <==> Pgrep.GetPid(pgrepOutput).Fault?
    ensures r.outcome.Done? ==>
      r.effects == (match Pgrep.GetPid(pgrepOutput).value case None => [] case Some(pid) => [Term(pid)])
    ensures r.outcome.Fault? ==> r.effects == []
  {
    match Pgrep.GetPid(pgrepOutput)
    case Fault => Run(c, [], Fault)
    case Done(None) => Run(c, [], Done(()))
    case Done(Some(pid)) => Run(c, [Term(pid)], Done(()))
  }

  /** On a listing of process ids, `killSunshine()` signals the first one
      only, and nothing when the listing is empty. */
  lemma KillSunshineOfListing(c: State, pids: seq<nat>)
    requires forall i :: 0 <= i < |pids| ==> Pgrep.Convertible(pids[i])
    ensures KillSunshine(c, Some(Pgrep.Listing(pids)))
         == Run(c, if pids == [] then [] else [Term(pids[0])], Done(()))
  {
    Pgrep.GetPidOfListing(pids);
  }

  /** `stop()`: `killShell()` then `killSunshine()`; a fault in the first skips
      the second, and the first's change of state survives a fault in the second. */
  function Stop(c: State, pgidOf: Handle -> Option<int>, pgrepOutput: Option<seq<byte>>): (r: Run<()>)
    ensures r.outcome.Done? ==> r.state.shellHandle.None? && KillShell(c, pgidOf).outcome.Done?
    ensures KillShell(c, pgidOf).outcome.Fault? ==> r == Run(c, [], Fault)
    ensures KillShell(c, pgidOf).outcome.Done? ==> r.state == c.(shellHandle := None)
    ensures r.state.authHeader == c.authHeader && r.state.isFreshInstallation == c.isFreshInstallation
    ensures r.outcome.Done? <==> KillShell(c, pgidOf).outcome.Done? && Pgrep.GetPid(pgrepOutput).Done?
    ensures KillShell(c, pgidOf).outcome.Done? ==>
      r.effects == KillShell(c, pgidOf).effects + KillSunshine(KillShell(c, pgidOf).state, pgrepOutput).effects
  {
    var first := KillShell(c, pgidOf);
    if first.outcome.Fault? then first
    else
      var second := KillSunshine(first.state, pgrepOutput);
      Run(second.state, first.effects + second.effects, second.outcome)
  }

  /** A start that got its processes launched, followed by a stop whose group
      lookup succeeds, signals the chown process's group and leaves no handle. */
  lemma StartThenStop(c: State, idle: Option<seq<byte>>, h: Handle, pgidOf: Handle -> Option<int>, after: Option<seq<byte>>)
    requires Pgrep.IsRunning(idle) == Done(false)
    requires pgidOf(h).Some? && Pgrep.GetPid(after).Done?
    ensures var started := Start(c, idle, Some(h), true, true);
      var stopped := Stop(started.state, pgidOf, after);
      && started.state.shellHandle == Some(h)
      && stopped.outcome.Done?
      && stopped.state == c.(shellHandle := None)
      && stopped.effects[0] == TermGroup(pgidOf(h).value)
  {
  }

  /** `start()` on a running server changes nothing, whatever the launches
      would have done. */
  lemma StartWhileRunning(c: State, pids: seq<nat>, chown: Option<Handle>, chmodOk: bool, launchOk: bool)
    requires pids != [] && forall i :: 0 <= i < |pids| ==> Pgrep.Convertible(pids[i])
    ensures Start(c, Some(Pgrep.Listing(pids)), chown, chmodOk, launchOk) == Run(c, [], Done(()))
  {
    Pgrep.GetPidOfListing(pids);
  }
}
