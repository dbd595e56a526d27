/** The control side of the dock: the per-connection command dispatch, the
    accept loop that polls the stop flag, the single-instance probe and the
    `call` / `launch` decisions built on it, and application start-up. */
module Driver {
  import opened Wrappers
  import opened Text
  import opened Paths
  import opened Entries
  import opened AppScan
  import opened Discovery
  import opened Ui

  /** The fixed loopback control port. */
  const Port: nat := 44947

  // ---------------------------------------------------------------------
  // handle_client

  /** One `client_socket.recv(1024).decode()`: the text received, or bytes
      that are not UTF-8, whose decoding raises and ends the handler. */
  datatype Chunk = Received(text: string) | Undecodable

  /** What the commands act on: the dock's visibility, the process-wide
      stop flag, and whether the application was asked to quit. */
  datatype ControlState = ControlState(visible: bool, stopFlag: bool, quitRequested: bool)

  /** A chunk after which the handler reads no more. */
  predicate Ends(c: Chunk) {
    c.Undecodable? || c.text == "" || c.text == "stop"
  }

  /** The position of the first chunk that ends reading, or `|chunks|`. */
  function Terminator(chunks: seq<Chunk>): (r: nat)
    ensures r <= |chunks|
    ensures forall k :: 0 <= k < r ==> !Ends(chunks[k])
    ensures r < |chunks| ==> Ends(chunks[r])
  {
    if chunks == [] || Ends(chunks[0]) then 0 else 1 + Terminator(chunks[1..])
  }

  /** The number of chunks exactly equal to `"toggle"`. */
  function CountToggles(chunks: seq<Chunk>): nat {
    if chunks == [] then 0
    else (if chunks[0] == Received("toggle") then 1 else 0) + CountToggles(chunks[1..])
  }

  /** `b` flipped `n` times. */
  function Flip(b: bool, n: nat): bool {
    if n % 2 == 0 then b else !b
  }

  /** The effect of `handle_client` on a connection delivering `chunks`. */
  function Dispatch(chunks: seq<Chunk>, s: ControlState): (r: ControlState)
    ensures s.stopFlag ==> r.stopFlag
    ensures s.quitRequested ==> r.quitRequested
    ensures r.stopFlag && !s.stopFlag ==> r.quitRequested
  {
    if chunks == [] then s
    else match chunks[0]
      case Undecodable => s
      case Received(m) =>
        if m == "" then s
        else if m == "toggle" then Dispatch(chunks[1..], s.(visible := !s.visible))
        else if m == "stop" then s.(stopFlag := true, quitRequested := true)
        else Dispatch(chunks[1..], s)
  }

  /** What a connection does, in closed form: visibility flips once per
      `"toggle"` before the first terminating chunk, and the stop flag and
      the quit request are set exactly when that chunk is `"stop"`. */
  function Effect(chunks: seq<Chunk>, s: ControlState): ControlState {
    var t := Terminator(chunks);
    var stopped := t < |chunks| && chunks[t] == Received("stop");
    ControlState(Flip(s.visible, CountToggles(chunks[..t])), s.stopFlag || stopped, s.quitRequested || stopped)
  }

  /** The handler's chunk-by-chunk effect is the closed form. */
  lemma {:induction false} DispatchEffect(chunks: seq<Chunk>, s: ControlState)
    ensures Dispatch(chunks, s) == Effect(chunks, s)
  {
    if chunks != [] && !Ends(chunks[0]) {
      var s1 := if chunks[0] == Received("toggle") then s.(visible := !s.visible) else s;
      DispatchEffect(chunks[1..], s1);
      EffectStep(chunks, s);
    }
  }

  /** Handling one chunk that does not end reading, then the rest, has the
      closed-form effect of the whole. */
  lemma EffectStep(chunks: seq<Chunk>, s: ControlState)
    requires chunks != [] && !Ends(chunks[0])
    ensures var s1 := if chunks[0] == Received("toggle") then s.(visible := !s.visible) else s;
            Effect(chunks, s) == Effect(chunks[1..], s1)
  {
    var t := Terminator(chunks);
    var rest := chunks[1..];
    assert Terminator(rest) == t - 1;
    assert chunks[..t][1..] == rest[..t - 1];
    assert chunks[..t][0] == chunks[0];
    assert t - 1 < |rest| ==> rest[t - 1] == chunks[t];
    FlipStep(s.visible, CountToggles(rest[..t - 1]));
  }

  lemma FlipStep(b: bool, n: nat)
    ensures Flip(!b, n) == Flip(b, n + 1)
  {
  }

  /** Chunks that end nothing can be handled first and the rest after. */
  lemma {:induction false} DispatchAppend(a: seq<Chunk>, b: seq<Chunk>, s: ControlState)
    requires Terminator(a) == |a|
    ensures Dispatch(a + b, s) == Dispatch(b, Dispatch(a, s))
  {
    if a != [] {
      assert (a + b)[0] == a[0];
      assert (a + b)[1..] == a[1..] + b;
      var s1 := if a[0] == Received("toggle") then s.(visible := !s.visible) else s;
      DispatchAppend(a[1..], b, s1);
    } else {
      assert a + b == b;
    }
  }

  /** Nothing sent after `"stop"` on the same connection has any effect. */
  lemma AfterStopIgnored(a: seq<Chunk>, b: seq<Chunk>, s: ControlState)
    requires Terminator(a) == |a|
    ensures Dispatch(a + [Received("stop")] + b, s) == Dispatch(a + [Received("stop")], s)
  {
    assert a + [Received("stop")] + b == a + ([Received("stop")] + b);
    DispatchAppend(a, [Received("stop")] + b, s);
    DispatchAppend(a, [Received("stop")], s);
  }

  /** Two `"toggle"` chunks leave the state as it was. */
  lemma ToggleTwiceRestores(rest: seq<Chunk>, s: ControlState)
    ensures Dispatch([Received("toggle"), Received("toggle")] + rest, s) == Dispatch(rest, s)
  {
    var two := [Received("toggle"), Received("toggle")];
    assert Terminator(two) == 2 by {
      assert two[1..] == [Received("toggle")];
      assert two[1..][1..] == [];
    }
    DispatchAppend(two, rest, s);
    assert two[1..] == [Received("toggle")];
  }

  /** Any other non-empty text changes nothing and reading goes on; the
      match is on the whole chunk, so `"toggle\n"` is such a text. */
  lemma UnrecognisedIgnored(m: string, rest: seq<Chunk>, s: ControlState)
    requires m != "" && m != "toggle" && m != "stop"
    ensures Dispatch([Received(m)] + rest, s) == Dispatch(rest, s)
    ensures Terminator([Received(m)] + rest) == 1 + Terminator(rest)
  {
    assert ([Received(m)] + rest)[1..] == rest;
  }

  lemma ToggleWithNewlineIgnored(s: ControlState)
    ensures Dispatch([Received("toggle\n")], s) == s
  {
    assert "toggle\n" != "toggle" by { assert |"toggle\n"| != |"toggle"|; }
    UnrecognisedIgnored("toggle\n", [], s);
    assert [Received("toggle\n")] + [] == [Received("toggle\n")];
  }

  // ---------------------------------------------------------------------
  // run_server, with each accepted connection handled before the next poll

  /** One `server.accept()` under the one-second timeout. */
  datatype Accept = TimedOut | Client(chunks: seq<Chunk>) | AcceptFailed

  /** The accept loop: it polls while the stop flag is unset; any error
      other than a timeout ends it. The result is the final state and the
      number of polls made. */
  function Serve(events: seq<Accept>, s: ControlState): (r: (ControlState, nat))
    ensures r.1 <= |events|
    ensures s.stopFlag ==> r == (s, 0)
    ensures r.1 < |events| ==> r.0.stopFlag || (r.1 > 0 && events[r.1 - 1].AcceptFailed?)
    ensures r.0.stopFlag && !s.stopFlag ==> r.0.quitRequested
  {
    if s.stopFlag || events == [] then (s, 0)
    else match events[0]
      case AcceptFailed => (s, 1)
      case TimedOut =>
        var r := Serve(events[1..], s);
        (r.0, r.1 + 1)
      case Client(chunks) =>
        var r := Serve(events[1..], Dispatch(chunks, s));
        (r.0, r.1 + 1)
  }

  /** One poll of the accept loop, at position `i` of the events. */
  lemma ServeStep(events: seq<Accept>, i: nat, s: ControlState)
    requires i < |events| && !s.stopFlag
    ensures events[i].AcceptFailed? ==> Serve(events[i..], s) == (s, 1)
    ensures events[i].TimedOut? ==>
              var r := Serve(events[i + 1..], s);
              Serve(events[i..], s) == (r.0, r.1 + 1)
    ensures events[i].Client? ==>
              var r := Serve(events[i + 1..], Dispatch(events[i].chunks, s));
              Serve(events[i..], s) == (r.0, r.1 + 1)
  {
    assert events[i..][0] == events[i] && events[i..][1..] == events[i + 1..];
  }

  /** A connection that sends `"stop"` is the last one served. */
  lemma StopEndsServer(chunks: seq<Chunk>, later: seq<Accept>, s: ControlState)
    requires !s.stopFlag
    requires Terminator(chunks) < |chunks| && chunks[Terminator(chunks)] == Received("stop")
    ensures Serve([Client(chunks)] + later, s).1 == 1
    ensures Serve([Client(chunks)] + later, s).0.stopFlag
    ensures Serve([Client(chunks)] + later, s).0.quitRequested
  {
    DispatchEffect(chunks, s);
    assert Dispatch(chunks, s).stopFlag;
    assert ([Client(chunks)] + later)[1..] == later;
  }

  // ---------------------------------------------------------------------
  // Probe, call and launch

  /** How a TCP connect to the control port ends. */
  datatype ConnectOutcome = Connected | ConnectTimedOut | Refused | ConnectFailed

  /** An exception escaping to the caller. */
  datatype DriverError = ConnectError

  /** `is_another_instance_running`. */
  function IsAnotherInstanceRunning(probe: ConnectOutcome): (r: Result<bool, DriverError>)
    ensures r == Success(true) <==> probe == Connected
    ensures r == Success(false) <==> probe == ConnectTimedOut || probe == Refused
    ensures r.Failure? <==> probe == ConnectFailed
  {
    match probe
    case Connected => Success(true)
    case ConnectTimedOut => Success(false)
    case Refused => Success(false)
    case ConnectFailed => Failure(ConnectError)
  }

  datatype CallEffect = NotSent | Sent(payload: string) | CallRaised(error: DriverError)

  /** `call(command)`: the probe, then a second, unguarded connect whose
      failure escapes. */
  function Call(probe: ConnectOutcome, connect: ConnectOutcome, command: string): (r: CallEffect)
    ensures r.Sent? ==> r.payload == command && probe == Connected && connect == Connected
    ensures r == NotSent <==> probe == ConnectTimedOut || probe == Refused
    ensures probe == Connected && connect == Connected ==> r == Sent(command)
    ensures r.CallRaised? <==> probe == ConnectFailed || (probe == Connected && connect != Connected)
  {
    match IsAnotherInstanceRunning(probe)
    case Failure(e) => CallRaised(e)
    case Success(running) =>
      if !running then NotSent
      else if connect == Connected then Sent(command)
      else CallRaised(ConnectError)
  }

  /** What `launch` goes on to do. */
  datatype LaunchEffect =
    | AlreadyRunning
    | Start(searchApps: seq<string>, show: bool, stylesheet: string)
    | LaunchRaised(error: DriverError)

  /** `os.path.join(os.path.dirname(__file__), 'styles.css')`. */
  function DefaultStylesheet(packageDir: string): (r: string)
    ensures EndsWith(r, "styles.css")
  {
    Join(packageDir, "styles.css")
  }

  /** `launch(search_apps, show, config)`. */
  function Launch(probe: ConnectOutcome, searchApps: seq<string>, show: bool,
                  config: Option<string>, packageDir: string): (r: LaunchEffect)
    ensures r.Start? ==> r.searchApps == searchApps && r.show == show
    ensures r.Start? && config.Some? ==> r.stylesheet == config.value
    ensures r.Start? && config.None? ==> r.stylesheet == DefaultStylesheet(packageDir)
    ensures r.Start? <==> probe == ConnectTimedOut || probe == Refused
    ensures r == AlreadyRunning <==> probe == Connected
  {
    match IsAnotherInstanceRunning(probe)
    case Failure(e) => LaunchRaised(e)
    case Success(running) =>
      if running then AlreadyRunning
      else Start(searchApps, show, if config.None? then DefaultStylesheet(packageDir) else config.value)
  }

  /** Single instance: on the same probe, `launch` starts an application
      exactly when `call` would send nothing, and `call` sends exactly when
      `launch` backs off. */
  lemma SingleInstance(probe: ConnectOutcome, connect: ConnectOutcome, command: string,
                       searchApps: seq<string>, show: bool, config: Option<string>, packageDir: string)
    ensures Launch(probe, searchApps, show, config, packageDir).Start? <==> Call(probe, connect, command) == NotSent
    ensures Call(probe, connect, command).Sent? ==> Launch(probe, searchApps, show, config, packageDir) == AlreadyRunning
  {
  }

  /** `restart`: a `"stop"` call reaching a running authority is the last
      connection it serves, and it leaves the stop flag set. */
  lemma RestartStopsAuthority(later: seq<Accept>, s: ControlState)
    requires !s.stopFlag
    ensures Call(Connected, Connected, "stop") == Sent("stop")
    ensures var r := Serve([Client([Received("stop"), Received("")])] + later, s);
            r.1 == 1 && r.0.stopFlag && r.0.quitRequested
  {
    StopEndsServer([Received("stop"), Received("")], later, s);
  }

  // ---------------------------------------------------------------------
  // The user the dock launches applications as

  /** As written, `start_application` passes its `config` (a stylesheet
      path) as the dock's `non_root_user`. */
  function DockUserAsWritten(config: Option<string>): (u: Option<string>)
    ensures u.Some? <==> config.Some?
  {
    config
  }

  /** A packaged application's command. */
  const FlatpakCommand: string := "flatpak run org.mozilla.firefox"

  lemma FlatpakCommandContains()
    ensures Contains(FlatpakCommand, "flatpak run")
  {
    assert StartsWith(FlatpakCommand, "flatpak run");
  }

  lemma FlatpakCommandJoined()
    ensures JoinSpaced(["flatpak", "run", "org.mozilla.firefox"]) == FlatpakCommand
  {
    var flatpak := ["flatpak", "run", "org.mozilla.firefox"];
    assert flatpak[1..] == ["run", "org.mozilla.firefox"];
    assert flatpak[1..][1..] == ["org.mozilla.firefox"];
  }

  lemma FlatpakCommandTokens()
    ensures SplitWs(FlatpakCommand) == ["flatpak", "run", "org.mozilla.firefox"]
  {
    var flatpak := ["flatpak", "run", "org.mozilla.firefox"];
    FlatpakCommandJoined();
    assert NoSpace(flatpak[0]);
    assert NoSpace(flatpak[1]);
    assert NoSpace(flatpak[2]);
    SplitWsJoinSpaced(flatpak);
  }

  /** With the default stylesheet every launch runs through
      `sudo -u <stylesheet path>`, and `flatpak run` commands are refused. */
  lemma StylesheetBecomesSudoUser(packageDir: string, tokens: seq<string>)
    requires tokens != []
    requires forall k :: 0 <= k < |tokens| ==> tokens[k] != [] && NoSpace(tokens[k])
    requires !Contains(JoinSpaced(tokens), "flatpak run")
    ensures var user := DockUserAsWritten(Some(Launch(Refused, [], false, None, packageDir).stylesheet));
            LaunchArgv(user, Some(JoinSpaced(tokens))) == Some(["sudo", "-u", DefaultStylesheet(packageDir)] + tokens)
    ensures var user := DockUserAsWritten(Some(Launch(Refused, [], false, None, packageDir).stylesheet));
            LaunchArgv(user, Some(FlatpakCommand)) == None
  {
    var user := DockUserAsWritten(Some(Launch(Refused, [], false, None, packageDir).stylesheet));
    assert user == Some(DefaultStylesheet(packageDir));
    LaunchArgvTokens(user, tokens);
    FlatpakCommandContains();
    FlatpakRefusedForUser(DefaultStylesheet(packageDir), FlatpakCommand);
  }

  /** The dock started as intended, with no user set, runs an application's
      command as its own tokens, `flatpak run` commands included. */
  lemma UnsetUserRunsCommand(tokens: seq<string>)
    requires tokens != []
    requires forall k :: 0 <= k < |tokens| ==> tokens[k] != [] && NoSpace(tokens[k])
    ensures LaunchArgv(None, Some(JoinSpaced(tokens))) == Some(tokens)
    ensures LaunchArgv(None, Some(FlatpakCommand)) == Some(["flatpak", "run", "org.mozilla.firefox"])
  {
    LaunchArgvTokens(None, tokens);
    FlatpakCommandTokens();
  }

  // ---------------------------------------------------------------------
  // The running authority

  /** The process that owns the control port: the process-wide stop flag
      and the dock the commands act on. */
  class Authority {
    var stopFlag: bool
    const dock: Dock

    /** What the control commands can observe and change. */
    function State(): ControlState
      reads this, dock
    {
      ControlState(dock.visible, stopFlag, dock.quitRequested)
    }

    /** The dock is built over the scanned applications and toggled once
        when `show` is set; the stop flag starts unset. */
    constructor (apps: seq<Parsed>, user: Option<string>, show: bool)
      ensures fresh(dock) && dock.Valid()
      ensures dock.apps == apps && dock.nonRootUser == user
      ensures dock.visible == show && !dock.quitRequested && !stopFlag
    {
      dock := new Dock(apps, user);
      stopFlag := false;
      new;
      if show {
        dock.ToggleVisibility();
      }
    }

    /** `handle_client`: reads chunks until one ends the connection;
        returns how many were read. */
    method HandleClient(chunks: seq<Chunk>) returns (read: nat)
      modifies this`stopFlag, dock`visible, dock`quitRequested
      ensures State() == Dispatch(chunks, old(State()))
      ensures read == if Terminator(chunks) < |chunks| then Terminator(chunks) + 1 else |chunks|
    {
      ghost var s0 := State();
      var i := 0;
      while i < |chunks|
        invariant 0 <= i <= Terminator(chunks)
        invariant Dispatch(chunks[i..], State()) == Dispatch(chunks, s0)
      {
        assert chunks[i..][0] == chunks[i] && chunks[i..][1..] == chunks[i + 1..];
        match chunks[i]
        case Undecodable =>
          return i + 1;
        case Received(m) =>
          if m == "" {
            return i + 1;
          } else if m == "toggle" {
            dock.ToggleVisibility();
          } else if m == "stop" {
            stopFlag := true;
            dock.HandleStopSignal();
            return i + 1;
          }
        i := i + 1;
      }
      read := |chunks|;
    }

    /** `run_server`: when the port cannot be bound nothing is served;
        otherwise accepts go on while the stop flag is unset. Returns the
        number of polls. */
    method RunServer(bound: bool, events: seq<Accept>) returns (polls: nat)
      modifies this`stopFlag, dock`visible, dock`quitRequested
      ensures !bound ==> polls == 0 && State() == old(State())
      ensures bound ==> (State(), polls) == Serve(events, old(State()))
    {
      if !bound {
        return 0;
      }
      ghost var goal := Serve(events, old(State()));
      polls := 0;
      assert events[polls..] == events;
      while !stopFlag && polls < |events|
        invariant 0 <= polls <= |events|
        invariant Serve(events[polls..], State()).0 == goal.0
        invariant polls + Serve(events[polls..], State()).1 == goal.1
      {
        ghost var before := State();
        ServeStep(events, polls, before);
        var e := events[polls];
        polls := polls + 1;
        match e
        case TimedOut =>
        case AcceptFailed =>
          return;
        case Client(chunks) =>
          var _ := HandleClient(chunks);
      }
      if !stopFlag {
        assert events[polls..] == [];
      }
    }

    /** After the UI loop returns the stop flag is set. */
    method FinishApplication()
      modifies this`stopFlag
      ensures stopFlag
    {
      stopFlag := true;
    }
  }

  /** `start_application`: scan, then build the dock (shown once when
      `show` is set) with no user set; a failing scan escapes. */
  method StartApplication(fs: FileSystem, searchApps: seq<string>, show: bool)
    returns (r: Result<Authority, ScanError>)
    ensures r.Failure? <==> Scan(fs, LowerAll(searchApps)).Failure?
    ensures r.Failure? ==> r.error == Scan(fs, LowerAll(searchApps)).error
    ensures r.Success? ==>
              && fresh(r.value) && fresh(r.value.dock) && r.value.dock.Valid()
              && r.value.dock.apps == Scan(fs, LowerAll(searchApps)).value
              && r.value.dock.nonRootUser == None
              && r.value.dock.visible == show
              && !r.value.stopFlag && !r.value.dock.quitRequested
  {
    var finder := new DesktopFiles(searchApps);
    var icons := finder.Get(fs);
    if icons.Failure? {
      return Failure(icons.error);
    }
    var authority := new Authority(icons.value, None, show);
    return Success(authority);
  }
}
