/** The addon's application object inside the game process: the update check's
    version comparison, the stack of cleanup actions, the queue of functions
    run on the game's message loop, and the guards on unloading. */
module AppCore {
  import opened Text

  // ---------------------------------------------------------------------
  // CheckUpdates: comparing the local and the released version

  /** The three outcomes the update check reports. */
  datatype UpdateVerdict = AheadOfServer | UpToDate | UpdateAvailable

  /** std::stoi on one piece: its value, or the message of what it throws. */
  function StoiResult(s: string): (r: Result<int>)
    ensures r.Ok? <==> Stoi(s).Some?
    ensures r.Ok? ==> r.value == Stoi(s).value.value
  {
    var parsed := Stoi(s);
    if parsed.None? then Err(StoiError(s)) else Ok(parsed.value.value)
  }

  /** The values of the pieces in order, or the first failure among them. */
  function Collect(rs: seq<Result<int>>): (r: Result<seq<int>>)
    ensures r.Ok? ==> |r.value| == |rs| && forall i :: 0 <= i < |rs| ==> rs[i] == Ok(r.value[i])
    ensures r.Err? ==> exists i :: 0 <= i < |rs| && rs[i] == Err(r.message) && (forall j :: 0 <= j < i ==> rs[j].Ok?)
    decreases |rs|
  {
    if |rs| == 0 then Ok([])
    else
      var n := |rs| - 1;
      var init := Collect(rs[..n]);
      if init.Err? then init
      else if rs[n].Err? then Err(rs[n].message)
      else Ok(init.value + [rs[n].value])
  }

  /** Once a prefix holds a failure, the pieces after it do not matter. */
  lemma {:induction false} CollectFailedPrefix(rs: seq<Result<int>>, k: nat)
    requires k <= |rs| && Collect(rs[..k]).Err?
    ensures Collect(rs) == Collect(rs[..k])
    decreases |rs|
  {
    if k < |rs| {
      var n := |rs| - 1;
      assert rs[..n][..k] == rs[..k];
      CollectFailedPrefix(rs[..n], k);
    } else {
      assert rs[..k] == rs;
    }
  }

  /** Every piece read with std::stoi, in order. */
  function Pieces(parts: seq<string>): (r: seq<Result<int>>)
    ensures |r| == |parts| && forall i :: 0 <= i < |parts| ==> r[i] == StoiResult(parts[i])
  {
    seq(|parts|, i requires 0 <= i < |parts| => StoiResult(parts[i]))
  }

  /** The numbers of a dotted version, or the first stoi failure. */
  function ComponentsOf(parts: seq<string>): Result<seq<int>>
  {
    Collect(Pieces(parts))
  }

  /** The loop that fills `remote` or `local` with emplace_back(std::stoi(s)). */
  method ParseComponents(parts: seq<string>) returns (r: Result<seq<int>>)
    ensures r == ComponentsOf(parts)
  {
    ghost var pieces := Pieces(parts);
    var values: seq<int> := [];
    var i := 0;
    while i < |parts|
      invariant 0 <= i <= |parts|
      invariant Collect(pieces[..i]) == Ok(values)
    {
      assert pieces[..i + 1][..i] == pieces[..i];
      var parsed := StoiResult(parts[i]);
      if parsed.Err? {
        CollectFailedPrefix(pieces, i + 1);
        return Err(parsed.message);
      }
      values := values + [parsed.value];
      i := i + 1;
    }
    assert pieces[..i] == pieces;
    return Ok(values);
  }

  /** The comparison CheckUpdates makes: the release name without its first
      character and the product version, split on '.', four numbers each. */
  function VersionCheck(releaseName: string, productVersion: string): (r: Result<UpdateVerdict>)
    ensures RemoteVersion(releaseName).Err? ==> r == Err(RemoteVersion(releaseName).message)
    ensures RemoteVersion(releaseName).Ok? && ComponentsOf(Split(productVersion, '.')).Err? ==>
              r == Err(ComponentsOf(Split(productVersion, '.')).message)
    ensures RemoteVersion(releaseName).Ok? && ComponentsOf(Split(productVersion, '.')).Ok? &&
            (|RemoteVersion(releaseName).value| != 4 || |ComponentsOf(Split(productVersion, '.')).value| != 4) ==>
              r == Err("Invalid format specification")
    ensures r.Ok? <==>
              RemoteVersion(releaseName).Ok? && ComponentsOf(Split(productVersion, '.')).Ok? &&
              |RemoteVersion(releaseName).value| == 4 && |ComponentsOf(Split(productVersion, '.')).value| == 4
  {
    if |releaseName| < 1 then Err("invalid string position")
    else
      var remote := ComponentsOf(Split(releaseName[1..], '.'));
      if remote.Err? then Err(remote.message)
      else
        var local := ComponentsOf(Split(productVersion, '.'));
        if local.Err? then Err(local.message)
        else if |local.value| != 4 || |remote.value| != 4 then Err("Invalid format specification")
        else if LexLess(remote.value, local.value) then Ok(AheadOfServer)
        else if local.value == remote.value then Ok(UpToDate)
        else Ok(UpdateAvailable)
  }

  /** CheckUpdates(silent): the verdict it logs, or the message of the exception it
      catches and logs; nothing escapes. */
  method CheckUpdates(releaseName: string, productVersion: string) returns (r: Result<UpdateVerdict>)
    ensures r == VersionCheck(releaseName, productVersion)
  {
    if |releaseName| < 1 {
      return Err("invalid string position");
    }
    var remote := ParseComponents(Split(releaseName[1..], '.'));
    if remote.Err? {
      return Err(remote.message);
    }
    var local := ParseComponents(Split(productVersion, '.'));
    if local.Err? {
      return Err(local.message);
    }
    if |local.value| != 4 || |remote.value| != 4 {
      return Err("Invalid format specification");
    }
    if LexLess(remote.value, local.value) {
      return Ok(AheadOfServer);
    } else if local.value == remote.value {
      return Ok(UpToDate);
    }
    return Ok(UpdateAvailable);
  }

  /** The version numbers as the two sides are parsed, when both parse. */
  function RemoteVersion(releaseName: string): Result<seq<int>>
  {
    if |releaseName| < 1 then Err("invalid string position") else ComponentsOf(Split(releaseName[1..], '.'))
  }

  /** Each verdict holds exactly when the numbers stand in that order, compared
      component by component as numbers. */
  lemma VersionVerdicts(releaseName: string, productVersion: string)
    requires RemoteVersion(releaseName).Ok? && ComponentsOf(Split(productVersion, '.')).Ok?
    requires |RemoteVersion(releaseName).value| == 4 && |ComponentsOf(Split(productVersion, '.')).value| == 4
    ensures var remote := RemoteVersion(releaseName).value;
      var local := ComponentsOf(Split(productVersion, '.')).value;
      && (VersionCheck(releaseName, productVersion) == Ok(UpdateAvailable) <==> LexLess(local, remote))
      && (VersionCheck(releaseName, productVersion) == Ok(AheadOfServer) <==> LexLess(remote, local))
      && (VersionCheck(releaseName, productVersion) == Ok(UpToDate) <==> local == remote)
  {
    LexTrichotomy(RemoteVersion(releaseName).value, ComponentsOf(Split(productVersion, '.')).value);
  }

  /** Each number as "{}" formats it. */
  function Decimals(v: seq<nat>): (r: seq<string>)
    ensures |r| == |v| && forall i :: 0 <= i < |v| ==> r[i] == Decimal(v[i])
  {
    seq(|v|, i requires 0 <= i < |v| => Decimal(v[i]))
  }

  /** Version text reads back as its numbers. */
  lemma VersionTextParses(v: seq<nat>)
    requires |v| >= 1 && forall i :: 0 <= i < |v| ==> v[i] <= IntMax
    ensures ComponentsOf(Split(Join(Decimals(v), '.'), '.')) == Ok(v)
  {
    var parts := Decimals(v);
    var pieces := Pieces(parts);
    forall i | 0 <= i < |parts|
      ensures '.' !in parts[i] && pieces[i] == Ok(v[i])
    {
      StoiDecimal(v[i]);
    }
    SplitJoin(parts, '.');
    assert forall i :: 0 <= i < |pieces| ==> pieces[i].Ok?;
    var r := Collect(pieces);
    assert r.value == v;
  }

  lemma SmallDecimals()
    ensures Decimal(0) == "0" && Decimal(1) == "1" && Decimal(9) == "9" && Decimal(10) == "10"
  {
    assert Decimal(10) == Decimal(1) + [DigitChar(0)];
  }

  lemma RemoteVersionExample()
    ensures ComponentsOf(Split("1.10.0.0", '.')) == Ok([1, 10, 0, 0])
  {
    var v: seq<nat> := [1, 10, 0, 0];
    SmallDecimals();
    var parts := Decimals(v);
    assert parts == ["1", "10", "0", "0"];
    assert parts[1..][1..][1..] == ["0"];
    assert Join(parts[1..][1..], '.') == "0.0";
    assert Join(parts[1..], '.') == "10.0.0";
    assert Join(parts, '.') == "1.10.0.0";
    VersionTextParses(v);
  }

  lemma LocalVersionExample()
    ensures ComponentsOf(Split("1.9.0.0", '.')) == Ok([1, 9, 0, 0])
  {
    var v: seq<nat> := [1, 9, 0, 0];
    SmallDecimals();
    var parts := Decimals(v);
    assert parts == ["1", "9", "0", "0"];
    assert parts[1..][1..][1..] == ["0"];
    assert Join(parts[1..][1..], '.') == "0.0";
    assert Join(parts[1..], '.') == "9.0.0";
    assert Join(parts, '.') == "1.9.0.0";
    VersionTextParses(v);
  }

  /** A release "v1.10.0.0" is newer than a local 1.9.0.0: the parts compare as
      numbers, not as text. */
  lemma MinorTenIsNewerThanNine()
    ensures VersionCheck("v1.10.0.0", "1.9.0.0") == Ok(UpdateAvailable)
  {
    RemoteVersionExample();
    LocalVersionExample();
    assert "v1.10.0.0"[1..] == "1.10.0.0";
    assert LexLess([1, 9, 0, 0], [1, 10, 0, 0]);
    VersionVerdicts("v1.10.0.0", "1.9.0.0");
  }

  /** A release with three components is refused before any comparison. */
  lemma ThreeComponentReleaseRefused()
    ensures VersionCheck("v1.10.0", "1.9.0.0") == Err("Invalid format specification")
  {
    var v: seq<nat> := [1, 10, 0];
    SmallDecimals();
    var parts := Decimals(v);
    assert parts == ["1", "10", "0"];
    assert parts[1..][1..] == ["0"];
    assert Join(parts[1..], '.') == "10.0";
    assert Join(parts, '.') == "1.10.0";
    VersionTextParses(v);
    assert "v1.10.0"[1..] == "1.10.0";
    LocalVersionExample();
  }

  // ---------------------------------------------------------------------
  // Process-wide state

  /** The game window's procedure: the game's own, the addon's override, or a
      later hook installed over the override. */
  datatype WndProc = Original | Overriding | Foreign

  /** The statics and the process-wide configuration the application touches. */
  class Process {
    /** s_pInstance: which application object is registered, if any. */
    var instance: Option<nat>
    /** s_bUnloadDisabled. */
    var unloadDisabled: bool
    /** Config::Instance().SetQuitting() has been called. */
    var quitting: bool
    /** GWLP_WNDPROC of the game's main window. */
    var gameWndProc: WndProc

    constructor()
      ensures instance == None && !unloadDisabled && !quitting && gameWndProc == Original
    {
      instance := None;
      unloadDisabled := false;
      quitting := false;
      gameWndProc := Original;
    }

    /** SetDisableUnloading(v). */
    method SetDisableUnloading(v: bool)
      modifies this
      ensures unloadDisabled == v
      ensures instance == old(instance) && quitting == old(quitting) && gameWndProc == old(gameWndProc)
    {
      unloadDisabled := v;
    }
  }

  // ---------------------------------------------------------------------
  // Cleanup actions

  /** The actions Load registers with OnCleanup, named by what they undo. */
  datatype Cleanup =
    | ClearInstance | DestroyConfig | ReleaseScintilla
    | RestoreWndProc | ResetSocketHook | CloseTrayWindow
    | AlwaysOnTopListener | ClearTopmost
    | LatencyListener | ResetLatencyHandler
    | OpcodeListener | ResetOpcodeFinder
    | IpcLoggerListener | ResetIpcLogger
    | DelayLoggerListener | ResetDelayLogger
    | LogWindowListener | CloseLogWindow

  /** Registered before the game window is required. */
  const EarlyCleanups: seq<Cleanup> := [ClearInstance, DestroyConfig, ReleaseScintilla]

  /** Registered once the window procedure has been replaced. */
  const LateCleanups: seq<Cleanup> := [
    RestoreWndProc, ResetSocketHook, CloseTrayWindow,
    AlwaysOnTopListener, ClearTopmost,
    LatencyListener, ResetLatencyHandler,
    OpcodeListener, ResetOpcodeFinder,
    IpcLoggerListener, ResetIpcLogger,
    DelayLoggerListener, ResetDelayLogger,
    LogWindowListener, CloseLogWindow]

  /** The calls after the window procedure is replaced that can throw: the
      socket hook's constructor, SetupTrayWindow, and the constructors of the
      four features and of the log window. */
  datatype LateFault =
    | SocketHookFails | TrayWindowFails | LatencyHandlerFails | OpcodeFinderFails
    | IpcLoggerFails | DelayLoggerFails | LogWindowFails

  /** How Load ends once the game window is found: it completes, or a late
      call throws with a message. */
  datatype LoadFault = Completes | Throws(at: LateFault, message: string)

  /** How many of LateCleanups are on the stack when that call throws. */
  function RegisteredBefore(f: LateFault): (k: nat)
    ensures 1 <= k < |LateCleanups|
    ensures LateCleanups[k - 1] in {RestoreWndProc, ResetSocketHook, ClearTopmost, ResetLatencyHandler, ResetOpcodeFinder, ResetIpcLogger, ResetDelayLogger}
  {
    match f
    case SocketHookFails => 1
    case TrayWindowFails => 2
    case LatencyHandlerFails => 5
    case OpcodeFinderFails => 7
    case IpcLoggerFails => 9
    case DelayLoggerFails => 11
    case LogWindowFails => 13
  }

  /** After a late throw the unwinding runs the last registered action first,
      restores the window procedure last among the late actions, and then
      undoes the three early actions. */
  lemma LateUnwindOrder(f: LateFault)
    ensures var k := RegisteredBefore(f);
      var run := Reversed(EarlyCleanups + LateCleanups[..k]);
      && |run| == k + 3
      && run[0] == LateCleanups[k - 1]
      && run[k - 1] == RestoreWndProc
      && run[k..] == [ReleaseScintilla, DestroyConfig, ClearInstance]
  {
    var k := RegisteredBefore(f);
    var s := EarlyCleanups + LateCleanups[..k];
    var run := Reversed(s);
    assert run[k..] == [s[2], s[1], s[0]];
  }

  /** Registering the next late action extends the registered prefix by one. */
  lemma RegisterLate(cs: seq<Cleanup>, n: nat)
    requires n < |LateCleanups| && (cs == EarlyCleanups + LateCleanups[..n] || (n == 0 && cs == EarlyCleanups))
    ensures cs + [LateCleanups[n]] == EarlyCleanups + LateCleanups[..n + 1]
  {
    assert LateCleanups[..n + 1] == LateCleanups[..n] + [LateCleanups[n]];
  }

  /** The order pop_back runs a stack in: the last registered first. */
  function Reversed<T>(s: seq<T>): (r: seq<T>)
    ensures |r| == |s|
    ensures forall i :: 0 <= i < |s| ==> r[i] == s[|s| - 1 - i]
    decreases |s|
  {
    if |s| == 0 then [] else Reversed(s[1..]) + [s[0]]
  }

  /** Reversing a stack with one more entry on top runs that entry first. */
  lemma ReversedPush<T>(s: seq<T>, x: T)
    ensures Reversed(s + [x]) == [x] + Reversed(s)
  {
  }

  /** A game-window message, the functions other threads queued before it
      arrived, and the messages the game's own procedure dispatches while
      handling it. */
  datatype Message = Message(queuedBefore: seq<nat>, nested: seq<Message>)

  /** Every function queued while a list of messages is handled, in arrival order. */
  function ArrivalsIn(ms: seq<Message>): seq<nat>
    decreases ms
  {
    if |ms| == 0 then []
    else
      var last := ms[|ms| - 1];
      assert last in ms;
      ArrivalsIn(ms[..|ms| - 1]) + last.queuedBefore + ArrivalsIn(last.nested)
  }

  /** The application's implementation object. */
  class Implementation {
    /** this_: the application object owning it. */
    const owner: nat
    /** m_hGameMainWindow was found. */
    const hasGameWindow: bool
    /** m_cleanupPendingDestructions: a stack of registered cleanup actions. */
    var cleanup: seq<Cleanup>
    /** The cleanup actions run so far, in the order they ran. */
    var ranCleanups: seq<Cleanup>
    /** m_qRunInMessageLoop. */
    var queue: seq<nat>
    /** The queued functions run so far, in the order they ran. */
    var ranTasks: seq<nat>
    /** m_nWndProcDepth. */
    var depth: int
    /** m_trayWindow exists. */
    var trayWindow: bool
    /** WM_CLOSE messages sent to the tray window by Unload. */
    var closeRequests: nat

    constructor(owner: nat, hasGameWindow: bool)
      ensures this.owner == owner && this.hasGameWindow == hasGameWindow
      ensures cleanup == [] && ranCleanups == [] && queue == [] && ranTasks == []
      ensures depth == 0 && !trayWindow && closeRequests == 0
    {
      this.owner := owner;
      this.hasGameWindow := hasGameWindow;
      cleanup := [];
      ranCleanups := [];
      queue := [];
      ranTasks := [];
      depth := 0;
      trayWindow := false;
      closeRequests := 0;
    }

    /** OnCleanup(cb): push onto the stack. */
    method OnCleanup(c: Cleanup)
      modifies this
      ensures cleanup == old(cleanup) + [c]
      ensures ranCleanups == old(ranCleanups) && queue == old(queue) && ranTasks == old(ranTasks)
      ensures depth == old(depth) && trayWindow == old(trayWindow) && closeRequests == old(closeRequests)
    {
      cleanup := cleanup + [c];
    }

    /** Running one popped action: the ones whose effect the model tracks unregister
        the instance, put the game's window procedure back or close the tray window. */
    method RunCleanup(c: Cleanup, p: Process)
      modifies this, p
      ensures ranCleanups == old(ranCleanups) + [c]
      ensures p.instance == if c == ClearInstance then None else old(p.instance)
      ensures p.gameWndProc == if c == RestoreWndProc then Original else old(p.gameWndProc)
      ensures trayWindow == if c == CloseTrayWindow then false else old(trayWindow)
      ensures p.quitting == old(p.quitting) && p.unloadDisabled == old(p.unloadDisabled)
      ensures cleanup == old(cleanup) && queue == old(queue) && ranTasks == old(ranTasks)
      ensures depth == old(depth) && closeRequests == old(closeRequests)
    {
      ranCleanups := ranCleanups + [c];
      match c {
        case ClearInstance => p.instance := None;
        case RestoreWndProc => p.gameWndProc := Original;
        case CloseTrayWindow => trayWindow := false;
        case _ =>
      }
    }

    /** ~Implementation, and Load's catch block: quit, pop every action off the
        stack and run it, unregister the instance. */
    method Unwind(p: Process)
      modifies this, p
      ensures cleanup == [] && ranCleanups == old(ranCleanups) + Reversed(old(cleanup))
      ensures p.instance == None && p.quitting && p.unloadDisabled == old(p.unloadDisabled)
      ensures p.gameWndProc == if RestoreWndProc in old(cleanup) then Original else old(p.gameWndProc)
      ensures trayWindow == if CloseTrayWindow in old(cleanup) then false else old(trayWindow)
      ensures queue == old(queue) && ranTasks == old(ranTasks) && depth == old(depth) && closeRequests == old(closeRequests)
    {
      p.quitting := true;
      ghost var stack := cleanup;
      while cleanup != []
        invariant |cleanup| <= |stack| && cleanup == stack[..|cleanup|]
        invariant ranCleanups == old(ranCleanups) + Reversed(stack[|cleanup|..])
        invariant p.gameWndProc == if RestoreWndProc in stack[|cleanup|..] then Original else old(p.gameWndProc)
        invariant trayWindow == if CloseTrayWindow in stack[|cleanup|..] then false else old(trayWindow)
        invariant p.quitting && p.unloadDisabled == old(p.unloadDisabled)
        invariant queue == old(queue) && ranTasks == old(ranTasks) && depth == old(depth) && closeRequests == old(closeRequests)
        decreases |cleanup|
      {
        var n := |cleanup|;
        var c := cleanup[n - 1];
        assert stack[n - 1..] == [c] + stack[n..];
        cleanup := cleanup[..n - 1];
        RunCleanup(c, p);
      }
      assert stack[0..] == stack;
      p.instance := None;
    }

    /** Load(): register the instance and the early actions; without the game
        window, unwind and fail; otherwise replace the window procedure and
        register the remaining actions, the tray window opened on the way.
        When a call after the override throws, the catch block unwinds every
        action registered so far, the window procedure's restoration among them. */
    method Load(p: Process, fault: LoadFault) returns (r: Outcome)
      requires cleanup == []
      modifies this, p
      ensures !hasGameWindow ==> r == Fail("Game main window not found!")
      ensures !hasGameWindow ==> cleanup == [] && ranCleanups == old(ranCleanups) + [ReleaseScintilla, DestroyConfig, ClearInstance]
      ensures !hasGameWindow ==> p.instance == None && p.quitting && p.gameWndProc == old(p.gameWndProc)
      ensures !hasGameWindow ==> trayWindow == old(trayWindow)
      ensures hasGameWindow && fault.Completes? ==> r == Pass && cleanup == EarlyCleanups + LateCleanups
      ensures hasGameWindow && fault.Completes? ==> ranCleanups == old(ranCleanups) && p.instance == Some(owner) && p.gameWndProc == Overriding
      ensures hasGameWindow && fault.Completes? ==> trayWindow && p.quitting == old(p.quitting)
      ensures hasGameWindow && fault.Throws? ==> r == Fail(fault.message) && cleanup == []
      ensures hasGameWindow && fault.Throws? ==>
                ranCleanups == old(ranCleanups) + Reversed(EarlyCleanups + LateCleanups[..RegisteredBefore(fault.at)])
      ensures hasGameWindow && fault.Throws? ==> p.instance == None && p.quitting && p.gameWndProc == Original
      ensures hasGameWindow && fault.Throws? ==> trayWindow == (old(trayWindow) && RegisteredBefore(fault.at) < 3)
      ensures p.unloadDisabled == old(p.unloadDisabled) && queue == old(queue) && ranTasks == old(ranTasks)
      ensures depth == old(depth) && closeRequests == old(closeRequests)
    {
      p.instance := Some(owner);
      OnCleanup(ClearInstance);
      OnCleanup(DestroyConfig);
      OnCleanup(ReleaseScintilla);
      if !hasGameWindow {
        assert cleanup == EarlyCleanups;
        Unwind(p);
        r := Fail("Game main window not found!");
        return;
      }
      p.gameWndProc := Overriding;
      assert cleanup == EarlyCleanups;
      RegisterLate(cleanup, 0);
      OnCleanup(RestoreWndProc);
      r := StartHooks(p, fault);
    }

    /** Load after the override: the socket hook and the tray window are
        created, the window's topmost state is set, and their cleanups registered. */
    method StartHooks(p: Process, fault: LoadFault) returns (r: Outcome)
      requires cleanup == EarlyCleanups + LateCleanups[..1]
      modifies this, p
      ensures fault.Completes? ==> r == Pass && cleanup == EarlyCleanups + LateCleanups && ranCleanups == old(ranCleanups)
      ensures fault.Completes? ==> p.instance == old(p.instance) && p.gameWndProc == old(p.gameWndProc) && p.quitting == old(p.quitting)
      ensures fault.Throws? ==> r == Fail(fault.message) && cleanup == []
      ensures fault.Throws? ==>
                ranCleanups == old(ranCleanups) + Reversed(EarlyCleanups + LateCleanups[..RegisteredBefore(fault.at)])
      ensures fault.Throws? ==> p.instance == None && p.quitting && p.gameWndProc == Original
      ensures fault.Completes? ==> trayWindow
      ensures fault.Throws? ==> trayWindow == (old(trayWindow) && RegisteredBefore(fault.at) < 3)
      ensures p.unloadDisabled == old(p.unloadDisabled) && queue == old(queue) && ranTasks == old(ranTasks)
      ensures depth == old(depth) && closeRequests == old(closeRequests)
    {
      if fault.Throws? && fault.at == SocketHookFails {
        r := FailLate(p, fault);
        return;
      }
      RegisterLate(cleanup, 1);
      OnCleanup(ResetSocketHook);
      if fault.Throws? && fault.at == TrayWindowFails {
        r := FailLate(p, fault);
        return;
      }
      trayWindow := true;
      RegisterLate(cleanup, 2);
      OnCleanup(CloseTrayWindow);
      RegisterLate(cleanup, 3);
      OnCleanup(AlwaysOnTopListener);
      RegisterLate(cleanup, 4);
      OnCleanup(ClearTopmost);
      r := StartFeatures(p, fault);
    }

    /** The latency handler and the opcode finder, each created and its
        listener and reset registered. */
    method StartFeatures(p: Process, fault: LoadFault) returns (r: Outcome)
      requires fault.Throws? ==> RegisteredBefore(fault.at) >= 5
      requires cleanup == EarlyCleanups + LateCleanups[..5] && trayWindow
      modifies this, p
      ensures fault.Completes? ==> r == Pass && cleanup == EarlyCleanups + LateCleanups && ranCleanups == old(ranCleanups)
      ensures fault.Completes? ==> p.instance == old(p.instance) && p.gameWndProc == old(p.gameWndProc) && p.quitting == old(p.quitting)
      ensures fault.Throws? ==> r == Fail(fault.message) && cleanup == []
      ensures fault.Throws? ==>
                ranCleanups == old(ranCleanups) + Reversed(EarlyCleanups + LateCleanups[..RegisteredBefore(fault.at)])
      ensures fault.Throws? ==> p.instance == None && p.quitting && p.gameWndProc == Original
      ensures trayWindow == fault.Completes?
      ensures p.unloadDisabled == old(p.unloadDisabled) && queue == old(queue) && ranTasks == old(ranTasks)
      ensures depth == old(depth) && closeRequests == old(closeRequests)
    {
      if fault.Throws? && fault.at == LatencyHandlerFails {
        r := FailLate(p, fault);
        return;
      }
      RegisterLate(cleanup, 5);
      OnCleanup(LatencyListener);
      RegisterLate(cleanup, 6);
      OnCleanup(ResetLatencyHandler);
      if fault.Throws? && fault.at == OpcodeFinderFails {
        r := FailLate(p, fault);
        return;
      }
      RegisterLate(cleanup, 7);
      OnCleanup(OpcodeListener);
      RegisterLate(cleanup, 8);
      OnCleanup(ResetOpcodeFinder);
      r := StartLoggers(p, fault);
    }

    /** The IPC message logger, the effect delay logger and the log window,
        each created and its listener and reset registered. */
    method StartLoggers(p: Process, fault: LoadFault) returns (r: Outcome)
      requires fault.Throws? ==> RegisteredBefore(fault.at) >= 9
      requires cleanup == EarlyCleanups + LateCleanups[..9] && trayWindow
      modifies this, p
      ensures fault.Completes? ==> r == Pass && cleanup == EarlyCleanups + LateCleanups && ranCleanups == old(ranCleanups)
      ensures fault.Completes? ==> p.instance == old(p.instance) && p.gameWndProc == old(p.gameWndProc) && p.quitting == old(p.quitting)
      ensures fault.Throws? ==> r == Fail(fault.message) && cleanup == []
      ensures fault.Throws? ==>
                ranCleanups == old(ranCleanups) + Reversed(EarlyCleanups + LateCleanups[..RegisteredBefore(fault.at)])
      ensures fault.Throws? ==> p.instance == None && p.quitting && p.gameWndProc == Original
      ensures trayWindow == fault.Completes?
      ensures p.unloadDisabled == old(p.unloadDisabled) && queue == old(queue) && ranTasks == old(ranTasks)
      ensures depth == old(depth) && closeRequests == old(closeRequests)
    {
      if fault.Throws? && fault.at == IpcLoggerFails {
        r := FailLate(p, fault);
        return;
      }
      RegisterLate(cleanup, 9);
      OnCleanup(IpcLoggerListener);
      RegisterLate(cleanup, 10);
      OnCleanup(ResetIpcLogger);
      if fault.Throws? && fault.at == DelayLoggerFails {
        r := FailLate(p, fault);
        return;
      }
      RegisterLate(cleanup, 11);
      OnCleanup(DelayLoggerListener);
      RegisterLate(cleanup, 12);
      OnCleanup(ResetDelayLogger);
      if fault.Throws? && fault.at == LogWindowFails {
        r := FailLate(p, fault);
        return;
      }
      RegisterLate(cleanup, 13);
      OnCleanup(LogWindowListener);
      RegisterLate(cleanup, 14);
      OnCleanup(CloseLogWindow);
      assert LateCleanups[..|LateCleanups|] == LateCleanups;
      r := Pass;
    }

    /** Load's catch block for a call that throws after the override: unwind
        the stack as it stands and pass the exception on. */
    method FailLate(p: Process, fault: LoadFault) returns (r: Outcome)
      requires fault.Throws?
      requires cleanup == EarlyCleanups + LateCleanups[..RegisteredBefore(fault.at)]
      requires RegisteredBefore(fault.at) >= 3 ==> trayWindow
      modifies this, p
      ensures r == Fail(fault.message) && cleanup == []
      ensures ranCleanups == old(ranCleanups) + Reversed(EarlyCleanups + LateCleanups[..RegisteredBefore(fault.at)])
      ensures p.instance == None && p.quitting && p.gameWndProc == Original
      ensures trayWindow == (old(trayWindow) && RegisteredBefore(fault.at) < 3)
      ensures p.unloadDisabled == old(p.unloadDisabled) && queue == old(queue) && ranTasks == old(ranTasks)
      ensures depth == old(depth) && closeRequests == old(closeRequests)
    {
      var k := RegisteredBefore(fault.at);
      assert cleanup[|EarlyCleanups|] == RestoreWndProc;
      if k >= 3 {
        assert cleanup[|EarlyCleanups| + 2] == CloseTrayWindow;
      } else {
        assert cleanup == EarlyCleanups + LateCleanups[..k];
        assert forall i :: 0 <= i < |cleanup| ==> cleanup[i] != CloseTrayWindow;
      }
      Unwind(p);
      r := Fail(fault.message);
    }

    /** The loop that pops the queue's front and runs it until the queue is empty. */
    method DrainQueue()
      modifies this
      ensures ranTasks == old(ranTasks) + old(queue) && queue == []
      ensures depth == old(depth) && cleanup == old(cleanup) && ranCleanups == old(ranCleanups)
      ensures trayWindow == old(trayWindow) && closeRequests == old(closeRequests)
    {
      while queue != []
        invariant ranTasks + queue == old(ranTasks) + old(queue)
        invariant depth == old(depth) && cleanup == old(cleanup) && ranCleanups == old(ranCleanups)
        invariant trayWindow == old(trayWindow) && closeRequests == old(closeRequests)
        decreases |queue|
      {
        assert ranTasks + queue == (ranTasks + [queue[0]]) + queue[1..];
        ranTasks := ranTasks + [queue[0]];
        queue := queue[1..];
      }
    }

    /** OverridenWndProc: at depth 0, run every queued function in queue order;
        then call the game's procedure one level deeper and restore the depth. */
    method OverriddenWndProc(m: Message)
      requires depth >= 0
      modifies this
      ensures depth == old(depth)
      ensures old(depth) == 0 ==> ranTasks == old(ranTasks) + old(queue) + m.queuedBefore && queue == ArrivalsIn(m.nested)
      ensures old(depth) > 0 ==> ranTasks == old(ranTasks) && queue == old(queue) + m.queuedBefore + ArrivalsIn(m.nested)
      ensures cleanup == old(cleanup) && ranCleanups == old(ranCleanups)
      ensures trayWindow == old(trayWindow) && closeRequests == old(closeRequests)
      decreases m, 1
    {
      queue := queue + m.queuedBefore;
      if depth == 0 {
        DrainQueue();
      }
      depth := depth + 1;
      CallOriginalWndProc(m);
      depth := depth - 1;
    }

    /** CallWindowProcW with the game's own procedure, which may dispatch further
        messages to the override before it returns. */
    method CallOriginalWndProc(m: Message)
      requires depth > 0
      modifies this
      ensures depth == old(depth) && ranTasks == old(ranTasks)
      ensures queue == old(queue) + ArrivalsIn(m.nested)
      ensures cleanup == old(cleanup) && ranCleanups == old(ranCleanups)
      ensures trayWindow == old(trayWindow) && closeRequests == old(closeRequests)
      decreases m, 0
    {
      var i := 0;
      while i < |m.nested|
        invariant 0 <= i <= |m.nested|
        invariant depth == old(depth) && ranTasks == old(ranTasks)
        invariant queue == old(queue) + ArrivalsIn(m.nested[..i])
        invariant cleanup == old(cleanup) && ranCleanups == old(ranCleanups)
        invariant trayWindow == old(trayWindow) && closeRequests == old(closeRequests)
      {
        assert m.nested[i] in m.nested;
        OverriddenWndProc(m.nested[i]);
        assert m.nested[..i + 1][..i] == m.nested[..i];
        i := i + 1;
      }
      assert m.nested[..i] == m.nested;
    }

    /** QueueRunOnMessageLoop(f): append to the queue under the lock. */
    method QueueRunOnMessageLoop(task: nat)
      modifies this
      ensures queue == old(queue) + [task]
      ensures ranTasks == old(ranTasks) && depth == old(depth) && cleanup == old(cleanup)
      ensures ranCleanups == old(ranCleanups) && trayWindow == old(trayWindow) && closeRequests == old(closeRequests)
    {
      queue := queue + [task];
    }

    /** Unload(): refused while unloading is disabled, or when another hook sits
        over the override; otherwise asks the tray window to close. */
    method Unload(p: Process) returns (r: Outcome)
      modifies this
      ensures r == UnloadVerdict(p.unloadDisabled, p.gameWndProc)
      ensures closeRequests == if r.Pass? && trayWindow then old(closeRequests) + 1 else old(closeRequests)
      ensures cleanup == old(cleanup) && trayWindow == old(trayWindow) && queue == old(queue)
      ensures depth == old(depth) && ranTasks == old(ranTasks) && ranCleanups == old(ranCleanups)
    {
      if p.unloadDisabled {
        return Fail(UnloadDisabledMessage);
      }
      if p.gameWndProc != Overriding {
        return Fail(HookedOverMessage);
      }
      if trayWindow {
        closeRequests := closeRequests + 1;
      }
      return Pass;
    }
  }

  const UnloadDisabledMessage: string := "Unloading is currently disabled."
  const HookedOverMessage: string := "Something has hooked the game process after XivAlexander, so you cannot unload XivAlexander until that other thing has been unloaded."

  /** Unload's two guards, the disabled flag checked first. */
  function UnloadVerdict(disabled: bool, wndProc: WndProc): (r: Outcome)
    ensures r.Pass? <==> !disabled && wndProc == Overriding
    ensures disabled ==> r == Fail(UnloadDisabledMessage)
  {
    if disabled then Fail(UnloadDisabledMessage)
    else if wndProc != Overriding then Fail(HookedOverMessage)
    else Pass
  }

  // ---------------------------------------------------------------------
  // Constructing the application

  /** App::App() as written: the implementation is made first, so when another
      application is registered the throw destroys it, and its destructor clears
      the registration of the application that is still alive. */
  method CreateApp(p: Process, id: nat, hasGameWindow: bool, fault: LoadFault) returns (impl: Implementation, r: Outcome)
    modifies p
    ensures fresh(impl) && impl.owner == id
    ensures old(p.instance).Some? ==> r == Fail("App already initialized") && p.instance == None
    ensures old(p.instance).None? && !hasGameWindow ==> r == Fail("Game main window not found!") && p.instance == None
    ensures old(p.instance).None? && hasGameWindow && fault.Completes? ==>
              r == Pass && p.instance == Some(id) && p.gameWndProc == Overriding
    ensures old(p.instance).None? && hasGameWindow && fault.Throws? ==>
              r == Fail(fault.message) && p.instance == None && p.gameWndProc == Original
    ensures (old(p.instance).Some? || !hasGameWindow) ==> p.gameWndProc == old(p.gameWndProc)
    ensures r.Fail? ==> p.quitting
    ensures r.Pass? ==> p.quitting == old(p.quitting)
    ensures p.unloadDisabled == old(p.unloadDisabled)
  {
    impl := new Implementation(id, hasGameWindow);
    if p.instance.Some? {
      impl.Unwind(p);
      return impl, Fail("App already initialized");
    }
    r := impl.Load(p, fault);
    if r.Fail? {
      impl.Unwind(p);
    }
  }

  /** The construction the guard evidently intends: a second application fails
      without disturbing the registered one. */
  method CreateAppChecked(p: Process, id: nat, hasGameWindow: bool, fault: LoadFault) returns (impl: Implementation?, r: Outcome)
    modifies p
    ensures old(p.instance).Some? ==> r == Fail("App already initialized") && impl == null
    ensures old(p.instance).Some? ==> p.instance == old(p.instance) && p.gameWndProc == old(p.gameWndProc) && p.quitting == old(p.quitting)
    ensures old(p.instance).None? ==> impl != null && fresh(impl) && impl.owner == id
    ensures old(p.instance).None? && !hasGameWindow ==> r == Fail("Game main window not found!") && p.instance == None
    ensures old(p.instance).None? && hasGameWindow && fault.Completes? ==>
              r == Pass && p.instance == Some(id) && p.gameWndProc == Overriding
    ensures old(p.instance).None? && hasGameWindow && fault.Throws? ==>
              r == Fail(fault.message) && p.instance == None && p.gameWndProc == Original
    ensures old(p.instance).None? && !hasGameWindow ==> p.quitting && p.gameWndProc == old(p.gameWndProc)
    ensures old(p.instance).None? && hasGameWindow ==> p.quitting == (fault.Throws? || old(p.quitting))
    ensures p.unloadDisabled == old(p.unloadDisabled)
  {
    if p.instance.Some? {
      return null, Fail("App already initialized");
    }
    impl := new Implementation(id, hasGameWindow);
    r := impl.Load(p, fault);
  }
}
