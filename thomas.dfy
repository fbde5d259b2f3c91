/** The server's entry file (thomas.c): option parsing, the control-socket
    registration, and the idempotent teardown run on SIGINT and at exit. */
module Thomas {
  import opened Common
  import opened Socket
  import opened Stats
  import opened Admin

  const DEFAULT_CONTROL_SOCKET: CString := Ascii("./control-socket")

  /** One option as `getopt` returns it, with its argument. A `-p` argument
      is given as the value `strtol(optarg, NULL, 10)` computes. */
  datatype Opt =
    | PortOpt(value: int)
    | InterfaceOpt(arg: CString)
    | LogOpt(arg: CString)
    | AuthOpt(arg: CString)
    | SocketOpt(arg: CString)
    | Unrecognised(letter: char)   // getopt returned '?'

  /** The `port` field: never written, or holding a value. */
  datatype PortField = Unassigned | Assigned(value: int)

  /** `ProgramArgs`; absent string options are `None` (NULL). */
  datatype ProgramArgs = ProgramArgs(
    port: PortField,
    interface: Option<CString>,
    logPath: Option<CString>,
    authPath: Option<CString>,
    controlPath: CString)

  /** The range `parse_args` accepts for `-p`. */
  predicate ValidPort(p: int)
  {
    0 < p < 65535
  }

  predicate IsBadPort(o: Opt)
  {
    o.PortOpt? && !ValidPort(o.value)
  }

  /** The record before any option is seen: `pa.port` is left unwritten. */
  function Initial(): ProgramArgs
  {
    ProgramArgs(Unassigned, None, None, None, DEFAULT_CONTROL_SOCKET)
  }

  /** One case of the `switch` in `parse_args`. An out-of-range port is still
      stored; only the error count remembers it. */
  function ApplyOpt(pa: ProgramArgs, o: Opt): ProgramArgs
  {
    match o
    case PortOpt(v) => pa.(port := Assigned(v))
    case InterfaceOpt(a) => pa.(interface := Some(a))
    case LogOpt(a) => pa.(logPath := Some(a))
    case AuthOpt(a) => pa.(authPath := Some(a))
    case SocketOpt(a) => pa.(controlPath := a)
    case Unrecognised(_) => pa
  }

  /** The record after the options, in order. */
  function ApplyAll(pa: ProgramArgs, opts: seq<Opt>): ProgramArgs
  {
    if opts == [] then pa else ApplyOpt(ApplyAll(pa, opts[..|opts| - 1]), opts[|opts| - 1])
  }

  /** The number of `-p` options whose value is out of range. */
  function BadPorts(opts: seq<Opt>): nat
  {
    if opts == [] then 0
    else BadPorts(opts[..|opts| - 1]) + (if IsBadPort(opts[|opts| - 1]) then 1 else 0)
  }

  lemma {:induction false} BadPortsZero(opts: seq<Opt>)
    ensures BadPorts(opts) == 0 <==> forall i :: 0 <= i < |opts| ==> !IsBadPort(opts[i])
  {
    if opts != [] {
      BadPortsZero(opts[..|opts| - 1]);
      assert forall i :: 0 <= i < |opts| - 1 ==> opts[..|opts| - 1][i] == opts[i];
    }
  }

  /** `parse_args`: apply every option in order, counting out-of-range ports;
      any such port prints the usage text and ends the process with status 1.
      Unrecognised options are reported and otherwise ignored. */
  method ParseArgs(opts: seq<Opt>) returns (r: Outcome<ProgramArgs>)
    ensures r.Exit? <==> exists i :: 0 <= i < |opts| && IsBadPort(opts[i])
    ensures r.Exit? ==> r.status == 1
    ensures r.Ok? ==> r.value == ApplyAll(Initial(), opts)
    ensures r.Ok? && r.value.port.Assigned? ==> ValidPort(r.value.port.value)
  {
    var pa := Initial();
    var errors := 0;
    var i := 0;
    while i < |opts|
      invariant 0 <= i <= |opts|
      invariant pa == ApplyAll(Initial(), opts[..i])
      invariant errors == BadPorts(opts[..i])
      invariant pa.port.Assigned? ==> errors > 0 || ValidPort(pa.port.value)
    {
      assert opts[..i + 1][..i] == opts[..i];
      match opts[i] {
        case PortOpt(tmp) =>
          if tmp <= 0 || tmp >= 65535 {
            errors := errors + 1;
          }
          pa := pa.(port := Assigned(tmp));
        case InterfaceOpt(a) =>
          pa := pa.(interface := Some(a));
        case LogOpt(a) =>
          pa := pa.(logPath := Some(a));
        case AuthOpt(a) =>
          pa := pa.(authPath := Some(a));
        case SocketOpt(a) =>
          pa := pa.(controlPath := a);
        case Unrecognised(_) =>
      }
      i := i + 1;
    }
    assert opts[..i] == opts;
    BadPortsZero(opts);
    if errors > 0 {
      return Exit(1);
    }
    r := Ok(pa);
  }

  /** `opts[i]` is the last `-p` option. */
  predicate LastPortAt(opts: seq<Opt>, i: int)
  {
    0 <= i < |opts| && opts[i].PortOpt? && forall j :: i < j < |opts| ==> !opts[j].PortOpt?
  }

  /** `opts[i]` is the last `-s` option. */
  predicate LastSocketAt(opts: seq<Opt>, i: int)
  {
    0 <= i < |opts| && opts[i].SocketOpt? && forall j :: i < j < |opts| ==> !opts[j].SocketOpt?
  }

  /** `opts[i]` is the last `-i` option. */
  predicate LastInterfaceAt(opts: seq<Opt>, i: int)
  {
    0 <= i < |opts| && opts[i].InterfaceOpt? && forall j :: i < j < |opts| ==> !opts[j].InterfaceOpt?
  }

  /** `port` holds the value of the last `-p`, or its starting value if there is none. */
  lemma {:induction false} LastPortWins(pa: ProgramArgs, opts: seq<Opt>)
    ensures (forall i :: 0 <= i < |opts| ==> !opts[i].PortOpt?) ==> ApplyAll(pa, opts).port == pa.port
    ensures forall i :: LastPortAt(opts, i) ==> ApplyAll(pa, opts).port == Assigned(opts[i].value)
  {
    if opts != [] {
      var init := opts[..|opts| - 1];
      LastPortWins(pa, init);
      forall i | LastPortAt(opts, i)
        ensures ApplyAll(pa, opts).port == Assigned(opts[i].value)
      {
        if i < |opts| - 1 {
          assert LastPortAt(init, i);
        }
      }
    }
  }

  /** `controlPath` holds the argument of the last `-s`, or its starting value. */
  lemma {:induction false} LastSocketWins(pa: ProgramArgs, opts: seq<Opt>)
    ensures (forall i :: 0 <= i < |opts| ==> !opts[i].SocketOpt?) ==> ApplyAll(pa, opts).controlPath == pa.controlPath
    ensures forall i :: LastSocketAt(opts, i) ==> ApplyAll(pa, opts).controlPath == opts[i].arg
  {
    if opts != [] {
      var init := opts[..|opts| - 1];
      LastSocketWins(pa, init);
      forall i | LastSocketAt(opts, i)
        ensures ApplyAll(pa, opts).controlPath == opts[i].arg
      {
        if i < |opts| - 1 {
          assert LastSocketAt(init, i);
        }
      }
    }
  }

  /** `interface` holds the argument of the last `-i`, or its starting value. */
  lemma {:induction false} LastInterfaceWins(pa: ProgramArgs, opts: seq<Opt>)
    ensures (forall i :: 0 <= i < |opts| ==> !opts[i].InterfaceOpt?) ==> ApplyAll(pa, opts).interface == pa.interface
    ensures forall i :: LastInterfaceAt(opts, i) ==> ApplyAll(pa, opts).interface == Some(opts[i].arg)
  {
    if opts != [] {
      var init := opts[..|opts| - 1];
      LastInterfaceWins(pa, init);
      forall i | LastInterfaceAt(opts, i)
        ensures ApplyAll(pa, opts).interface == Some(opts[i].arg)
      {
        if i < |opts| - 1 {
          assert LastInterfaceAt(init, i);
        }
      }
    }
  }

  /** Without `-s` the control socket is "./control-socket". */
  lemma DefaultControlPath(opts: seq<Opt>)
    ensures (forall i :: 0 <= i < |opts| ==> !opts[i].SocketOpt?) ==>
      ApplyAll(Initial(), opts).controlPath == DEFAULT_CONTROL_SOCKET
  {
    LastSocketWins(Initial(), opts);
  }

  /** An unrecognised option neither changes the record nor counts as an error. */
  lemma UnknownOptionIgnored(pa: ProgramArgs, opts: seq<Opt>, letter: char)
    ensures ApplyAll(pa, opts + [Unrecognised(letter)]) == ApplyAll(pa, opts)
    ensures BadPorts(opts + [Unrecognised(letter)]) == BadPorts(opts)
  {
    assert (opts + [Unrecognised(letter)])[..|opts|] == opts;
  }

  /** As written, an accepted command line without `-p` leaves `port`
      unwritten: the listener is then given an indeterminate value. */
  lemma PortUnassignedWithoutFlag(opts: seq<Opt>)
    requires forall i :: 0 <= i < |opts| ==> !opts[i].PortOpt?
    ensures ApplyAll(Initial(), opts).port == Unassigned
  {
    LastPortWins(Initial(), opts);
  }

  /** Port value meaning "let the system choose" (ephemeral). */
  const EPHEMERAL: int := 0

  /** The record the usage text describes: `-p` defaults to ephemeral. */
  function IntendedInitial(): ProgramArgs
  {
    Initial().(port := Assigned(EPHEMERAL))
  }

  /** `parse_args` as intended: the same checks, starting from port 0. */
  function IntendedParseArgs(opts: seq<Opt>): (r: Outcome<ProgramArgs>)
  {
    if BadPorts(opts) > 0 then Exit(1) else Ok(ApplyAll(IntendedInitial(), opts))
  }

  /** With the intended default every accepted command line has a definite
      port: 0 (ephemeral) without `-p`, otherwise the last `-p`, in 1..65534.
      Every other field is as `parse_args` leaves it. */
  lemma IntendedPortAlwaysDefined(opts: seq<Opt>)
    ensures IntendedParseArgs(opts).Ok? <==> forall i :: 0 <= i < |opts| ==> !IsBadPort(opts[i])
    ensures var r := IntendedParseArgs(opts);
      r.Ok? ==> (r.value.port.Assigned? &&
        (r.value.port.value == EPHEMERAL || ValidPort(r.value.port.value)))
    ensures var r := IntendedParseArgs(opts);
      r.Ok? ==> r.value.(port := Unassigned) == ApplyAll(Initial(), opts).(port := Unassigned)
    ensures var r := IntendedParseArgs(opts);
      r.Ok? && (forall i :: 0 <= i < |opts| ==> !opts[i].PortOpt?) ==> r.value.port == Assigned(EPHEMERAL)
  {
    BadPortsZero(opts);
    SameExceptPort(opts);
    LastPortWins(IntendedInitial(), opts);
    var q := ApplyAll(IntendedInitial(), opts).port;
    IntendedPortIn(IntendedInitial(), opts);
    if BadPorts(opts) == 0 && q.value != EPHEMERAL {
      var i :| 0 <= i < |opts| && opts[i] == PortOpt(q.value);
      assert !IsBadPort(opts[i]);
    }
  }

  lemma {:induction false} IntendedPortIn(pa: ProgramArgs, opts: seq<Opt>)
    requires pa.port == Assigned(EPHEMERAL)
    ensures var q := ApplyAll(pa, opts).port;
      q.Assigned? && (q.value == EPHEMERAL || exists i :: 0 <= i < |opts| && opts[i] == PortOpt(q.value))
  {
    if opts != [] {
      var init := opts[..|opts| - 1];
      IntendedPortIn(pa, init);
      var q := ApplyAll(pa, init).port;
      if q.value != EPHEMERAL {
        var i :| 0 <= i < |init| && init[i] == PortOpt(q.value);
        assert opts[i] == PortOpt(q.value);
      }
    }
  }

  /** Starting from either record, only `port` can differ. */
  lemma {:induction false} SameExceptPort(opts: seq<Opt>)
    ensures ApplyAll(IntendedInitial(), opts).(port := Unassigned) == ApplyAll(Initial(), opts).(port := Unassigned)
  {
    if opts != [] {
      SameExceptPort(opts[..|opts| - 1]);
    }
  }

  /** The filesystem after `cleanup`: the registered control path removed,
      nothing removed when no path is registered. */
  function CleanedUp(controlPath: Option<CString>, paths: set<CString>): set<CString>
  {
    match controlPath
    case None => paths
    case Some(p) => paths - {p}
  }

  /** `cleanup` removes the control path and nothing else. */
  lemma CleanupRemovesOnlyControlPath(controlPath: Option<CString>, paths: set<CString>)
    ensures forall q :: q in CleanedUp(controlPath, paths) <==> q in paths && controlPath != Some(q)
  {
  }

  /** A second `cleanup` changes nothing. */
  lemma CleanupIdempotent(controlPath: Option<CString>, paths: set<CString>)
    ensures CleanedUp(controlPath, CleanedUp(controlPath, paths)) == CleanedUp(controlPath, paths)
  {
  }

  /** The globals of thomas.c that teardown depends on, and the filesystem. */
  class Process {
    /** The global `controlPath`: NULL until the control socket is bound. */
    var controlPath: Option<CString>
    /** Whether `cleanup` has been registered with `atexit`. */
    var cleanupAtExit: bool
    /** The status passed to `exit`, once the process has ended. */
    var exitStatus: Option<int>
    const fs: FileSystem

    /** `main` before the sockets are opened: `controlPath = NULL`. */
    constructor (fs: FileSystem)
      ensures this.fs == fs && controlPath == None && !cleanupAtExit && exitStatus == None
    {
      this.fs := fs;
      controlPath := None;
      cleanupAtExit := false;
      exitStatus := None;
    }

    /** `cleanup`: unlink the registered control path, if any. */
    method Cleanup()
      modifies fs
      ensures fs.paths == CleanedUp(controlPath, old(fs.paths))
    {
      if controlPath.Some? {
        fs.Unlink(controlPath.value);
      }
    }

    /** `exit(status)`: the handlers registered with `atexit` run, then the
        process ends with `status`. */
    method Exit(status: int)
      modifies this, fs
      ensures controlPath == old(controlPath) && cleanupAtExit == old(cleanupAtExit)
      ensures exitStatus == Some(status)
      ensures fs.paths == if cleanupAtExit then CleanedUp(controlPath, old(fs.paths)) else old(fs.paths)
    {
      if cleanupAtExit {
        Cleanup();
      }
      exitStatus := Some(status);
    }

    /** `handle_sigint`: clean up, then `exit(sig)`, which cleans up again
        when `cleanup` was registered; the second run removes nothing more. */
    method HandleSigint(sig: int)
      modifies this, fs
      ensures controlPath == old(controlPath) && cleanupAtExit == old(cleanupAtExit)
      ensures exitStatus == Some(sig)
      ensures fs.paths == CleanedUp(controlPath, old(fs.paths))
    {
      Cleanup();
      Exit(sig);
      CleanupIdempotent(controlPath, old(fs.paths));
    }

    /** thomas.c after the user listener is running: bind the control socket
        (`controlSock` is the descriptor `socket` returned), and only once it is
        bound record its path and register `cleanup` at exit; then declare the
        admin registry and hand it, zeroed, to the admin accept thread. */
    method OpenControlEndpoint(path: CString, controlSock: int, bindAccepted: bool, progStats: ProgStats)
      returns (master: Option<AdminMasterThreadArgs>)
      requires controlPath == None && !cleanupAtExit && exitStatus == None
      modifies this, fs
      ensures master.Some? <==> |path| <= SUN_PATH_SIZE - 1 && bindAccepted
      ensures master.Some? ==>
        controlPath == Some(path) && cleanupAtExit && exitStatus == None &&
        fs.paths == old(fs.paths) + {path}
      ensures master.Some? ==>
        var m := master.value;
        m.fd == controlSock && m.progStats == progStats && fresh(m.adminStats) &&
        m.adminStats.Valid() && m.adminStats.counter == 0 && m.adminStats.issued == []
      ensures master.None? ==> controlPath == None && !cleanupAtExit && exitStatus == Some(1)
      ensures master.None? && |path| > SUN_PATH_SIZE - 1 ==> fs.paths == old(fs.paths)
      ensures master.None? && |path| <= SUN_PATH_SIZE - 1 ==> fs.paths == old(fs.paths) - {path}
    {
      var bound := MakeControlSocket(fs, path, bindAccepted);
      if bound.Exit? {
        Exit(bound.status);
        return None;
      }
      controlPath := Some(path);
      cleanupAtExit := true;
      var adminStats := new AdminStats.Declare();
      var m := AdminBeginProcessing(controlSock, adminStats, progStats);
      master := Some(m);
    }
  }
}
