/** The administrative channel (admin.c): the control socket's path check,
    the single-shot admin worker, and the admin accept loop. */
module Admin {
  import opened Common
  import opened Socket
  import opened Decimal
  import opened Stats

  /** Size of `sun_path` in `struct sockaddr_un` on the target platform. */
  const SUN_PATH_SIZE: int := 104

  /** The check and `strcpy` at the start of `make_control_socket`: a path
      longer than 103 bytes ends the process with status 1; otherwise
      `sun_path` holds the path and its terminator. */
  function SunPath(path: CString): (r: Outcome<seq<byte>>)
    ensures r.Ok? <==> |path| <= SUN_PATH_SIZE - 1
    ensures r.Exit? ==> r.status == 1
    ensures r.Ok? ==> |r.value| == |path| + 1 <= SUN_PATH_SIZE
    ensures r.Ok? ==> r.value[..|path|] == path && r.value[|path|] == NUL
  {
    if |path| > SUN_PATH_SIZE - 1 then Exit(1) else Ok(path + [NUL])
  }

  /** `make_control_socket`: reject an over-long path before touching the
      filesystem, remove any stale entry at the path, then bind (which creates
      it). A refused bind ends the process with status 1. `bindAccepted` is the
      operating system's answer, given the path is free. */
  method MakeControlSocket(fs: FileSystem, path: CString, bindAccepted: bool) returns (r: Outcome<seq<byte>>)
    modifies fs
    ensures |path| > SUN_PATH_SIZE - 1 ==> r == Exit(1) && fs.paths == old(fs.paths)
    ensures |path| <= SUN_PATH_SIZE - 1 && bindAccepted ==>
      r == SunPath(path) && fs.paths == old(fs.paths) + {path}
    ensures |path| <= SUN_PATH_SIZE - 1 && !bindAccepted ==>
      r == Exit(1) && fs.paths == old(fs.paths) - {path}
  {
    var sunPath := SunPath(path);
    if sunPath.Exit? {
      return sunPath;
    }
    fs.Unlink(path);
    var bound := fs.Bind(path, bindAccepted);
    if !bound {
      return Exit(1);
    }
    r := sunPath;
  }

  function StatusPrefix(): seq<byte> { Ascii("hello! we have ") }
  function StatusSuffix(): seq<byte> { Ascii(" users! goodbye!\n") }

  /** The line `fprintf(write, "hello! we have %d users! goodbye!\n", users)`. */
  function StatusLine(users: int): seq<byte>
  {
    StatusPrefix() + DecimalText(users) + StatusSuffix()
  }

  /** The count can be read back from the status line: between the fixed
      prefix and suffix stands the decimal text of exactly that count. */
  lemma StatusLineReports(users: int)
    ensures var line := StatusLine(users);
      && |line| > |StatusPrefix()| + |StatusSuffix()|
      && line[..|StatusPrefix()|] == StatusPrefix()
      && line[|line| - |StatusSuffix()|..] == StatusSuffix()
      && WellFormed(line[|StatusPrefix()|..|line| - |StatusSuffix()|])
      && ParseDecimal(line[|StatusPrefix()|..|line| - |StatusSuffix()|]) == users
  {
    var line := StatusLine(users);
    assert line[|StatusPrefix()|..|line| - |StatusSuffix()|] == DecimalText(users);
    DecimalRoundTrip(users);
  }

  /** Different counts give different status lines. */
  lemma StatusLineInjective(a: int, b: int)
    requires StatusLine(a) == StatusLine(b)
    ensures a == b
  {
    StatusLineReports(a);
    StatusLineReports(b);
  }

  /** `AdminClientThreadArgs`, without the peer address. */
  datatype AdminClientThreadArgs = AdminClientThreadArgs(fd: int, adminStats: AdminStats, progStats: ProgStats)

  /** `admin_client_thread`: take the next admin id, write one status line
      with the current user count, and close. Nothing is read from the client
      and the user count is not changed. */
  method AdminClientThread(args: AdminClientThreadArgs, conn: Conn) returns (adminId: int)
    requires conn.fd == args.fd
    requires args.adminStats.Valid() && args.progStats.Valid()
    modifies args.adminStats, conn
    ensures args.adminStats.Valid()
    ensures adminId == old(args.adminStats.counter) + 1 && args.adminStats.counter == adminId
    ensures args.adminStats.issued == old(args.adminStats.issued) + [adminId]
    ensures conn.written == old(conn.written) + [StatusLine(args.progStats.currentUsers)]
    ensures conn.closed
    ensures conn.incoming == old(conn.incoming) && conn.delivered == old(conn.delivered)
    ensures conn.ending == old(conn.ending)
    ensures args.progStats.currentUsers == old(args.progStats.currentUsers)
  {
    adminId := args.adminStats.NextAdminId();
    var users := args.progStats.SnapshotUsers();
    conn.Send(StatusLine(users));
    conn.Close();
  }

  /** `AdminMasterThreadArgs`. */
  datatype AdminMasterThreadArgs = AdminMasterThreadArgs(fd: int, adminStats: AdminStats, progStats: ProgStats)

  /** `admin_begin_processing`: zero the admin counter, then hand the
      listening socket and both registries to the accept thread. */
  method AdminBeginProcessing(sock: int, adminStats: AdminStats, progStats: ProgStats)
    returns (master: AdminMasterThreadArgs)
    modifies adminStats
    ensures adminStats.Valid() && adminStats.counter == 0 && adminStats.issued == []
    ensures master == AdminMasterThreadArgs(sock, adminStats, progStats)
  {
    adminStats.Reset();
    master := AdminMasterThreadArgs(sock, adminStats, progStats);
  }

  /** Index of the first `accept` that returned -1, or the number of accepts. */
  function FirstRefusal(accepted: seq<int>): (k: nat)
    ensures k <= |accepted|
    ensures forall i :: 0 <= i < k ==> accepted[i] != -1
    ensures k < |accepted| ==> accepted[k] == -1
  {
    if accepted == [] || accepted[0] == -1 then 0 else 1 + FirstRefusal(accepted[1..])
  }

  /** `admin_process_connections` over a finite run of `accept` results: one
      worker per accepted socket, in order, each with its own argument record
      sharing both registries; a result of -1 ends the process with status 1. */
  method AdminProcessConnections(master: AdminMasterThreadArgs, accepted: seq<int>)
    returns (spawned: seq<AdminClientThreadArgs>, exit: Option<int>)
    ensures var k := FirstRefusal(accepted);
      && |spawned| == k
      && (forall i :: 0 <= i < k ==>
            spawned[i] == AdminClientThreadArgs(accepted[i], master.adminStats, master.progStats))
      && exit == if k < |accepted| then Some(1) else None
  {
    spawned := [];
    var i := 0;
    while i < |accepted|
      invariant 0 <= i <= FirstRefusal(accepted)
      invariant |spawned| == i
      invariant forall j :: 0 <= j < i ==>
        spawned[j] == AdminClientThreadArgs(accepted[j], master.adminStats, master.progStats)
    {
      var newSock := accepted[i];
      if newSock == -1 {
        exit := Some(1);
        return;
      }
      spawned := spawned + [AdminClientThreadArgs(newSock, master.adminStats, master.progStats)];
      i := i + 1;
    }
    exit := None;
  }
}
