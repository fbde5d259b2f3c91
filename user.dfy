/** The public echo service (user.c): the per-connection worker
    `user_client_thread` and the accept loop `user_process_connections`. */
module User {
  import opened Common
  import opened Socket
  import opened Transform
  import opened Stats

  /** Size of the worker's stack buffer, the most one `read` returns. */
  const BUFFER_SIZE: int := 1024

  /** The greeting written to a newly accepted client whose name was resolved. */
  function Welcome(): (r: seq<byte>)
    ensures |r| == 11 && r[|r| - 1] == NEWLINE
  {
    Ascii("Welcome...\n")
  }

  /** `UserThreadArgs`: the accepted descriptor and the shared registry. */
  datatype UserThreadArgs = UserThreadArgs(fd: int, progStats: ProgStats)

  lemma ReadKeepsStream(returned: seq<seq<byte>>, pending: seq<seq<byte>>, n: int)
    requires pending != [] && 0 < n <= |pending[0]|
    ensures Concat(returned + [pending[0][..n]]) + Concat(AfterRead(pending[0], pending[1..], n))
      == Concat(returned) + Concat(pending)
    ensures |Concat(AfterRead(pending[0], pending[1..], n))| == |Concat(pending)| - n
  {
    var head, rest := pending[0], pending[1..];
    ConcatAppend(returned, [head[..n]]);
    ConcatSingle(head[..n]);
    AfterReadConcat(head, rest, n);
    ConcatCons(head, rest);
    assert pending == [head] + rest;
    AssociateSplit(Concat(returned), head, n, Concat(rest));
  }

  lemma AssociateSplit(before: seq<byte>, head: seq<byte>, n: int, after: seq<byte>)
    requires 0 <= n <= |head|
    ensures (before + head[..n]) + (head[n..] + after) == before + (head + after)
  {
    assert head == head[..n] + head[n..];
  }

  /** One pass of the loop in `user_client_thread`: read into the buffer and,
      when the read returned bytes, write them back capitalised. */
  method EchoOnce(conn: Conn, buffer: array<byte>) returns (n: int)
    requires conn.Valid() && buffer.Length == BUFFER_SIZE
    modifies conn, buffer
    ensures conn.Valid()
    ensures conn.ending == old(conn.ending) && conn.closed == old(conn.closed)
    ensures n <= 0 ==>
      old(conn.incoming) == [] && conn.incoming == [] &&
      n == (if conn.ending == PeerClosed then 0 else -1) &&
      conn.delivered == old(conn.delivered) && conn.written == old(conn.written)
    ensures n > 0 ==>
      old(conn.incoming) != [] && 0 < n <= BUFFER_SIZE && n <= |old(conn.incoming)[0]| &&
      var got := old(conn.incoming)[0][..n];
      && conn.delivered == old(conn.delivered) + [got]
      && conn.written == old(conn.written) + [Capitalised(got)]
      && got + Concat(conn.incoming) == Concat(old(conn.incoming))
      && |Concat(conn.incoming)| < |Concat(old(conn.incoming))|
  {
    ghost var before := conn.incoming;
    n := conn.Read(buffer, BUFFER_SIZE);
    if n <= 0 {
      return;
    }
    ghost var got := before[0][..n];
    ReadKeepsStream([], before, n);
    ConcatSingle(got);
    assert [] + [got] == [got];
    var _ := Capitalise(buffer, n);
    assert buffer[..n] == Capitalised(got);
    conn.Write(buffer, n);
  }

  /** One more read keeps "returned so far, then pending" equal to the whole stream. */
  lemma StepKeepsStream(returned: seq<seq<byte>>, got: seq<byte>, pending: seq<seq<byte>>, whole: seq<byte>)
    requires Concat(returned) + (got + Concat(pending)) == whole
    ensures Concat(returned + [got]) + Concat(pending) == whole
  {
    ConcatAppend(returned, [got]);
    ConcatSingle(got);
  }

  /** `user_client_thread`: count the user in, answer every read with one
      write of the same bytes capitalised, and on end of stream close the
      connection and count the user out. A read error ends the process with
      status 1 before the connection is closed or the count decremented. */
  method UserClientThread(args: UserThreadArgs, conn: Conn, ghost session: nat) returns (exit: Option<int>)
    requires conn.fd == args.fd && conn.Valid()
    requires args.progStats.Valid() && session !in args.progStats.live
    modifies args.progStats, conn
    ensures conn.incoming == [] && conn.ending == old(conn.ending)
    ensures |old(conn.delivered)| <= |conn.delivered|
    ensures var got := conn.delivered[|old(conn.delivered)|..];
      && Concat(got) == Concat(old(conn.incoming))
      && (forall i :: 0 <= i < |got| ==> 0 < |got[i]| <= BUFFER_SIZE)
      && conn.written == old(conn.written) + CapitalisedEach(got)
    ensures exit == if old(conn.ending) == PeerClosed then None else Some(1)
    ensures conn.closed == (old(conn.closed) || old(conn.ending) == PeerClosed)
    ensures args.progStats.Valid()
    ensures old(conn.ending) == PeerClosed ==>
      args.progStats.currentUsers == old(args.progStats.currentUsers) &&
      args.progStats.live == old(args.progStats.live)
    ensures old(conn.ending) == Failed ==>
      args.progStats.currentUsers == old(args.progStats.currentUsers) + 1 &&
      args.progStats.live == old(args.progStats.live) + {session}
  {
    var stats := args.progStats;
    stats.IncrementUsers(session);
    var buffer := new byte[BUFFER_SIZE];
    ghost var returned: seq<seq<byte>> := [];
    var n: int;
    while true
      invariant conn.Valid()
      invariant conn.ending == old(conn.ending) && conn.closed == old(conn.closed)
      invariant conn.delivered == old(conn.delivered) + returned
      invariant Concat(returned) + Concat(conn.incoming) == Concat(old(conn.incoming))
      invariant forall i :: 0 <= i < |returned| ==> 0 < |returned[i]| <= BUFFER_SIZE
      invariant conn.written == old(conn.written) + CapitalisedEach(returned)
      invariant stats.Valid()
      invariant stats.currentUsers == old(stats.currentUsers) + 1
      invariant stats.live == old(stats.live) + {session}
      decreases |Concat(conn.incoming)|
    {
      ghost var pending := conn.incoming;
      n := EchoOnce(conn, buffer);
      if n <= 0 {
        break;
      }
      ghost var got := pending[0][..n];
      StepKeepsStream(returned, got, conn.incoming, Concat(old(conn.incoming)));
      CapitalisedEachAppend(returned, [got]);
      assert CapitalisedEach([got]) == [Capitalised(got)];
      returned := returned + [got];
    }
    assert conn.delivered[|old(conn.delivered)|..] == returned;
    if n < 0 {
      exit := Some(1);
      return;
    }
    conn.Close();
    stats.DecrementUsers(session);
    exit := None;
  }

  /** What `accept` hands the loop: a descriptor (negative on failure) and
      whether `getnameinfo` resolved the peer's name. */
  datatype Accepted = Accepted(fd: int, hostnameResolved: bool)

  /** What the accept loop does that others can see, in order. */
  datatype ListenerEvent =
    | WriteTo(fd: int, text: seq<byte>)   // a write on the new connection
    | Spawn(args: UserThreadArgs)         // a detached worker started with these arguments

  /** The events for one successful accept: the greeting (only when the name
      was resolved), then the worker with its own argument record. */
  function AcceptEvents(a: Accepted, progStats: ProgStats): seq<ListenerEvent>
  {
    (if a.hostnameResolved then [WriteTo(a.fd, Welcome())] else [])
      + [Spawn(UserThreadArgs(a.fd, progStats))]
  }

  function AcceptedEvents(accepts: seq<Accepted>, progStats: ProgStats): seq<ListenerEvent>
  {
    if accepts == [] then []
    else AcceptedEvents(accepts[..|accepts| - 1], progStats) + AcceptEvents(accepts[|accepts| - 1], progStats)
  }

  /** Index of the first failed accept, or the number of accepts if none failed. */
  function FirstFailedAccept(accepts: seq<Accepted>): (k: nat)
    ensures k <= |accepts|
    ensures forall i :: 0 <= i < k ==> accepts[i].fd >= 0
    ensures k < |accepts| ==> accepts[k].fd < 0
  {
    if accepts == [] || accepts[0].fd < 0 then 0 else 1 + FirstFailedAccept(accepts[1..])
  }

  /** `user_process_connections` over a finite run of accepts: every accept
      before the first failure gets its greeting and worker; a failed accept
      ends the process with status 1. */
  method UserProcessConnections(accepts: seq<Accepted>, progStats: ProgStats)
    returns (events: seq<ListenerEvent>, exit: Option<int>)
    ensures var k := FirstFailedAccept(accepts);
      && events == AcceptedEvents(accepts[..k], progStats)
      && exit == if k < |accepts| then Some(1) else None
  {
    events := [];
    var i := 0;
    while i < |accepts|
      invariant 0 <= i <= FirstFailedAccept(accepts)
      invariant events == AcceptedEvents(accepts[..i], progStats)
    {
      var a := accepts[i];
      if a.fd < 0 {
        exit := Some(1);
        return;
      }
      var threadArgs := UserThreadArgs(a.fd, progStats);
      if a.hostnameResolved {
        events := events + [WriteTo(a.fd, Welcome())];
      }
      events := events + [Spawn(threadArgs)];
      assert accepts[..i + 1][..i] == accepts[..i];
      i := i + 1;
    }
    assert accepts[..i] == accepts;
    exit := None;
  }

  /** The workers started, in order. */
  function Spawned(events: seq<ListenerEvent>): seq<UserThreadArgs>
  {
    if events == [] then []
    else
      var last := events[|events| - 1];
      Spawned(events[..|events| - 1]) + (if last.Spawn? then [last.args] else [])
  }

  /** The descriptors the greeting was written to, in order. */
  function Greeted(events: seq<ListenerEvent>): seq<int>
  {
    if events == [] then []
    else
      var last := events[|events| - 1];
      Greeted(events[..|events| - 1]) + (if last.WriteTo? then [last.fd] else [])
  }

  lemma {:induction false} SpawnedAppend(a: seq<ListenerEvent>, b: seq<ListenerEvent>)
    ensures Spawned(a + b) == Spawned(a) + Spawned(b)
    ensures Greeted(a + b) == Greeted(a) + Greeted(b)
    decreases |b|
  {
    if b != [] {
      assert (a + b)[..|a + b| - 1] == a + b[..|b| - 1];
      SpawnedAppend(a, b[..|b| - 1]);
    } else {
      assert a + b == a;
    }
  }

  /** Each accepted connection gets exactly one worker, in accept order,
      whose arguments hold that connection's descriptor and the shared registry. */
  lemma {:induction false} OneWorkerPerAccept(accepts: seq<Accepted>, progStats: ProgStats)
    ensures Spawned(AcceptedEvents(accepts, progStats))
         == seq(|accepts|, i requires 0 <= i < |accepts| => UserThreadArgs(accepts[i].fd, progStats))
    decreases |accepts|
  {
    if accepts != [] {
      var init := accepts[..|accepts| - 1];
      var a := accepts[|accepts| - 1];
      OneWorkerPerAccept(init, progStats);
      SpawnedAppend(AcceptedEvents(init, progStats), AcceptEvents(a, progStats));
      var w := if a.hostnameResolved then [WriteTo(a.fd, Welcome())] else [];
      SpawnedAppend(w, [Spawn(UserThreadArgs(a.fd, progStats))]);
      assert Spawned([Spawn(UserThreadArgs(a.fd, progStats))])
          == Spawned([]) + [UserThreadArgs(a.fd, progStats)];
    }
  }

  /** The descriptors of the accepts whose peer name was resolved, in order. */
  function ResolvedFds(accepts: seq<Accepted>): seq<int>
  {
    if accepts == [] then []
    else
      var last := accepts[|accepts| - 1];
      ResolvedFds(accepts[..|accepts| - 1]) + (if last.hostnameResolved then [last.fd] else [])
  }

  /** Exactly the connections whose peer name was resolved are greeted, in order. */
  lemma {:induction false} GreetedIffResolved(accepts: seq<Accepted>, progStats: ProgStats)
    ensures Greeted(AcceptedEvents(accepts, progStats)) == ResolvedFds(accepts)
    ensures |Greeted(AcceptedEvents(accepts, progStats))| <= |accepts|
    ensures (forall i :: 0 <= i < |accepts| ==> accepts[i].hostnameResolved) ==>
      Greeted(AcceptedEvents(accepts, progStats))
        == seq(|accepts|, i requires 0 <= i < |accepts| => accepts[i].fd)
    ensures (forall i :: 0 <= i < |accepts| ==> !accepts[i].hostnameResolved) ==>
      Greeted(AcceptedEvents(accepts, progStats)) == []
    decreases |accepts|
  {
    if accepts != [] {
      var init := accepts[..|accepts| - 1];
      var a := accepts[|accepts| - 1];
      GreetedIffResolved(init, progStats);
      SpawnedAppend(AcceptedEvents(init, progStats), AcceptEvents(a, progStats));
      var w := if a.hostnameResolved then [WriteTo(a.fd, Welcome())] else [];
      SpawnedAppend(w, [Spawn(UserThreadArgs(a.fd, progStats))]);
      assert Greeted([Spawn(UserThreadArgs(a.fd, progStats))]) == Greeted([]) + [];
      if a.hostnameResolved {
        assert Greeted(w) == Greeted([]) + [a.fd];
      }
    }
  }
}
