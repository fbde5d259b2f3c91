/** The operating-system objects the server touches, as sequential state:
    a connected stream socket and the set of paths present in the filesystem. */
module Socket {
  import opened Common

  /** What `read` reports once everything the peer sent has been returned. */
  datatype StreamEnd = PeerClosed | Failed

  /** What is left pending after a read of `n` bytes from the segment `head`. */
  function AfterRead(head: seq<byte>, rest: seq<seq<byte>>, n: int): seq<seq<byte>>
    requires 0 < n <= |head|
  {
    (if n == |head| then [] else [head[n..]]) + rest
  }

  lemma AfterReadConcat(head: seq<byte>, rest: seq<seq<byte>>, n: int)
    requires 0 < n <= |head|
    ensures Concat(AfterRead(head, rest, n)) == head[n..] + Concat(rest)
  {
    if n == |head| {
      assert AfterRead(head, rest, n) == rest;
    } else {
      ConcatCons(head[n..], rest);
    }
  }

  /** One connected stream socket, seen from the server.
      `incoming` holds the data the peer sent that no `read` has returned yet,
      one entry per segment as it arrived; `written` logs every `write`. */
  class Conn {
    const fd: int
    var incoming: seq<seq<byte>>
    var ending: StreamEnd
    var written: seq<seq<byte>>
    var closed: bool
    /** What each successful `read` returned, in order. */
    ghost var delivered: seq<seq<byte>>

    ghost predicate Valid()
      reads this
    {
      forall i :: 0 <= i < |incoming| ==> incoming[i] != []
    }

    constructor (fd: int, segments: seq<seq<byte>>, ending: StreamEnd)
      requires forall i :: 0 <= i < |segments| ==> segments[i] != []
      ensures Valid() && this.fd == fd && incoming == segments && this.ending == ending
      ensures written == [] && delivered == [] && !closed
    {
      this.fd := fd;
      incoming := segments;
      this.ending := ending;
      written := [];
      delivered := [];
      closed := false;
    }

    /** `read(fd, buf, count)`: at most `count` bytes of the oldest pending
        segment, else 0 after an orderly close by the peer, else -1. */
    method Read(buf: array<byte>, count: int) returns (n: int)
      requires Valid() && 0 < count <= buf.Length
      modifies this, buf
      ensures Valid()
      ensures ending == old(ending) && written == old(written) && closed == old(closed)
      ensures old(incoming) == [] ==>
        n == (if ending == PeerClosed then 0 else -1) &&
        incoming == [] && delivered == old(delivered) && buf[..] == old(buf[..])
      ensures old(incoming) != [] ==>
        var head := old(incoming)[0];
        n == (if |head| <= count then |head| else count) &&
        buf[..n] == head[..n] && buf[n..] == old(buf[n..]) &&
        delivered == old(delivered) + [head[..n]] &&
        incoming == AfterRead(head, old(incoming)[1..], n)
    {
      if incoming == [] {
        n := if ending == PeerClosed then 0 else -1;
        return;
      }
      var head := incoming[0];
      n := if |head| <= count then |head| else count;
      forall k | 0 <= k < n {
        buf[k] := head[k];
      }
      delivered := delivered + [head[..n]];
      incoming := AfterRead(head, incoming[1..], n);
    }

    /** `write(fd, buf, n)`: the first `n` bytes of `buf` are sent as one write. */
    method Write(buf: array<byte>, n: int)
      requires 0 <= n <= buf.Length
      modifies this
      ensures written == old(written) + [buf[..n]]
      ensures incoming == old(incoming) && ending == old(ending) && closed == old(closed)
      ensures delivered == old(delivered)
    {
      written := written + [buf[..n]];
    }

    /** A write of formatted text (the status line of admin.c:42-45). */
    method Send(text: seq<byte>)
      modifies this
      ensures written == old(written) + [text]
      ensures incoming == old(incoming) && ending == old(ending) && closed == old(closed)
      ensures delivered == old(delivered)
    {
      written := written + [text];
    }

    method Close()
      modifies this
      ensures closed
      ensures incoming == old(incoming) && ending == old(ending) && written == old(written)
      ensures delivered == old(delivered)
    {
      closed := true;
    }
  }

  /** The paths that exist in the filesystem. */
  class FileSystem {
    var paths: set<CString>

    constructor (paths: set<CString>)
      ensures this.paths == paths
    {
      this.paths := paths;
    }

    /** `unlink(path)`: removes the path; a missing path is an ignored error. */
    method Unlink(path: CString)
      modifies this
      ensures paths == old(paths) - {path}
    {
      paths := paths - {path};
    }

    /** `bind` of a local socket: fails when the path already exists or the
        operating system refuses (`osAccepts` false); otherwise creates the path. */
    method Bind(path: CString, osAccepts: bool) returns (ok: bool)
      modifies this
      ensures ok == (osAccepts && path !in old(paths))
      ensures paths == if ok then old(paths) + {path} else old(paths)
    {
      ok := osAccepts && path !in paths;
      if ok {
        paths := paths + {path};
      }
    }
  }
}
