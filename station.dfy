/** The station program (station.c): its error table, the growing-buffer
    line reader, and argument validation. */
module Station {
  import opened Common

  /** What `error(e)` does: the text written to stderr, then `exit(status)`. */
  datatype ErrorExit = ErrorExit(text: string, status: int)

  /** The codes `error` has a dedicated message for. */
  predicate KnownCode(e: int)
  {
    1 <= e <= 7 || e == 99
  }

  /** The `switch` in `error`. */
  function ErrorMessage(e: int): (msg: string)
    ensures e == 0 <==> msg == ""
    ensures e != 0 && !KnownCode(e) ==> msg == "Unknown error"
    ensures KnownCode(e) ==> msg != "Unknown error"
  {
    match e
    case 1 => "Usage: station name authfile log-file [port] [host]"
    case 2 => "Invalid name/auth"
    case 3 => "Unable to open log"
    case 4 => "Invalid port"
    case 5 => "Listen error"
    case 6 => "Unable to connect to station"
    case 7 => "Duplicate station names"
    case 99 => "Unspecified system call failure"
    case 0 => ""
    case _ => "Unknown error"
  }

  /** `error(e)`: the message, followed by a newline unless `e` is 0, then `exit(e)`. */
  function Error(e: int): (r: ErrorExit)
    ensures r.status == e
    ensures e == 0 ==> r.text == ""
    ensures e != 0 ==>
      (|r.text| >= 2 && r.text[|r.text| - 1] == '\n' && r.text[..|r.text| - 1] == ErrorMessage(e))
  {
    ErrorExit(if e != 0 then ErrorMessage(e) + "\n" else ErrorMessage(e), e)
  }

  /** Distinct known codes print distinct messages, so the message names the code. */
  lemma KnownMessagesDistinct(a: int, b: int)
    requires KnownCode(a) && KnownCode(b) && a != b
    ensures ErrorMessage(a) != ErrorMessage(b)
  {
    assert |ErrorMessage(a)| != |ErrorMessage(b)| || ErrorMessage(a)[0] != ErrorMessage(b)[0];
  }

  const EOF: int := -1

  /** A `FILE *` opened for reading: its bytes and the read position. */
  class InputFile {
    var data: seq<byte>
    var pos: nat

    ghost predicate Valid()
      reads this
    {
      pos <= |data|
    }

    constructor (data: seq<byte>)
      ensures Valid() && this.data == data && pos == 0
    {
      this.data := data;
      pos := 0;
    }

    /** `fgetc`: the next byte as a non-negative int, or `EOF` at the end. */
    method Getc() returns (c: int)
      requires Valid()
      modifies this
      ensures Valid() && data == old(data)
      ensures old(pos) < |data| ==> c == data[old(pos)] as int && pos == old(pos) + 1
      ensures old(pos) == |data| ==> c == EOF && pos == old(pos)
    {
      if pos < |data| {
        c := data[pos] as int;
        pos := pos + 1;
      } else {
        c := EOF;
      }
    }
  }

  /** The bytes before the first newline (all of them if there is none). */
  function LineOf(s: seq<byte>): seq<byte>
  {
    if s == [] || s[0] == NEWLINE then [] else [s[0]] + LineOf(s[1..])
  }

  /** `LineOf(s)` is the prefix of `s` that contains no newline and is
      followed by a newline or the end of `s`. */
  lemma {:induction false} LineOfPrefix(s: seq<byte>)
    ensures |LineOf(s)| <= |s| && LineOf(s) == s[..|LineOf(s)|]
    ensures forall i :: 0 <= i < |LineOf(s)| ==> s[i] != NEWLINE
    ensures |LineOf(s)| < |s| ==> s[|LineOf(s)|] == NEWLINE
  {
    if s != [] && s[0] != NEWLINE {
      LineOfPrefix(s[1..]);
    }
  }

  /** Conversely, any such prefix is `LineOf(s)`. */
  lemma {:induction false} LineOfUnique(s: seq<byte>, n: nat)
    requires n <= |s|
    requires forall i :: 0 <= i < n ==> s[i] != NEWLINE
    requires n < |s| ==> s[n] == NEWLINE
    ensures LineOf(s) == s[..n]
  {
    if n > 0 {
      LineOfUnique(s[1..], n - 1);
      assert s[..n] == [s[0]] + s[1..][..n - 1];
    }
  }

  /** How many bytes reading the line takes from the file: the line and its newline. */
  function Consumed(s: seq<byte>): nat
  {
    |LineOf(s)| + (if |LineOf(s)| < |s| then 1 else 0)
  }

  const INITIAL_SIZE: int := 10

  /** The buffer size after `n` bytes have been stored: it starts at 10 and
      doubles whenever the index reaches `size - 1`. */
  function CapacityFor(n: nat): nat
  {
    if n == 0 then INITIAL_SIZE
    else
      var c := CapacityFor(n - 1);
      if n >= c - 1 then 2 * c else c
  }

  /** 10 times a power of two. */
  predicate Doubled(c: int)
    decreases if c < 0 then 0 else c
  {
    c == INITIAL_SIZE || (c > INITIAL_SIZE && c % 2 == 0 && Doubled(c / 2))
  }

  /** The capacity always leaves room for the terminator after `n` bytes
      (`n < size - 1`), is 10 times a power of two, and is never more than
      double what is needed: once grown, half of it would not hold `n` bytes. */
  lemma {:induction false} CapacityBounds(n: nat)
    ensures n <= CapacityFor(n) - 2
    ensures Doubled(CapacityFor(n))
    ensures CapacityFor(n) == INITIAL_SIZE || n > CapacityFor(n) / 2 - 2
  {
    if n > 0 {
      CapacityBounds(n - 1);
    }
  }

  /** `realloc` to a larger size: a fresh block that starts with the old contents. */
  method Realloc(str: array<byte>, size: int) returns (r: array<byte>)
    requires str.Length <= size
    ensures fresh(r) && r.Length == size && r[..str.Length] == str[..]
  {
    r := new byte[size];
    forall k | 0 <= k < str.Length {
      r[k] := str[k];
    }
  }

  /** `read_a_line`: the bytes up to the first newline or end of file, in a
      NUL-terminated buffer that starts at 10 bytes and doubles as needed; the
      newline is consumed. A NULL file gives the empty string. The byte just
      read is kept as an int here, so a 0xFF byte is not mistaken for EOF. */
  method ReadALine(f: InputFile?) returns (str: array<byte>)
    requires f != null ==> f.Valid()
    modifies f
    ensures fresh(str)
    ensures f == null ==> str[..] == [NUL]
    ensures f != null ==>
      var rest := old(f.data[f.pos..]);
      var line := LineOf(rest);
      && f.Valid() && f.data == old(f.data) && f.pos == old(f.pos) + Consumed(rest)
      && str.Length == CapacityFor(|line|) && |line| < str.Length
      && str[..|line|] == line && str[|line|] == NUL
  {
    if f == null {
      str := new byte[1];
      str[0] := NUL;
      return;
    }
    ghost var rest := f.data[f.pos..];
    ghost var p0 := f.pos;
    var i := 0;
    str := new byte[INITIAL_SIZE];
    var c := f.Getc();
    while c != NEWLINE as int && c != EOF
      invariant f.Valid() && f.data == old(f.data)
      invariant 0 <= i <= |rest| && p0 + i <= |f.data|
      invariant c == (if i < |rest| then rest[i] as int else EOF)
      invariant f.pos == p0 + i + (if i < |rest| then 1 else 0)
      invariant forall k :: 0 <= k < i ==> rest[k] != NEWLINE
      invariant fresh(str) && str.Length == CapacityFor(i) && i <= str.Length - 2
      invariant str[..i] == rest[..i]
      decreases |rest| - i
    {
      str := StoreByte(str, i, c as byte);
      assert rest[..i + 1] == rest[..i] + [rest[i]];
      i := i + 1;
      c := f.Getc();
    }
    str[i] := NUL;
    LineOfUnique(rest, i);
    assert str[..i] == rest[..i];
  }

  /** One pass of the loop in `read_a_line`: store the byte at index `i`, then
      double the buffer (`size` is its length) once the index reaches `size - 1`. */
  method StoreByte(str: array<byte>, i: int, b: byte) returns (r: array<byte>)
    requires 0 <= i <= str.Length - 2 && str.Length == CapacityFor(i)
    modifies str
    ensures r == str || fresh(r)
    ensures r.Length == CapacityFor(i + 1) && i + 1 <= r.Length - 2
    ensures r[..i + 1] == old(str[..i]) + [b]
  {
    CapacityBounds(i);
    CapacityBounds(i + 1);
    str[i] := b;
    assert str[..i + 1] == old(str[..i]) + [b];
    r := str;
    if i + 1 >= str.Length - 1 {
      r := Realloc(str, str.Length * 2);
      assert r[..i + 1] == r[..str.Length][..i + 1];
    }
  }

  /** The loop of `read_a_line` as written, on a platform where `char` is
      signed: the byte 0xFF is read back as -1, equal to EOF, and ends the line. */
  function LineAsWritten(s: seq<byte>): seq<byte>
  {
    if s == [] || s[0] == NEWLINE || s[0] == 255 then [] else [s[0]] + LineAsWritten(s[1..])
  }

  /** A line holding the byte 0xFF is cut short as written. */
  lemma LineAsWrittenCutsAt0xFF()
    ensures LineAsWritten([65, 255, 66, 10]) == [65]
    ensures LineOf([65, 255, 66, 10]) == [65, 255, 66]
  {
  }

  /** Without a 0xFF byte before the newline the two readings agree. */
  lemma {:induction false} LineAsWrittenAgrees(s: seq<byte>)
    requires 255 !in LineOf(s)
    ensures LineAsWritten(s) == LineOf(s)
  {
    if s != [] && s[0] != NEWLINE {
      assert LineOf(s) == [s[0]] + LineOf(s[1..]);
      assert s[0] in LineOf(s);
      LineAsWrittenAgrees(s[1..]);
    }
  }

  /** The `Data` record, as far as `parse_args` fills it in. `secret` is the
      C string read from the authfile (up to its first NUL). */
  datatype StationData = StationData(secret: seq<byte>, port: int, interface: Option<string>)

  /** The port sentinel meaning "not given, use an ephemeral port". */
  const PORT_UNSET: int := 0

  predicate ValidPort(p: int)
  {
    0 < p < 65535
  }

  /** The decisions of `parse_args`, in the order it takes them. `auth` is
      the unread contents of the authfile, or `None` if `fopen` failed;
      `portValue` is `strtol(argv[4], NULL, 10)`; `logOpens` says whether
      `fopen(argv[3], "w")` succeeded. */
  function StationParse(argv: seq<string>, auth: Option<seq<byte>>, portValue: int, logOpens: bool)
    : Outcome<StationData>
  {
    if |argv| < 4 || |argv| > 6 then Exit(1)
    else
      var line := if auth.None? then [] else LineOf(auth.value);
      var secret := line[..Strlen(line)];
      if |argv[2]| == 0 || auth.None? || |secret| == 0 then Exit(2)
      else if |argv| >= 5 && !ValidPort(portValue) then Exit(4)
      else if !logOpens then Exit(99)
      else Ok(StationData(secret, if |argv| >= 5 then portValue else PORT_UNSET,
                          if |argv| == 6 then Some(argv[5]) else None))
  }

  /** `parse_args`: checks the argument count, reads the secret's first line,
      checks the port when one is given, and opens the log. */
  method ParseArgs(argv: seq<string>, authFile: InputFile?, portValue: int, logOpens: bool)
    returns (r: Outcome<StationData>)
    requires authFile != null ==> authFile.Valid()
    modifies authFile
    ensures authFile != null ==> authFile.Valid() && authFile.data == old(authFile.data)
    ensures r == StationParse(argv, if authFile == null then None else Some(old(authFile.data[authFile.pos..])),
                              portValue, logOpens)
  {
    if |argv| < 4 || |argv| > 6 {
      return Exit(1);
    }
    ghost var auth := if authFile == null then None else Some(authFile.data[authFile.pos..]);
    var buffer := ReadALine(authFile);
    ghost var line := if auth.None? then [] else LineOf(auth.value);
    var secretLength := Strlen(buffer[..]);
    assert buffer[..] == line + buffer[|line|..];
    StrlenStopsAtNul(line, buffer[|line|..]);
    var secret := buffer[..secretLength];
    if |argv[2]| == 0 || authFile == null || secretLength == 0 {
      return Exit(2);
    }
    var port := PORT_UNSET;
    if |argv| >= 5 {
      if portValue <= 0 || portValue >= 65535 {
        return Exit(4);
      }
      port := portValue;
    }
    if !logOpens {
      return Exit(99);
    }
    var interface := if |argv| == 6 then Some(argv[5]) else None;
    r := Ok(StationData(secret, port, interface));
  }

  /** `strlen` of a NUL-terminated buffer sees only what comes before its first NUL. */
  lemma StrlenStopsAtNul(s: seq<byte>, tail: seq<byte>)
    requires tail != [] && tail[0] == NUL
    ensures Strlen(s + tail) == Strlen(s)
    ensures (s + tail)[..Strlen(s)] == s[..Strlen(s)]
  {
    var n := Strlen(s);
    assert n < |s| ==> (s + tail)[n] == NUL;
    assert n == |s| ==> (s + tail)[n] == tail[0];
    StrlenUnique(s + tail, n);
  }

  lemma StrlenUnique(s: seq<byte>, n: nat)
    requires n < |s| && s[n] == NUL
    requires forall i :: 0 <= i < n ==> s[i] != NUL
    ensures Strlen(s) == n
  {
  }

  /** `parse_args` accepts exactly when 4 to 6 arguments are given, the
      authfile is named, opens and starts with a non-empty secret, a given
      port is in 1..65534, and the log opens. */
  lemma StationParseAccepts(argv: seq<string>, auth: Option<seq<byte>>, portValue: int, logOpens: bool)
    ensures var r := StationParse(argv, auth, portValue, logOpens);
      r.Ok? <==> 4 <= |argv| <= 6 && |argv[2]| > 0 && auth.Some? && Strlen(LineOf(auth.value)) > 0
                 && (|argv| >= 5 ==> ValidPort(portValue)) && logOpens
  {
  }

  /** Which error each failed check gives: 1 for the argument count, 2 for the
      authfile or secret, 4 for the port, 99 for the log, checked in that order. */
  lemma StationParseErrors(argv: seq<string>, auth: Option<seq<byte>>, portValue: int, logOpens: bool)
    ensures var r := StationParse(argv, auth, portValue, logOpens);
      && (r == Exit(1) <==> |argv| < 4 || |argv| > 6)
      && (4 <= |argv| <= 6 ==>
            (r == Exit(2) <==> |argv[2]| == 0 || auth.None? || Strlen(LineOf(auth.value)) == 0))
      && (4 <= |argv| <= 6 && |argv[2]| > 0 && auth.Some? && Strlen(LineOf(auth.value)) > 0 ==>
            && (r == Exit(4) <==> |argv| >= 5 && !ValidPort(portValue))
            && (r == Exit(99) <==> (|argv| >= 5 ==> ValidPort(portValue)) && !logOpens))
      && (r.Exit? ==> r.status in {1, 2, 4, 99})
      && (r.Exit? ==> KnownCode(r.status))
  {
  }

  /** An accepted command line gives port 0 (the ephemeral sentinel) exactly
      when no port argument is present, and otherwise the given port; the
      interface is `argv[5]` exactly when there are six arguments. */
  lemma StationParsePortAndInterface(argv: seq<string>, auth: Option<seq<byte>>, portValue: int, logOpens: bool)
    requires StationParse(argv, auth, portValue, logOpens).Ok?
    ensures var d := StationParse(argv, auth, portValue, logOpens).value;
      && (d.port == PORT_UNSET <==> |argv| == 4)
      && (|argv| >= 5 ==> d.port == portValue && ValidPort(d.port))
      && (d.interface.Some? <==> |argv| == 6)
      && (|argv| == 6 ==> d.interface == Some(argv[5]))
      && |d.secret| > 0 && forall i :: 0 <= i < |d.secret| ==> d.secret[i] != NUL && d.secret[i] != NEWLINE
  {
    LineOfPrefix(auth.value);
  }
}
