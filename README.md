# A model of the thomas echo server and the station program

`thomas` is a small multithreaded server. Clients ("users") connect over TCP.
The server greets each client whose host name it can resolve, and echoes
back, upper-cased, every buffer the client sends. Administrators connect through a local control socket. Each
admin gets one status line giving the number of connected users, and the
connection is then closed. `station` is a separate program. This model
covers its error table, its growing-buffer line reader and its argument
validation.

This project takes the sequential kernels out of that plumbing and states
what each does:

- `capitalise`: an in-place loop over a byte buffer.
- The user worker, as a protocol over a connection:
  - the connection's pending input is a sequence of segments;
  - the stream ends in an orderly close or an error;
  - every `write` goes to an output log.
- The accept loops, run over a finite run of `accept` results.
- The statistics registry, as two classes:
  - each mutex-protected region of the C code is one atomic method;
  - ghost bookkeeping states what the counters count.
- Option and argument parsing for both programs.
- The control-socket path check. Paths and option arguments are C strings:
  byte sequences without NUL, whose length is the byte count `strlen` gives.
- The teardown that runs on SIGINT and at exit:
  - the filesystem is a set of paths;
  - the teardown is proved idempotent.

Modules, one file each:

- `Common`: bytes, C strings, `Option`, `Outcome` (a return or an `exit(status)`), `strlen`.
- `Socket`: a connected stream socket and the filesystem's set of paths.
- `Transform`: the capitalise transformation.
- `Decimal`: the text `%d` prints, and its inverse.
- `Stats`: the `ProgStats` and `AdminStats` registries.
- `User`: user.c.
- `Admin`: admin.c.
- `Thomas`: the rest of thomas.c.
- `Station`: station.c.

## Model

| member | source | states |
|---|---|---|
| Common.Strlen | station.c:96 | `strlen` counts the bytes before the first NUL, or all of them when there is none |
| Transform.ToUpper | thomas.c:104 | `toupper` in the C locale: 'a'..'z' move down by 32 to 'A'..'Z'; every other byte is unchanged |
| Transform.ToUpperIdempotent | thomas.c:104 | upper-casing an upper-cased byte changes nothing |
| Transform.CapitalisedAt | thomas.c:103-105 | the capitalised text has the same length, and byte i is `toupper` of input byte i |
| Transform.CapitalisedIdempotent | thomas.c:103-105 | capitalising twice gives the same bytes as capitalising once |
| Transform.CapitalisedAppend | thomas.c:103-105 | capitalising works byte by byte, so splitting the input anywhere gives the same result |
| Transform.CapitalisedEach | user.c:99-102 | one capitalised buffer per input buffer |
| Transform.CapitalisedConcat | user.c:99-102 | the concatenated answers equal the capitalised concatenated input, however the input was split into reads |
| Transform.CapitalisedEachAppend | user.c:99-102 | answering two runs of reads one after the other gives the answers to each run, in order |
| Transform.Capitalise | thomas.c:99-107 | the first `len` bytes become their `toupper`; bytes from `len` on are unchanged; a negative `len` changes nothing; the same buffer is returned |
| Decimal.Digits | admin.c:42-43 | the digits of a natural number: non-empty, all decimal digits, no leading zero |
| Decimal.DecimalText | admin.c:42-43 | `%d` text is non-empty and starts with '-' exactly when the value is negative |
| Decimal.DigitsRoundTrip | admin.c:42-43 | reading the printed digits back gives the number |
| Decimal.DecimalRoundTrip | admin.c:42-43 | `%d` text of any int is well formed and parses back to the same int |
| Decimal.DecimalInjective | admin.c:42-43 | different ints print differently |
| Stats.ProgStats.Init | thomas.c:109-113 | a fresh registry has `currentUsers == 0` and no live sessions |
| Stats.ProgStats.IncrementUsers | user.c:93-95 | the count goes up by exactly one, and the session joins the live set; the count stays equal to the number of live sessions |
| Stats.ProgStats.DecrementUsers | user.c:116-118 | the count goes down by exactly one, and the session leaves the live set; the count stays equal to the number of live sessions |
| Stats.ProgStats.SnapshotUsers | admin.c:41-44 | reading the count returns it unchanged, and it is never negative |
| Stats.IdsDistinct | admin.c:36-38 | ids handed out as 1, 2, 3, ... are positive, strictly increasing and pairwise distinct |
| Stats.AdminStats.Declare | thomas.c:154 | the declared registry holds an arbitrary counter and has issued no ids |
| Stats.AdminStats.Reset | admin.c:66 | the counter is 0, no ids are issued, and the registry invariant holds |
| Stats.AdminStats.NextAdminId | admin.c:36-38 | pre-increment: the id is the old counter plus one; the counter becomes the id; the id is larger than every earlier id |
| Socket.AfterReadConcat | user.c:99 | a read that takes n bytes of the oldest segment leaves exactly the rest of the stream pending |
| Socket.Conn.Read | user.c:99 | with data pending, `read` returns min(count, segment) bytes of the oldest segment into the buffer; with nothing pending it returns 0 after an orderly close and -1 after a failure |
| Socket.Conn.Write | user.c:101 | one write of the buffer's first n bytes is logged; nothing else changes |
| Socket.Conn.Send | admin.c:42-45 | one write of the given text is logged (the formatted status line); nothing else changes |
| Socket.Conn.Close | admin.c:52 | the connection is marked closed (also user.c:113); pending input, the stream's end and the write log are unchanged |
| Socket.FileSystem.Unlink | admin.c:18 | removes exactly the path |
| Socket.FileSystem.Bind | admin.c:21-24 | succeeds iff the OS accepts and the path does not already exist; on success it adds the path |
| User.Welcome | user.c:173 | the greeting is 11 bytes ending in a newline |
| User.ReadKeepsStream | user.c:99 | what a read returns, together with what it leaves pending, is the stream before the read |
| User.EchoOnce | user.c:99-102 | one pass of the loop: with input pending, the read's n bytes (1..1024, from the oldest segment) are answered by one write of those bytes capitalised, and the pending stream shrinks; with none pending, the result is 0 or -1 and nothing is written |
| User.StepKeepsStream | user.c:99 | adding the bytes of one more read keeps "returned so far, then pending" equal to the whole input |
| User.UserClientThread | user.c:86-123 | every read answered by one write of its bytes capitalised; each read is 1..1024 bytes and they concatenate to all the input; orderly close: connection closed, count back where it was; read error: exit(1), count left one higher, not closed |
| User.FirstFailedAccept | user.c:154-158 | the index of the first accept returning a negative descriptor; every earlier accept succeeded |
| User.UserProcessConnections | user.c:138-184 | each accept before the first failure gives the greeting (only if the name resolved), then a worker with its own argument record; a failed accept is exit(1) |
| User.SpawnedAppend | user.c:150-182 | workers spawned and clients greeted across two runs of accepts are those of each run, in order |
| User.OneWorkerPerAccept | user.c:159-161 | one worker per accepted connection, in accept order; its record holds that descriptor and the shared registry |
| User.GreetedIffResolved | user.c:166-174 | the greeted descriptors are exactly those of the accepts whose peer name resolved, in accept order; hence at most one greeting per accept, all when every name resolved, none when none did |
| Admin.SunPath | admin.c:12-16 | accepted iff `strlen` of the path is at most 103 bytes, else exit(1); `sun_path` then holds the path's bytes and the NUL terminator within 104 bytes |
| Admin.MakeControlSocket | admin.c:4-30 | an over-long path is exit(1) with the filesystem untouched; otherwise a stale entry is removed, and bind either creates the path or fails with exit(1) |
| Admin.StatusLineReports | admin.c:42-43 | the status line is the fixed prefix, then the user count as decimal text that parses back to the count, then the fixed suffix |
| Admin.StatusLineInjective | admin.c:42-43 | different user counts give different status lines |
| Admin.AdminClientThread | admin.c:34-56 | the admin takes the next id (old counter + 1); exactly one status line with the current user count is written; the connection is closed; nothing is read, and the user count is not changed |
| Admin.AdminBeginProcessing | admin.c:63-76 | the admin counter is zeroed before the accept thread gets the socket and both registries |
| Admin.FirstRefusal | admin.c:92-97 | the index of the first accept returning -1; every earlier accept succeeded |
| Admin.AdminProcessConnections | admin.c:79-109 | one worker record per accepted socket, in order, sharing both registries; an accept returning -1 is exit(1) |
| Thomas.BadPortsZero | thomas.c:57-61 | the error count is zero iff no `-p` value is out of range |
| Thomas.ParseArgs | thomas.c:45-94 | exit(1) iff some `-p` value is ≤ 0 or ≥ 65535; otherwise the record is the options applied in order, and a set port is in 1..65534 |
| Thomas.LastPortWins | thomas.c:56-63 | `port` holds the value of the last `-p`, and is untouched without `-p` |
| Thomas.LastSocketWins | thomas.c:48-75 | `controlPath` holds the last `-s` argument, or its starting value without `-s` |
| Thomas.LastInterfaceWins | thomas.c:47-66 | `interface` holds the last `-i` argument, or its starting value without `-i` |
| Thomas.DefaultControlPath | thomas.c:48-75 | without `-s` the control path is "./control-socket" |
| Thomas.UnknownOptionIgnored | thomas.c:76-77 | an unknown option changes neither the record nor the error count |
| Thomas.PortUnassignedWithoutFlag | thomas.c:46-48 | as written, an accepted command line without `-p` leaves `port` unwritten |
| Thomas.IntendedPortAlwaysDefined | thomas.c:23-63 | with port 0 (ephemeral) as the default: accepted iff no bad `-p`; the port is then 0 or in 1..65534, and 0 without `-p`; other fields as `parse_args` sets them |
| Thomas.CleanupRemovesOnlyControlPath | thomas.c:117-122 | `cleanup` removes the registered control path and no other path, and nothing when none is registered |
| Thomas.CleanupIdempotent | thomas.c:115-122 | a second `cleanup` leaves the filesystem as the first one did |
| Thomas.Process.Cleanup | thomas.c:117-122 | the filesystem becomes the cleaned-up set for the current control path |
| Thomas.Process.constructor | thomas.c:140-141 | before the sockets are opened no control path is registered, `cleanup` is not registered at exit, and the process has not ended |
| Thomas.Process.Exit | thomas.c:152 | `exit(status)` runs `cleanup` when it is registered with `atexit`, and records the status |
| Thomas.Process.HandleSigint | thomas.c:123-126 | the process ends with status `sig`; only the control path is gone, even though `cleanup` may run twice; the registrations are unchanged |
| Thomas.Process.OpenControlEndpoint | thomas.c:150-155 | only a bound control socket is recorded as the control path and registered for cleanup; a newly declared admin registry is then zeroed and handed over with the socket; an over-long path is exit(1) with the filesystem untouched, a refused bind exit(1) with the stale entry removed, both with nothing registered |
| Station.ErrorMessage | station.c:23-55 | code 0 gives the empty message and only code 0 does; other unknown codes give "Unknown error"; codes 1-7 and 99 give their own messages |
| Station.Error | station.c:56-57 | the exit status is the code; the text is the message plus a newline for non-zero codes, and empty for code 0 |
| Station.KnownMessagesDistinct | station.c:25-49 | the eight known codes have pairwise different messages |
| Station.InputFile.Getc | station.c:72 | `fgetc` returns the next byte and advances, or returns EOF (-1) at the end without advancing |
| Station.LineOfPrefix | station.c:72-83 | the line is a prefix of the input with no newline, followed by a newline or the end of the input |
| Station.LineOfUnique | station.c:72-83 | any such prefix is the line |
| Station.CapacityBounds | station.c:64-76 | after n stored bytes the buffer size is 10·2^k with n ≤ size−2; a grown buffer is no more than double what is needed |
| Station.Realloc | station.c:76 | a block of the new size that starts with the old contents |
| Station.StoreByte | station.c:73-81 | the byte is stored at index i; the buffer doubles exactly when the index reaches size − 1; the earlier bytes are kept, and the size becomes the capacity for i + 1 bytes, still leaving room for the terminator |
| Station.ReadALine | station.c:63-85 | NULL file: the empty string; otherwise the buffer holds the bytes before the first newline or EOF, NUL-terminated, in a buffer of the doubling capacity, and the newline is consumed |
| Station.LineAsWrittenCutsAt0xFF | station.c:71-72 | with a signed `char`, the line 'A' 0xFF 'B' '\n' is read as "A" instead of 'A' 0xFF 'B' |
| Station.LineAsWrittenAgrees | station.c:71-72 | with no 0xFF byte in the line, the as-written reading and the intended one agree |
| Station.ParseArgs | station.c:88-117 | the result is the decision table of `parse_args` over the argument count, authfile contents, port value and log opening |
| Station.StrlenStopsAtNul | station.c:96 | `strlen` of the NUL-terminated line buffer measures the line up to its first NUL |
| Station.StationParseAccepts | station.c:88-117 | accepted iff 4..6 arguments, a named readable authfile with a non-empty secret, a given port in 1..65534, and a log that opens |
| Station.StationParseErrors | station.c:90-114 | error 1 iff the argument count is outside 4..6; then error 2 iff the authfile name is empty, the file is unreadable, or the secret is empty; then error 4 iff a given port is outside 1..65534; then error 99 iff the log does not open; no other code occurs |
| Station.StationParsePortAndInterface | station.c:100-115 | port 0 (the sentinel) iff no port argument, otherwise the given port in 1..65534; interface is `argv[5]` iff there are six arguments; the secret is non-empty with no NUL or newline |

## Left out

- Sockets, `listen`, `accept`, `getsockname`, and reading back the ephemeral port are left out. `accept` results and `read` results are inputs.
- Name resolution (`getaddrinfo`, `getnameinfo`) is left out. Whether a peer's name resolved is an input to `User.UserProcessConnections`.
- Threads and mutexes are left out. Each locked region is one atomic method of `Stats`, and a worker is recorded as the argument record it is started with.
- Installing signal handlers is left out. Of `atexit`, only the flag recording that `cleanup` was registered is modelled.
- The order in which `getopt` permutes arguments is left out. `Thomas.ParseArgs` takes the options already split into a list.
- `strtol` is left out. Its result is an input.
- Log and diagnostic output (`printf`, `perror`, the usage text) is left out. So are the `main` functions and their `sleep` loops.
- `Socket.Conn.Write`, `Socket.Conn.Send`: every write succeeds in the model. thomas leaves SIGPIPE at its default action, so a write (user.c:101, user.c:173) or the admin `fflush` (admin.c:45) to a peer that has reset the connection kills the whole server. `atexit` handlers do not run then, so the control socket stays on disk. The model does not capture this.
- `Admin.AdminClientThread`: `fdopen` never fails in the model. When it returns NULL, admin.c:42 passes that NULL to `fprintf`; this is not modelled.
- `Admin.AdminProcessConnections`: a failed `listen` is only logged by the C code, so it is not modelled.
- The peer address copied into `AdminClientThreadArgs` is not modelled.
- `Stats.ProgStats.IncrementUsers`, `Stats.AdminStats.NextAdminId`: counters are unbounded integers, so 32-bit overflow of `int` is not modelled.
- `Station.ReadALine`: `realloc` never fails in the model, so the error-99 exit on an over-large line is not modelled.
- `Station.ReadALine`: the byte just read is kept as an int, so 0xFF is not mistaken for EOF. The code as written is `Station.LineAsWritten`; see Findings. Where `char` is unsigned, the code as written never sees EOF: a last line without a newline grows the buffer until `realloc` fails with error 99. This is not modelled either.
- `Station.ParseArgs`: the secret is read with the corrected `Station.ReadALine`. With a signed `char` the code as written reads an authfile that starts with 0xFF as an empty secret and fails with error 2; the model accepts it.
- Exit statuses are kept whole. The truncation to 8 bits that the OS applies to `exit(sig)` is not modelled.
- `Station.ParseArgs`: `name` (`argv[1]`) is never stored by the C code, and the secret is never used after it is read.
- `Station.ParseArgs`: error 3 ("Unable to open log") exists in the table, but `parse_args` uses 99 when the log cannot be opened. The model follows the code.
- `User.UserClientThread`: on a read error user.c:105-108 calls `exit(1)`, so `close` is never called and the count is never decremented; the process then ends. The model returns `Some(1)` at that point, with no close and no decrement. What the exit itself does (the operating system closing every descriptor, the registered `cleanup` unlinking the control socket) is not modelled here.

## Findings

| source | as written | input that shows it | evidently intended | confidence | as-written member | corrected member |
|---|---|---|---|---|---|---|
| thomas.c:46-62 | `pa.port` is written only by a `-p` option; without one the returned record holds an indeterminate port | options `-s path` with no `-p` | port 0, so the system assigns an ephemeral port, as the usage text at thomas.c:23 says | not executed | Thomas.PortUnassignedWithoutFlag | Thomas.IntendedPortAlwaysDefined |
| station.c:71-72 | the result of `fgetc` is stored in a `char` and compared with EOF; where `char` is signed, byte 0xFF compares equal to EOF and ends the line early | authfile bytes 'A' 0xFF 'B' '\n' read as "A"; an authfile starting with 0xFF gives an empty secret and error 2 | the whole line 'A' 0xFF 'B', with the result of `fgetc` kept in an `int` | not executed | Station.LineAsWrittenCutsAt0xFF | Station.ReadALine |
