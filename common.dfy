/** Types shared by every part of the model: bytes, optional values, and the
    outcome of a C routine that either returns or terminates the process. */
module Common {

  /** One C `char` of a buffer, read as an unsigned octet. */
  newtype byte = x: int | 0 <= x < 256

  const NUL: byte := 0
  const NEWLINE: byte := 10

  /** The bytes of a C string before its terminator, which is the only NUL
      such a string holds. Lengths are counted in bytes, as `strlen` does. */
  type CString = s: seq<byte> | NUL !in s

  /** `NULL` or a pointer to a value. */
  datatype Option<T> = None | Some(value: T)

  /** A routine either returns `value`, or calls `exit(status)` and the process ends. */
  datatype Outcome<T> = Ok(value: T) | Exit(status: int)

  /** An ASCII string literal as the bytes the C program stores for it. */
  function Ascii(s: string): (r: seq<byte>)
    requires forall i :: 0 <= i < |s| ==> s[i] as int < 128
    ensures |r| == |s|
    ensures forall i :: 0 <= i < |s| ==> r[i] as int == s[i] as int
  {
    seq(|s|, i requires 0 <= i < |s| => s[i] as int as byte)
  }

  /** The bytes of a sequence of buffers, one after another. */
  function Concat(chunks: seq<seq<byte>>): seq<byte>
  {
    if chunks == [] then [] else Concat(chunks[..|chunks| - 1]) + chunks[|chunks| - 1]
  }

  lemma {:induction false} ConcatAppend(a: seq<seq<byte>>, b: seq<seq<byte>>)
    ensures Concat(a + b) == Concat(a) + Concat(b)
    decreases |b|
  {
    if b == [] {
      assert a + b == a;
    } else {
      var b' := b[..|b| - 1];
      assert (a + b)[..|a + b| - 1] == a + b';
      ConcatAppend(a, b');
    }
  }

  lemma ConcatSingle(chunk: seq<byte>)
    ensures Concat([chunk]) == chunk
  {
    assert [chunk][..0] == [];
  }

  lemma ConcatCons(head: seq<byte>, rest: seq<seq<byte>>)
    ensures Concat([head] + rest) == head + Concat(rest)
  {
    ConcatAppend([head], rest);
    ConcatSingle(head);
  }

  /** `strlen`: the number of bytes before the first NUL (all of them if there is none). */
  function Strlen(s: seq<byte>): (n: nat)
    ensures n <= |s|
    ensures forall i :: 0 <= i < n ==> s[i] != NUL
    ensures n < |s| ==> s[n] == NUL
  {
    if s == [] || s[0] == NUL then 0 else 1 + Strlen(s[1..])
  }
}
