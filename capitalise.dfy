/** The echo transformation `capitalise` (thomas.c), shared by the user and
    admin code through shared.h. */
module Transform {
  import opened Common

  /** C `toupper` in the "C" locale: only 'a'..'z' change. */
  function ToUpper(b: byte): (r: byte)
    ensures 'a' as int <= b as int <= 'z' as int ==> r as int == b as int - 32
    ensures !('a' as int <= b as int <= 'z' as int) ==> r == b
  {
    if 'a' as int <= b as int <= 'z' as int then b - 32 else b
  }

  lemma ToUpperIdempotent(b: byte)
    ensures ToUpper(ToUpper(b)) == ToUpper(b)
  {
  }

  /** The capitalised copy of a byte string. */
  function Capitalised(s: seq<byte>): (r: seq<byte>)
  {
    seq(|s|, i requires 0 <= i < |s| => ToUpper(s[i]))
  }

  lemma CapitalisedAt(s: seq<byte>)
    ensures |Capitalised(s)| == |s|
    ensures forall i :: 0 <= i < |s| ==> Capitalised(s)[i] == ToUpper(s[i])
  {
  }

  /** Applying the transformation twice is the same as applying it once. */
  lemma CapitalisedIdempotent(s: seq<byte>)
    ensures Capitalised(Capitalised(s)) == Capitalised(s)
  {
    forall i | 0 <= i < |s|
      ensures Capitalised(Capitalised(s))[i] == Capitalised(s)[i]
    {
      ToUpperIdempotent(s[i]);
    }
  }

  /** Capitalising two pieces separately gives the capitalised whole. */
  lemma CapitalisedAppend(a: seq<byte>, b: seq<byte>)
    ensures Capitalised(a + b) == Capitalised(a) + Capitalised(b)
  {
  }

  /** The capitalised copy of each buffer, in order. */
  function CapitalisedEach(chunks: seq<seq<byte>>): (r: seq<seq<byte>>)
    ensures |r| == |chunks|
  {
    seq(|chunks|, i requires 0 <= i < |chunks| => Capitalised(chunks[i]))
  }

  /** Capitalising each buffer of a stream gives the capitalised stream. */
  lemma {:induction false} CapitalisedConcat(chunks: seq<seq<byte>>)
    ensures Concat(CapitalisedEach(chunks)) == Capitalised(Concat(chunks))
  {
    if chunks != [] {
      var init := chunks[..|chunks| - 1];
      assert CapitalisedEach(chunks)[..|chunks| - 1] == CapitalisedEach(init);
      CapitalisedConcat(init);
      CapitalisedAppend(Concat(init), chunks[|chunks| - 1]);
    }
  }

  lemma CapitalisedEachAppend(a: seq<seq<byte>>, b: seq<seq<byte>>)
    ensures CapitalisedEach(a + b) == CapitalisedEach(a) + CapitalisedEach(b)
  {
  }

  /** `capitalise(buffer, len)`: upper-cases the first `len` bytes in place and
      returns the same buffer; a negative `len` changes nothing. */
  method Capitalise(buffer: array<byte>, len: int) returns (r: array<byte>)
    requires len <= buffer.Length
    modifies buffer
    ensures r == buffer
    ensures len >= 0 ==> buffer[..len] == Capitalised(old(buffer[..len]))
    ensures len >= 0 ==> buffer[len..] == old(buffer[len..])
    ensures len < 0 ==> buffer[..] == old(buffer[..])
  {
    var i := 0;
    while i < len
      invariant 0 <= i <= if len < 0 then 0 else len
      invariant forall k :: 0 <= k < i ==> buffer[k] == ToUpper(old(buffer[k]))
      invariant forall k :: i <= k < buffer.Length ==> buffer[k] == old(buffer[k])
    {
      buffer[i] := ToUpper(buffer[i]);
      i := i + 1;
    }
    r := buffer;
  }
}
