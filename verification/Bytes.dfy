/** The octet type shared by every module: wire bytes, frame buffers and templates. */
module Bytes {
  type byte = b: int | 0 <= b < 256

  type bytes = seq<byte>

  datatype Option<+T> = None | Some(value: T)

  function Concat(parts: seq<bytes>): bytes {
    if parts == [] then [] else parts[0] + Concat(parts[1..])
  }

  function TotalLength(parts: seq<bytes>): nat {
    if parts == [] then 0 else |parts[0]| + TotalLength(parts[1..])
  }

  lemma {:induction false} ConcatAppend(parts: seq<bytes>, last: bytes)
    ensures Concat(parts + [last]) == Concat(parts) + last
  {
    if parts == [] {
      assert parts + [last] == [last];
      assert Concat([last]) == last + Concat([last][1..]);
    } else {
      assert (parts + [last])[1..] == parts[1..] + [last];
      ConcatAppend(parts[1..], last);
    }
  }

  lemma {:induction false} TotalLengthSum(a: seq<bytes>, b: seq<bytes>)
    ensures TotalLength(a + b) == TotalLength(a) + TotalLength(b)
  {
    if a == [] {
      assert a + b == b;
    } else {
      assert (a + b)[1..] == a[1..] + b;
      TotalLengthSum(a[1..], b);
    }
  }

  lemma {:induction false} TotalLengthIs(parts: seq<bytes>)
    ensures TotalLength(parts) == |Concat(parts)|
  {
    if parts != [] {
      TotalLengthIs(parts[1..]);
    }
  }

  method CopyBytes(source: bytes, output: array<byte>, cursor: nat)
    requires cursor + |source| <= output.Length
    modifies output
    ensures output[..cursor] == old(output[..cursor])
    ensures output[cursor..cursor + |source|] == source
    ensures output[cursor + |source|..] == old(output[cursor + |source|..])
  {
    for i := 0 to |source|
      invariant output[..cursor] == old(output[..cursor])
      invariant output[cursor..cursor + i] == source[..i]
      invariant output[cursor + |source|..] == old(output[cursor + |source|..])
    {
      output[cursor + i] := source[i];
    }
  }
}
