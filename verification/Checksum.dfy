/** Byte sums, as both serial protocols use them. */
module Checksum {
  import opened ByteMemory

  function Sum(s: seq<byte>): nat {
    if s == [] then 0 else Sum(s[..|s| - 1]) + s[|s| - 1]
  }

  lemma NoSum()
    ensures Sum([]) == 0
  {
  }

  /** An unsigned char that a byte is added to keeps the sum modulo 256. */
  lemma SumMore(s: seq<byte>, c: byte)
    ensures Sum(s + [c]) == Sum(s) + c
    ensures (Sum(s) % 256 + c) % 256 == Sum(s + [c]) % 256
  {
    assert (s + [c])[..|s|] == s;
  }
}
