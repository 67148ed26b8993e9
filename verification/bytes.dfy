/** Bytes, sequences of byte strings, and the header that starts every message of the protocol. */
module Bytes {

  type byte = n: nat | n < 0x100

  const HEADER_SIZE := 48

  /** The length announced in a header: 32 bits, most significant byte first. */
  function DataLength(h: seq<byte>): (n: nat)
    requires |h| >= HEADER_SIZE
  {
    var a: nat, b: nat, c: nat, d: nat := h[24], h[25], h[26], h[27];
    a * 0x100_0000 + b * 0x1_0000 + c * 0x100 + d
  }

  /** Byte by byte, from the outside. */
  lemma DataLengthBytes(h: seq<byte>)
    requires |h| >= HEADER_SIZE
    ensures DataLength(h) / 0x100_0000 == h[24] && DataLength(h) / 0x1_0000 % 0x100 == h[25]
    ensures DataLength(h) / 0x100 % 0x100 == h[26] && DataLength(h) % 0x100 == h[27]
    ensures DataLength(h) < 0x1_0000_0000
  {
    var a: nat, b: nat, c: nat, d: nat := h[24], h[25], h[26], h[27];
    FirstByte(a, b * 0x1_0000 + c * 0x100 + d);
    SecondByte(a * 0x100 + b, c * 0x100 + d);
    ThirdByte((a * 0x100 + b) * 0x100 + c, d);
    LastByte(a, b);
    LastByte(a * 0x100 + b, c);
    LastByte((a * 0x100 + b) * 0x100 + c, d);
  }

  lemma FirstByte(q: nat, r: nat)
    requires r < 0x100_0000
    ensures (q * 0x100_0000 + r) / 0x100_0000 == q
  {
  }

  lemma SecondByte(q: nat, r: nat)
    requires r < 0x1_0000
    ensures (q * 0x1_0000 + r) / 0x1_0000 == q
  {
  }

  lemma ThirdByte(q: nat, r: nat)
    requires r < 0x100
    ensures (q * 0x100 + r) / 0x100 == q
  {
  }

  lemma LastByte(q: nat, r: nat)
    requires r < 0x100
    ensures (q * 0x100 + r) % 0x100 == r
  {
  }

  function Concat(q: seq<seq<byte>>): seq<byte> {
    if q == [] then [] else q[0] + Concat(q[1..])
  }

  lemma {:induction false} ConcatAppend(q: seq<seq<byte>>, r: seq<byte>)
    ensures Concat(q + [r]) == Concat(q) + r
  {
    if q == [] {
      assert q + [r] == [r] && Concat([r][1..]) == [];
    } else {
      ConcatAppend(q[1..], r);
      assert (q + [r])[1..] == q[1..] + [r];
      assert q[0] + (Concat(q[1..]) + r) == Concat(q) + r;
    }
  }
}
