/** Little-endian encoding of unsigned numbers in a fixed number of bytes. */
module LittleEndian {

  type Byte = x: nat | x < 256

  /** 256 to the power of k. */
  function Limit(k: nat): (p: nat)
    ensures 0 < p
  {
    if k == 0 then 1 else 256 * Limit(k - 1)
  }

  /** The k low bytes of n, lowest first. */
  function Encode(n: nat, k: nat): (bs: seq<Byte>)
    ensures |bs| == k
  {
    if k == 0 then [] else [n % 256] + Encode(n / 256, k - 1)
  }

  function Decode(bs: seq<Byte>): nat {
    if bs == [] then 0 else bs[0] + 256 * Decode(bs[1..])
  }

  /** The number at a position of a structure. */
  ghost predicate NumberAt(bs: seq<Byte>, at: nat, width: nat, x: nat) {
    at + width <= |bs| && Decode(bs[at..at + width]) == x
  }

  lemma {:induction false} DecodeEncode(n: nat, k: nat)
    requires n < Limit(k)
    ensures Decode(Encode(n, k)) == n
  {
    if k > 0 {
      DecodeEncode(n / 256, k - 1);
      assert Encode(n, k)[1..] == Encode(n / 256, k - 1);
    }
  }

  lemma {:induction false} DecodeBound(bs: seq<Byte>)
    ensures Decode(bs) < Limit(|bs|)
  {
    if bs != [] {
      DecodeBound(bs[1..]);
    }
  }
}
