/** Fixed-width integers as the byte strings that Python's struct module packs. */
module Bytes {

  type Byte = x: int | 0 <= x < 256

  function Pow256(n: nat): (r: nat)
    ensures r > 0
  {
    if n == 0 then 1 else 256 * Pow256(n - 1)
  }

  /** The n low-order bytes of v, least significant first. */
  function LittleEndian(v: nat, n: nat): (r: seq<Byte>)
    ensures |r| == n
  {
    if n == 0 then [] else [v % 256] + LittleEndian(v / 256, n - 1)
  }

  function FromLittleEndian(s: seq<Byte>): nat {
    if s == [] then 0 else s[0] + 256 * FromLittleEndian(s[1..])
  }

  lemma {:induction false} LittleEndianRoundTrip(v: nat, n: nat)
    requires v < Pow256(n)
    ensures FromLittleEndian(LittleEndian(v, n)) == v
  {
    if n > 0 {
      LittleEndianRoundTrip(v / 256, n - 1);
      assert LittleEndian(v, n)[1..] == LittleEndian(v / 256, n - 1);
    }
  }

  /** The n low-order bytes of v, most significant first. */
  function BigEndian(v: nat, n: nat): (r: seq<Byte>)
    ensures |r| == n
  {
    if n == 0 then [] else BigEndian(v / 256, n - 1) + [v % 256]
  }

  function FromBigEndian(s: seq<Byte>): nat {
    if s == [] then 0 else 256 * FromBigEndian(s[..|s| - 1]) + s[|s| - 1]
  }

  lemma {:induction false} BigEndianRoundTrip(v: nat, n: nat)
    requires v < Pow256(n)
    ensures FromBigEndian(BigEndian(v, n)) == v
  {
    if n > 0 {
      BigEndianRoundTrip(v / 256, n - 1);
      assert BigEndian(v, n)[..n - 1] == BigEndian(v / 256, n - 1);
    }
  }

  function Zeros(n: nat): (r: seq<Byte>)
    ensures |r| == n
  {
    seq(n, _ => 0)
  }

  /** memmove of src over mem at off. */
  function Stored(mem: seq<Byte>, off: nat, src: seq<Byte>): (r: seq<Byte>)
    requires off + |src| <= |mem|
    ensures |r| == |mem|
  {
    mem[..off] + src + mem[off + |src|..]
  }

  /** The n bytes of mem at off. */
  function Loaded(mem: seq<Byte>, off: nat, n: nat): (r: seq<Byte>)
    requires off + n <= |mem|
    ensures |r| == n
  {
    mem[off..off + n]
  }

  lemma LoadStored(mem: seq<Byte>, off: nat, src: seq<Byte>, at: nat, n: nat)
    requires off + |src| <= |mem| && at + n <= |mem|
    ensures at + n <= off || off + |src| <= at ==> Loaded(Stored(mem, off, src), at, n) == Loaded(mem, at, n)
    ensures off <= at && at + n <= off + |src| ==> Loaded(Stored(mem, off, src), at, n) == src[at - off..at - off + n]
  {
    var m := Stored(mem, off, src);
    assert forall i | 0 <= i < |mem| && !(off <= i < off + |src|) :: m[i] == mem[i];
    assert forall i | off <= i < off + |src| :: m[i] == src[i - off];
  }
}
