/** Little-endian words. */
module Words {
  import opened Basics
  import opened FixedPoint

  /** 256 to the k. */
  function Radix(k: nat): nat { if k == 0 then 1 else 256 * Radix(k - 1) }

  /** The low `k` bytes of x, least significant first. */
  function LeBytes(x: nat, k: nat): (s: seq<Byte>)
    ensures |s| == k
  {
    if k == 0 then [] else [x % 256] + LeBytes(x / 256, k - 1)
  }

  function LeValue(s: seq<Byte>): (x: nat)
    ensures x < Radix(|s|)
  {
    if s == [] then 0 else s[0] + 256 * LeValue(s[1..])
  }

  lemma {:induction false} LeInverts(x: nat, k: nat)
    requires x < Radix(k)
    ensures LeValue(LeBytes(x, k)) == x
  {
    if k > 0 {
      LeInverts(x / 256, k - 1);
      assert LeBytes(x, k)[1..] == LeBytes(x / 256, k - 1);
    }
  }

  function Word16(s: seq<Byte>): U16
    requires |s| == 2
  {
    assert Radix(2) == 256 * Radix(1) && Radix(1) == 256;
    LeValue(s)
  }

  function Word32(s: seq<Byte>): U32
    requires |s| == 4
  {
    assert Radix(4) == 256 * Radix(3) && Radix(3) == 256 * Radix(2) && Radix(2) == 256 * Radix(1);
    LeValue(s)
  }

  function Bytes16(x: U16): (s: seq<Byte>)
    ensures |s| == 2 && Word16(s) == x
  {
    LeInverts(x, 2);
    LeBytes(x, 2)
  }

  function Bytes32(x: U32): (s: seq<Byte>)
    ensures |s| == 4 && Word32(s) == x
  {
    assert Radix(4) == 256 * Radix(3) && Radix(3) == 256 * Radix(2) && Radix(2) == 256 * Radix(1);
    LeInverts(x, 4);
    LeBytes(x, 4)
  }

  /** The same bytes read as two's complement. */
  function Signed16(s: seq<Byte>): (x: int)
    requires |s| == 2
    ensures IsI16(x)
  {
    Wrap16(Word16(s))
  }

  function Signed32(s: seq<Byte>): (x: int)
    requires |s| == 4
    ensures IsI32(x)
  {
    Wrap32(Word32(s))
  }

  function SignedBytes16(x: int): (s: seq<Byte>)
    requires IsI16(x)
    ensures |s| == 2 && Signed16(s) == x
  {
    Bytes16(if x < 0 then x + 0x1_0000 else x)
  }

  function SignedBytes32(x: int): (s: seq<Byte>)
    requires IsI32(x)
    ensures |s| == 4 && Signed32(s) == x
  {
    Bytes32(if x < 0 then x + I32_SPAN else x)
  }
}
