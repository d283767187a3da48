/** UIDs and bit prefixes: the byte-level operations of client/src/mgmt.rs and the
servo-side matcher of firmware/lib/osc-protocol/src/frame.rs, tied to one bit-level
reading (LSB-first, section 9.2 of the osc-native protocol). */
module UidPrefix {

  const UID_LEN: nat := 16
  const FULL: nat := 128

  type Uid = u: seq<bv8> | |u| == 16 witness [0, 0, 0, 0, 0, 0, 0, 0, 0, 0, 0, 0, 0, 0, 0, 0]
  type Len = n: int | 0 <= n <= 128

  /** `1 << i` in a byte, as a table. */
  function Mask(i: nat): bv8
    requires i < 8
  {
    if i == 0 then 1 else if i == 1 then 2 else if i == 2 then 4 else if i == 3 then 8
    else if i == 4 then 16 else if i == 5 then 32 else if i == 6 then 64 else 128
  }

  /** `b >> i & 1 != 0`. */
  function ByteBit(b: bv8, i: nat): bool
    requires i < 8
  {
    b & Mask(i) != 0
  }

  function Bit(uid: Uid, k: nat): bool
    requires k < 128
  {
    ByteBit(uid[k / 8], k % 8)
  }

  predicate MatchesPrefix(uid: Uid, prefix: Uid, len: Len) {
    forall k :: 0 <= k < len ==> Bit(uid, k) == Bit(prefix, k)
  }

  /** Sets bit k, or leaves the prefix alone: it never clears a bit. */
  function WithBit(prefix: Uid, k: nat, v: bool): Uid
    requires k < 128
  {
    if v then prefix[k / 8 := prefix[k / 8] | Mask(k % 8)] else prefix
  }

  /** A stack entry of the walk. */
  datatype Prefix = Prefix(len: Len, bits: Uid)

  /** No bit at or past `len` is set; the walk keeps this for every entry. */
  ghost predicate Clean(e: Prefix) {
    forall k :: e.len <= k < 128 ==> !Bit(e.bits, k)
  }

  ghost predicate Under(u: Uid, e: Prefix) {
    MatchesPrefix(u, e.bits, e.len)
  }

  function Child(e: Prefix, v: bool): Prefix
    requires e.len < 128
  {
    Prefix(e.len + 1, WithBit(e.bits, e.len, v))
  }

  const ZERO_UID: Uid := [0, 0, 0, 0, 0, 0, 0, 0, 0, 0, 0, 0, 0, 0, 0, 0]
  const ROOT: Prefix := Prefix(0, ZERO_UID)

  lemma MasksMeet(i: nat, j: nat)
    requires i < 8 && j < 8
    ensures Mask(i) & Mask(j) == if i == j then Mask(i) else 0
    ensures Mask(i) != 0
  {
  }

  lemma OrAnd(b: bv8, x: bv8, y: bv8)
    ensures (b | x) & y == (b & y) | (x & y)
    ensures b | 0 == b && (b | x == 0 <==> b == 0 && x == 0)
  {
  }

  lemma OrBit(b: bv8, i: nat, j: nat)
    requires i < 8 && j < 8
    ensures ByteBit(b | Mask(i), j) == (j == i || ByteBit(b, j))
  {
    MasksMeet(i, j);
    OrAnd(b, Mask(i), Mask(j));
    OrAnd(b & Mask(j), Mask(i) & Mask(j), 0);
  }

  lemma WithBitAt(p: Uid, k: nat, v: bool, j: nat)
    requires k < 128 && j < 128
    ensures Bit(WithBit(p, k, v), j) == if j == k then v || Bit(p, k) else Bit(p, j)
  {
    OrBit(p[k / 8], k % 8, j % 8);
  }

  lemma ZeroByte(i: nat)
    requires i < 8
    ensures !ByteBit(0, i)
  {
  }

  lemma RootIsClean()
    ensures Clean(ROOT) && forall u: Uid :: Under(u, ROOT)
  {
    forall k: nat | k < 128 ensures !Bit(ROOT.bits, k) { ZeroByte(k % 8); }
  }

  /** The two children split the matchers of a clean prefix by their next bit. */
  lemma ChildSplits(e: Prefix, v: bool)
    requires Clean(e) && e.len < 128
    ensures Clean(Child(e, v))
    ensures forall u: Uid :: Under(u, Child(e, v)) <==> Under(u, e) && Bit(u, e.len) == v
  {
    var c := Child(e, v);
    forall k: nat | k < 128 ensures Bit(c.bits, k) == if k == e.len then v else Bit(e.bits, k) {
      WithBitAt(e.bits, e.len, v, k);
    }
    forall u: Uid ensures Under(u, c) <==> Under(u, e) && Bit(u, e.len) == v {
      if Under(u, c) {
        forall k: nat | k < e.len ensures Bit(u, k) == Bit(e.bits, k) { assert Bit(u, k) == Bit(c.bits, k); }
        assert Bit(u, e.len) == Bit(c.bits, e.len);
      }
    }
  }

  lemma SameByte(a: bv8, b: bv8)
    requires forall i :: 0 <= i < 8 ==> ByteBit(a, i) == ByteBit(b, i)
    ensures a == b
  {
    assert ByteBit(a, 0) == ByteBit(b, 0) && ByteBit(a, 1) == ByteBit(b, 1);
    assert ByteBit(a, 2) == ByteBit(b, 2) && ByteBit(a, 3) == ByteBit(b, 3);
    assert ByteBit(a, 4) == ByteBit(b, 4) && ByteBit(a, 5) == ByteBit(b, 5);
    assert ByteBit(a, 6) == ByteBit(b, 6) && ByteBit(a, 7) == ByteBit(b, 7);
  }

  /** A full-depth prefix has one matcher: itself. */
  lemma FullIsUnique(u: Uid, p: Uid)
    ensures MatchesPrefix(u, p, 128) <==> u == p
  {
    if MatchesPrefix(u, p, 128) {
      forall j: nat | j < 16 ensures u[j] == p[j] {
        forall i: nat | i < 8 ensures ByteBit(u[j], i) == ByteBit(p[j], i) {
          assert Bit(u, 8 * j + i) == Bit(p, 8 * j + i);
        }
        SameByte(u[j], p[j]);
      }
    }
  }

  /** The servo's byte-wise matcher (`uid_prefix_matches`). */
  predicate UidPrefixMatches(uid: Uid, len: Len, prefix: Uid) {
    var full := len / 8;
    var rem := len % 8;
    && uid[..full] == prefix[..full]
    && (rem == 0 || LowClear(uid[full] ^ prefix[full], rem))
  }

  predicate LowClear(x: bv8, rem: nat)
    requires rem < 8
  {
    x & (Mask(rem) - 1) == 0
  }

  lemma XorAnd(a: bv8, b: bv8, m: bv8)
    ensures (a ^ b) & m == (a & m) ^ (b & m)
    ensures a ^ b == 0 <==> a == b
  {
  }

  lemma OneBit(b: bv8, i: nat)
    requires i < 8
    ensures b & Mask(i) == if ByteBit(b, i) then Mask(i) else 0
  {
  }

  lemma XorBit(a: bv8, b: bv8, i: nat)
    requires i < 8
    ensures ByteBit(a ^ b, i) == (ByteBit(a, i) != ByteBit(b, i))
  {
    XorAnd(a, b, Mask(i));
    XorAnd(a & Mask(i), b & Mask(i), 0);
    OneBit(a, i);
    OneBit(b, i);
  }

  lemma MaskGrows(x: bv8, rem: nat)
    requires rem < 7
    ensures LowClear(x, rem + 1) <==> LowClear(x, rem) && !ByteBit(x, rem)
  {
  }

  lemma {:induction false} MaskedByte(a: bv8, b: bv8, rem: nat)
    requires rem < 8
    ensures LowClear(a ^ b, rem) <==> forall i :: 0 <= i < rem ==> ByteBit(a, i) == ByteBit(b, i)
  {
    if rem > 0 {
      MaskedByte(a, b, rem - 1);
      MaskGrows(a ^ b, rem - 1);
      XorBit(a, b, rem - 1);
    }
  }

  lemma SameBytes(uid: Uid, prefix: Uid, n: nat)
    requires n <= 16
    ensures uid[..n] == prefix[..n] <==> MatchesPrefix(uid, prefix, 8 * n)
  {
    if MatchesPrefix(uid, prefix, 8 * n) {
      forall j: nat | j < n ensures uid[j] == prefix[j] {
        forall i: nat | i < 8 ensures ByteBit(uid[j], i) == ByteBit(prefix[j], i) {
          assert Bit(uid, 8 * j + i) == Bit(prefix, 8 * j + i);
        }
        SameByte(uid[j], prefix[j]);
      }
    }
    if uid[..n] == prefix[..n] {
      forall k: nat | k < 8 * n ensures Bit(uid, k) == Bit(prefix, k) {
        assert uid[..n][k / 8] == prefix[..n][k / 8];
      }
    }
  }

  /** The servo answers exactly the probes the client's bit scan says it should. */
  lemma ServoAndClientAgree(uid: Uid, len: Len, prefix: Uid)
    ensures UidPrefixMatches(uid, len, prefix) <==> MatchesPrefix(uid, prefix, len)
  {
    var full, rem := len / 8, len % 8;
    SameBytes(uid, prefix, full);
    if rem > 0 {
      MaskedByte(uid[full], prefix[full], rem);
      if MatchesPrefix(uid, prefix, len) {
        forall i: nat | i < rem ensures ByteBit(uid[full], i) == ByteBit(prefix[full], i) {
          assert Bit(uid, 8 * full + i) == Bit(prefix, 8 * full + i);
        }
      }
    }
  }

  /** The table is the shift of the source. */
  lemma MaskIsShift(b: bv8, i: nat)
    requires i < 8
    ensures (1 as bv8) << i == Mask(i) && ((b >> i) & 1 != 0 <==> ByteBit(b, i))
  {
    if i < 4 {
      assert i == 0 || i == 1 || i == 2 || i == 3;
    } else {
      assert i == 4 || i == 5 || i == 6 || i == 7;
    }
  }
}
