/** EEPROM bitmaps: the compile-time generator of firmware-old/open-servo-macros/src/regmap.rs
and the constant-time lookups of firmware-old/open-servo-registry/src (lib.rs, policy.rs). */
module EepromMap {
  import opened Basics
  import opened Bits

  const U16_SPAN: nat := 0x1_0000
  const U16_MAX: nat := 0xFFFF
  const WIDTH: nat := 64
  const VENDOR_START: nat := 512

  datatype Access = RO | WO | RW | Facade | Reserved

  datatype Ty = U8 | I8 | Boolean | U16 | I16 | U32 | I32 | U64 | I64 | Unit16 | CentiDeg32 | Array(elem: Ty, len: nat)

  /** n times k. */
  function Copies(n: nat, k: nat): nat { if n == 0 then 0 else k + Copies(n - 1, k) }

  /** x modulo m, as a cast to a narrower type computes it. */
  function Cut(x: nat, m: nat): (r: nat)
    requires m > 0
    ensures r < m
  {
    if x < m then x else Cut(x - m, m)
  }

  lemma {:induction false} CutIsMod(x: nat, m: nat)
    requires m > 0
    ensures Cut(x, m) == x % m
  {
    if x >= m {
      CutIsMod(x - m, m);
      ModUnique(x, m, (x - m) / m + 1, (x - m) % m);
    }
  }

  /** `type_size`: bytes the layout gives a field. */
  function TypeSize(ty: Ty): nat {
    match ty
    case U8 | I8 | Boolean => 1
    case U16 | I16 | Unit16 => 2
    case U32 | I32 | CentiDeg32 => 4
    case U64 | I64 => 8
    case Array(elem, n) => Copies(n, TypeSize(elem))
  }

  /** `type_encoding(...).len()`: bytes the field's specification reports. */
  function EncodingLen(ty: Ty): nat {
    match ty
    case U8 | I8 | Boolean => 1
    case U16 | I16 | Unit16 => 2
    case U32 | I32 | CentiDeg32 | U64 | I64 => 4
    case Array(_, _) => 1
  }

  /** A parsed field; `size` is its `type_size`. */
  datatype FieldInfo = FieldInfo(hash: nat, ty: Ty, size: nat, access: Access, eeprom: bool, indirect: bool)

  predicate Typed(infos: seq<FieldInfo>) {
    forall i :: 0 <= i < |infos| ==> infos[i].size == TypeSize(infos[i].ty)
  }

  /** What the generator records of an EEPROM field: `size` is `info.size as u8`,
      `len` is what the emitted specification will answer. */
  datatype Eeprom = Eeprom(hash: nat, addr: nat, size: nat, len: nat)

  predicate Collected(f: FieldInfo) {
    !f.indirect && f.eeprom && f.access == RW
  }

  /** The address layout: fields follow each other from the base. */
  function Layout(base: nat, fields: seq<FieldInfo>): seq<Eeprom>
    decreases |fields|
  {
    if fields == [] then []
    else Entry(fields[0], base) + Layout(base + Cut(fields[0].size, U16_SPAN), fields[1..])
  }

  predicate Covers(f: Eeprom, a: nat) {
    f.addr <= a < f.addr + f.size
  }

  ghost predicate SomeCovers(fields: seq<Eeprom>, a: nat) {
    exists j :: 0 <= j < |fields| && Covers(fields[j], a)
  }

  predicate ValidAddress(a: nat) {
    a < 64 || 512 <= a < 576
  }

  ghost predicate Accepted(fields: seq<Eeprom>) {
    forall a: nat :: SomeCovers(fields, a) ==> ValidAddress(a)
  }

  /** Bit i of each bitmap stands for one EEPROM byte. */
  ghost predicate Exact(dxl: nat, vendor: nat, fields: seq<Eeprom>) {
    && (forall i: nat :: Bit(dxl, i) <==> i < 64 && SomeCovers(fields, i))
    && (forall i: nat :: Bit(vendor, i) <==> i < 64 && SomeCovers(fields, 512 + i))
  }

  datatype Generated = Rejected | Bitmaps(dxl: nat, vendor: nat, fields: seq<Eeprom>)

  /** Bytes already turned into bits: all of the first `j` fields and `k` of the next. */
  ghost predicate Marked(fields: seq<Eeprom>, j: nat, k: nat, a: nat)
    requires j <= |fields| && (j < |fields| || k == 0)
  {
    (exists i :: 0 <= i < j && Covers(fields[i], a)) || (j < |fields| && fields[j].addr <= a < fields[j].addr + k)
  }

  /** What the generator records of the field at `addr`. */
  function Entry(f: FieldInfo, addr: nat): seq<Eeprom> {
    if Collected(f) then [Eeprom(f.hash, addr, Cut(f.size, 0x100), EncodingLen(f.ty))] else []
  }

  /** The layout as computed: the running address is a u16 and wraps. */
  function LaidOut(addr: nat, fields: seq<FieldInfo>): seq<Eeprom>
    decreases |fields|
  {
    if fields == [] then []
    else
      Entry(fields[0], addr) + LaidOut((addr + Cut(fields[0].size, U16_SPAN)) % U16_SPAN, fields[1..])
  }

  method CollectFields(base: nat, infos: seq<FieldInfo>) returns (eeprom: seq<Eeprom>)
    requires base < U16_SPAN
    ensures eeprom == LaidOut(base, infos)
  {
    eeprom := [];
    var addr: nat := base;
    assert infos[0..] == infos && [] + LaidOut(base, infos) == LaidOut(base, infos);
    for i := 0 to |infos|
      invariant LaidOut(base, infos) == eeprom + LaidOut(addr, infos[i..])
    {
      LaidOutStep(eeprom, addr, infos, i);
      eeprom := eeprom + Entry(infos[i], addr);
      addr := (addr + Cut(infos[i].size, U16_SPAN)) % U16_SPAN;
    }
    assert infos[|infos|..] == [] && eeprom + [] == eeprom;
  }

  lemma LaidOutStep(done: seq<Eeprom>, addr: nat, infos: seq<FieldInfo>, i: nat)
    requires i < |infos|
    ensures var next := (addr + Cut(infos[i].size, U16_SPAN)) % U16_SPAN;
      done + LaidOut(addr, infos[i..]) == (done + Entry(infos[i], addr)) + LaidOut(next, infos[i + 1..])
  {
    var next := (addr + Cut(infos[i].size, U16_SPAN)) % U16_SPAN;
    assert infos[i..][0] == infos[i] && infos[i..][1..] == infos[i + 1..];
    AppendAssoc(done, Entry(infos[i], addr), LaidOut(next, infos[i + 1..]));
  }

  predicate AddressesFit(fields: seq<Eeprom>) {
    forall j :: 0 <= j < |fields| ==> fields[j].addr < U16_SPAN
  }

  /** Fields as the generator records them: u16 addresses and u8 sizes. */
  predicate Recorded(fields: seq<Eeprom>) {
    AddressesFit(fields) && forall j :: 0 <= j < |fields| ==> fields[j].size < 0x100
  }

  function WrapAddress(f: Eeprom): Eeprom { f.(addr := f.addr % U16_SPAN) }

  function WrapAddresses(fields: seq<Eeprom>): (w: seq<Eeprom>)
    ensures |w| == |fields| && forall j :: 0 <= j < |w| ==> w[j] == WrapAddress(fields[j])
  {
    if fields == [] then [] else [WrapAddress(fields[0])] + WrapAddresses(fields[1..])
  }

  lemma WrapJoins(a: seq<Eeprom>, b: seq<Eeprom>)
    ensures WrapAddresses(a + b) == WrapAddresses(a) + WrapAddresses(b)
  {
  }

  lemma EntryWraps(f: FieldInfo, base: nat)
    ensures WrapAddresses(Entry(f, base)) == Entry(f, base % U16_SPAN)
  {
  }

  lemma {:induction false} LaidOutWraps(base: nat, infos: seq<FieldInfo>)
    ensures LaidOut(base % U16_SPAN, infos) == WrapAddresses(Layout(base, infos))
    decreases |infos|
  {
    if infos != [] {
      var size := Cut(infos[0].size, U16_SPAN);
      LaidOutWraps(base + size, infos[1..]);
      WrapsOnce(base, size);
      EntryWraps(infos[0], base);
      WrapJoins(Entry(infos[0], base), Layout(base + size, infos[1..]));
    }
  }

  lemma WrapsOnce(base: nat, size: nat)
    ensures (base % U16_SPAN + size) % U16_SPAN == (base + size) % U16_SPAN
  {
    var x := base % U16_SPAN + size;
    ModUnique(base + size, U16_SPAN, base / U16_SPAN + x / U16_SPAN, x % U16_SPAN);
  }

  lemma WrapIsIdentity(fields: seq<Eeprom>)
    ensures WrapAddresses(fields) == fields <==> AddressesFit(fields)
  {
    if !AddressesFit(fields) {
      var j :| 0 <= j < |fields| && fields[j].addr >= U16_SPAN;
      assert WrapAddresses(fields)[j].addr < U16_SPAN;
    }
  }

  /** The generator computes the layout if and only if every EEPROM field of it begins
      below 65536. */
  lemma LayoutExact(base: nat, infos: seq<FieldInfo>)
    requires base < U16_SPAN
    ensures LaidOut(base, infos) == Layout(base, infos) <==> AddressesFit(Layout(base, infos))
  {
    LaidOutWraps(base, infos);
    assert base % U16_SPAN == base;
    WrapIsIdentity(Layout(base, infos));
  }

  /** The bitmap loops: rejected exactly when some EEPROM byte lies outside the two
      windows, and otherwise exact. */
  method BuildBitmaps(fields: seq<Eeprom>) returns (r: Generated)
    requires Recorded(fields)
    ensures r.Rejected? <==> !Accepted(fields)
    ensures r.Bitmaps? ==> r.fields == fields && Exact(r.dxl, r.vendor, fields)
    ensures r.Bitmaps? ==> r.dxl < Pow2(WIDTH) && r.vendor < Pow2(WIDTH)
  {
    var dxl, vendor := 0, 0;
    assert forall i: nat :: !Bit(0, i) by { forall i: nat ensures !Bit(0, i) { BitZero(i); } }
    for j := 0 to |fields|
      invariant Windowed(dxl, vendor, fields, j, 0)
    {
      var f := fields[j];
      for k := 0 to f.size
        invariant Windowed(dxl, vendor, fields, j, k)
      {
        FirstByteIsValid(dxl, vendor, fields, j, k);
        var a := (f.addr + k) % U16_SPAN;
        ByteMarks(dxl, vendor, fields, j, k, a);
        if a < WIDTH {
          dxl := Or(dxl, Pow2(a));
        } else if VENDOR_START <= a < VENDOR_START + WIDTH {
          vendor := Or(vendor, Pow2(a - VENDOR_START));
        } else {
          assert Covers(fields[j], a) && SomeCovers(fields, a);
          return Rejected;
        }
      }
      MarkField(fields, j);
    }
    WindowedIsExact(dxl, vendor, fields);
    r := Bitmaps(dxl, vendor, fields);
  }

  /** Marking one byte of a field. */
  lemma ByteMarks(dxl: nat, vendor: nat, fields: seq<Eeprom>, j: nat, k: nat, a: nat)
    requires j < |fields| && a == fields[j].addr + k && Windowed(dxl, vendor, fields, j, k)
    ensures a < 64 ==> Windowed(Or(dxl, Pow2(a)), vendor, fields, j, k + 1)
    ensures 512 <= a < 576 ==> Windowed(dxl, Or(vendor, Pow2(a - 512)), fields, j, k + 1)
  {
    MarkStep(fields, j, k);
    if a < 64 {
      MarkBit(dxl, a);
    } else if 512 <= a < 576 {
      MarkBit(vendor, a - 512);
    }
  }

  lemma WindowedIsExact(dxl: nat, vendor: nat, fields: seq<Eeprom>)
    requires Windowed(dxl, vendor, fields, |fields|, 0)
    ensures Accepted(fields) && Exact(dxl, vendor, fields) && dxl < Pow2(WIDTH) && vendor < Pow2(WIDTH)
  {
    MarkAll(fields);
    BelowWord(dxl);
    BelowWord(vendor);
  }

  /** The first byte of a field is looked at first, so no later one wraps. */
  lemma FirstByteIsValid(dxl: nat, vendor: nat, fields: seq<Eeprom>, j: nat, k: nat)
    requires j < |fields| && k < fields[j].size < 0x100 && AddressesFit(fields) && Windowed(dxl, vendor, fields, j, k)
    ensures (fields[j].addr + k) % U16_SPAN == fields[j].addr + k
  {
    if k > 0 {
      assert Marked(fields, j, k, fields[j].addr);
    }
  }

  ghost predicate Windowed(dxl: nat, vendor: nat, fields: seq<Eeprom>, j: nat, k: nat)
    requires j <= |fields| && (j < |fields| || k == 0)
  {
    && (forall i: nat :: Bit(dxl, i) <==> i < WIDTH && Marked(fields, j, k, i))
    && (forall i: nat :: Bit(vendor, i) <==> i < WIDTH && Marked(fields, j, k, VENDOR_START + i))
    && (forall a: nat :: Marked(fields, j, k, a) ==> ValidAddress(a))
  }

  lemma MarkBit(map': nat, a: nat)
    ensures forall i: nat :: Bit(Or(map', Pow2(a)), i) <==> Bit(map', i) || i == a
  {
    forall i: nat ensures Bit(Or(map', Pow2(a)), i) <==> Bit(map', i) || i == a {
      BitOr(map', Pow2(a), i);
      BitPow(a, i);
    }
  }

  lemma MarkStep(fields: seq<Eeprom>, j: nat, k: nat)
    requires j < |fields|
    ensures forall a: nat :: Marked(fields, j, k + 1, a) <==> Marked(fields, j, k, a) || a == fields[j].addr + k
  {
    forall a: nat ensures Marked(fields, j, k + 1, a) <==> Marked(fields, j, k, a) || a == fields[j].addr + k {
      var before := exists i :: 0 <= i < j && Covers(fields[i], a);
      assert Marked(fields, j, k, a) <==> before || fields[j].addr <= a < fields[j].addr + k;
      assert Marked(fields, j, k + 1, a) <==> before || fields[j].addr <= a < fields[j].addr + k + 1;
    }
  }

  lemma MarkField(fields: seq<Eeprom>, j: nat)
    requires j < |fields|
    ensures forall a: nat :: Marked(fields, j + 1, 0, a) <==> Marked(fields, j, fields[j].size, a)
  {
    forall a: nat ensures Marked(fields, j + 1, 0, a) <==> Marked(fields, j, fields[j].size, a) {
      if Covers(fields[j], a) { assert Marked(fields, j + 1, 0, a); }
    }
  }

  lemma MarkAll(fields: seq<Eeprom>)
    ensures forall a: nat :: Marked(fields, |fields|, 0, a) <==> SomeCovers(fields, a)
  {
  }

  /** A number whose bits all lie below 64 fits a u64. */
  lemma {:induction false} FitsWord(x: nat, w: nat)
    requires forall i: nat :: Bit(x, i) ==> i < w
    ensures x < Pow2(w)
  {
    if w == 0 {
      if x != 0 { var i := NonZeroHasBit(x); }
    } else {
      forall i: nat | Bit(x / 2, i) ensures i < w - 1 { assert Bit(x, i + 1); }
      FitsWord(x / 2, w - 1);
    }
  }

  lemma BelowWord(x: nat)
    requires forall i: nat :: Bit(x, i) ==> i < WIDTH
    ensures x < Pow2(WIDTH)
  {
    FitsWord(x, WIDTH);
  }

  // ---------------------------------------------------------------------
  // Lookups
  // ---------------------------------------------------------------------

  function SatAdd16(a: nat, b: nat): nat {
    if a + b > U16_MAX then U16_MAX else a + b
  }

  function SatSub(a: nat, b: nat): nat {
    if a < b then 0 else a - b
  }

  /** Bits start..end of a word of w bits. */
  function MaskIn(w: nat, start: nat, end: nat): nat
    requires start < w
  {
    PowMonotone(start, w);
    if end >= w then Pow2(w) - Pow2(start)
    else if end <= start then 0
    else And(Pow2(end) - 1, Not(Pow2(start) - 1, w))
  }

  /** `range_mask`: bits start..end of a u64. */
  function RangeMask(start: nat, end: nat): nat
    requires start < WIDTH
  {
    MaskIn(WIDTH, start, end)
  }

  lemma RangeMaskBits(start: nat, end: nat, i: nat)
    requires start < WIDTH
    ensures Bit(RangeMask(start, end), i) <==> start <= i < Min(end, WIDTH)
  {
    MaskInBits(WIDTH, start, end, i);
  }

  lemma MaskInBits(w: nat, start: nat, end: nat, i: nat)
    requires start < w
    ensures Bit(MaskIn(w, start, end), i) <==> start <= i < Min(end, w)
  {
    HighBits(w, start, i);
    if end < w {
      if end <= start {
        BitZero(i);
      } else {
        BitLow(end, i);
        BitAnd(Pow2(end) - 1, Not(Pow2(start) - 1, w), i);
      }
    }
  }

  /** The complement of the low bits, in both of its spellings. */
  lemma HighBits(w: nat, start: nat, i: nat)
    requires start < w
    ensures Pow2(start) - 1 < Pow2(w) && Not(Pow2(start) - 1, w) == Pow2(w) - Pow2(start)
    ensures Bit(Pow2(w) - Pow2(start), i) <==> start <= i < w
  {
    PowMonotone(start, w);
    BitLow(start, i);
    BitNot(Pow2(start) - 1, w, i);
  }

  /** `touches_eeprom`, on the generated constants. */
  function TouchesEeprom(dxl: nat, vendor: nat, offset: nat, len: nat): bool {
    var end := SatAdd16(offset, len);
    || (offset < WIDTH && And(dxl, RangeMask(offset, Min(end, WIDTH))) != 0)
    || (end > VENDOR_START && offset < VENDOR_START + WIDTH
        && And(vendor, RangeMask(SatSub(offset, VENDOR_START), Min(SatSub(end, VENDOR_START), WIDTH))) != 0)
  }

  ghost predicate Shares(fields: seq<Eeprom>, offset: nat, len: nat) {
    exists a: nat :: offset <= a < offset + len && SomeCovers(fields, a)
  }

  lemma WindowMeets(map': nat, fields: seq<Eeprom>, base: nat, start: nat, end: nat)
    requires start < WIDTH
    requires forall i: nat :: Bit(map', i) <==> i < WIDTH && SomeCovers(fields, base + i)
    ensures And(map', RangeMask(start, end)) != 0 <==>
      exists a: nat :: base + start <= a < base + Min(end, WIDTH) && SomeCovers(fields, a)
  {
    var mask := RangeMask(start, end);
    AndMeets(map', mask);
    forall i: nat ensures Bit(mask, i) <==> start <= i < Min(end, WIDTH) { RangeMaskBits(start, end, i); }
    if And(map', mask) != 0 {
      var i: nat :| Bit(map', i) && Bit(mask, i);
      assert SomeCovers(fields, base + i);
    }
    forall a: nat | base + start <= a < base + Min(end, WIDTH) && SomeCovers(fields, a)
      ensures And(map', mask) != 0
    {
      var i: nat := a - base;
      assert SomeCovers(fields, base + i);
      MeetAt(map', mask, i);
    }
  }

  /** For every accepted layout and every range, the bitmap answer is the field
      scan's: the range shares a byte with some EEPROM field. */
  lemma TouchesIsScan(dxl: nat, vendor: nat, fields: seq<Eeprom>, offset: nat, len: nat)
    requires Accepted(fields) && Exact(dxl, vendor, fields) && offset <= 0xFFFF
    ensures TouchesEeprom(dxl, vendor, offset, len) <==> Shares(fields, offset, len)
  {
    var end := SatAdd16(offset, len);
    if offset < WIDTH {
      WindowMeets(dxl, fields, 0, offset, Min(end, WIDTH));
    }
    if end > VENDOR_START && offset < VENDOR_START + WIDTH {
      WindowMeets(vendor, fields, VENDOR_START, SatSub(offset, VENDOR_START), Min(SatSub(end, VENDOR_START), WIDTH));
    }
    if Shares(fields, offset, len) {
      var a: nat :| offset <= a < offset + len && SomeCovers(fields, a);
      assert ValidAddress(a);
    }
  }

  predicate Overlaps(f: Eeprom, addr: nat, end: nat) {
    addr < SatAdd16(f.addr, f.len) && f.addr < end
  }

  function KeysFor(fields: seq<Eeprom>, addr: nat, end: nat): seq<nat> {
    if fields == [] then []
    else
      var f := fields[|fields| - 1];
      KeysFor(fields[..|fields| - 1], addr, end) + (if Overlaps(f, addr, end) then [f.hash] else [])
  }

  /** The keys pushed for a range of less than 65536 bytes. */
  function Pushed(dxl: nat, vendor: nat, fields: seq<Eeprom>, addr: nat, len: nat): seq<nat> {
    if TouchesEeprom(dxl, vendor, addr, len) then KeysFor(fields, addr, SatAdd16(addr, len)) else []
  }

  /** `push_persist_keys_for_range`; `len as u16` keeps the low 16 bits. */
  method PushPersistKeys(dxl: nat, vendor: nat, fields: seq<Eeprom>, addr: nat, len: nat)
    returns (any: bool, keys: seq<nat>)
    ensures keys == Pushed(dxl, vendor, fields, addr, len % U16_SPAN)
    ensures any == (keys != [])
  {
    any, keys := false, [];
    var len16 := len % U16_SPAN;
    if !TouchesEeprom(dxl, vendor, addr, len16) {
      return;
    }
    var end := SatAdd16(addr, len16);
    for i := 0 to |fields|
      invariant keys == KeysFor(fields[..i], addr, end) && any == (keys != [])
    {
      assert fields[..i + 1][..i] == fields[..i] && fields[..i + 1][i] == fields[i];
      if Overlaps(fields[i], addr, end) {
        keys := keys + [fields[i].hash];
        any := true;
      }
    }
    assert fields[..|fields|] == fields;
  }

  ghost predicate Meets(f: Eeprom, offset: nat, len: nat) {
    exists a: nat :: offset <= a < offset + len && Covers(f, a)
  }

  /** The specification reports the field's whole size; an empty field past the last
      address a range can end at is never looked at. */
  predicate Reported(f: Eeprom) { f.size == f.len || (f.size == 0 && f.addr >= 0xFFFF) }

  ghost predicate AllReported(fields: seq<Eeprom>) {
    forall j :: 0 <= j < |fields| ==> fields[j].len > 0 && Reported(fields[j])
  }

  ghost predicate AllEmpty(fields: seq<Eeprom>) {
    forall j :: 0 <= j < |fields| ==> fields[j].size == 0
  }

  lemma OverlapIsMeet(fields: seq<Eeprom>, f: Eeprom, offset: nat, len: nat)
    requires f in fields && Accepted(fields) && Reported(f) && f.len > 0 && offset <= 0xFFFF && 0 < len < U16_SPAN
    ensures Overlaps(f, offset, SatAdd16(offset, len)) <==> Meets(f, offset, len)
  {
    if f.size == f.len {
      var last := f.addr + f.size - 1;
      assert Covers(f, f.addr) && SomeCovers(fields, f.addr) && ValidAddress(f.addr);
      assert Covers(f, last) && SomeCovers(fields, last) && ValidAddress(last);
      if Overlaps(f, offset, SatAdd16(offset, len)) {
        var a := if f.addr < offset then offset else f.addr;
        assert offset <= a < offset + len && Covers(f, a);
      }
    }
  }

  /** The hashes of exactly the fields a range shares a byte with, in field order. */
  ghost function Hashes(fields: seq<Eeprom>, offset: nat, len: nat): seq<nat> {
    if fields == [] then []
    else
      var f := fields[|fields| - 1];
      Hashes(fields[..|fields| - 1], offset, len) + (if Meets(f, offset, len) then [f.hash] else [])
  }

  lemma {:induction false} KeysAreHashes(all: seq<Eeprom>, fields: seq<Eeprom>, offset: nat, len: nat)
    requires Accepted(all) && (forall f :: f in fields ==> f in all && f.len > 0 && Reported(f))
    requires offset <= 0xFFFF && 0 < len < U16_SPAN
    ensures KeysFor(fields, offset, SatAdd16(offset, len)) == Hashes(fields, offset, len)
  {
    if fields != [] {
      KeysAreHashes(all, fields[..|fields| - 1], offset, len);
      OverlapIsMeet(all, fields[|fields| - 1], offset, len);
    }
  }

  lemma {:induction false} NoHashes(fields: seq<Eeprom>, offset: nat, len: nat)
    requires forall j :: 0 <= j < |fields| ==> !Meets(fields[j], offset, len)
    ensures Hashes(fields, offset, len) == []
  {
    if fields != [] { NoHashes(fields[..|fields| - 1], offset, len); }
  }

  lemma NothingShared(fields: seq<Eeprom>, offset: nat, len: nat)
    requires !Shares(fields, offset, len)
    ensures Hashes(fields, offset, len) == []
  {
    forall j | 0 <= j < |fields| ensures !Meets(fields[j], offset, len) {
      if Meets(fields[j], offset, len) {
        var a: nat :| offset <= a < offset + len && Covers(fields[j], a);
        assert SomeCovers(fields, a);
      }
    }
    NoHashes(fields, offset, len);
  }

  /** When every field reports its size the policy pushes exactly the hashes of the
      fields a range touches. */
  lemma PolicyIsScan(dxl: nat, vendor: nat, fields: seq<Eeprom>, offset: nat, len: nat)
    requires Accepted(fields) && Exact(dxl, vendor, fields) && AllReported(fields)
    requires offset <= 0xFFFF && len < U16_SPAN
    ensures Pushed(dxl, vendor, fields, offset, len) == Hashes(fields, offset, len)
  {
    TouchesIsScan(dxl, vendor, fields, offset, len);
    if Shares(fields, offset, len) {
      KeysAreHashes(fields, fields, offset, len);
    } else {
      NothingShared(fields, offset, len);
    }
  }

  // ---------------------------------------------------------------------
  // Lengths of 65536 and more
  // ---------------------------------------------------------------------

  /** No field of the whole range is missed by its first m bytes. */
  ghost predicate NoneLost(fields: seq<Eeprom>, offset: nat, m: nat, len: nat) {
    forall j :: 0 <= j < |fields| && Meets(fields[j], offset, len) ==> Meets(fields[j], offset, m)
  }

  lemma {:induction false} ShorterHashes(fields: seq<Eeprom>, offset: nat, m: nat, len: nat)
    requires m <= len
    ensures |Hashes(fields, offset, m)| <= |Hashes(fields, offset, len)|
    ensures Hashes(fields, offset, m) == Hashes(fields, offset, len) <==> NoneLost(fields, offset, m, len)
  {
    if fields != [] {
      var n := |fields| - 1;
      var f, rest := fields[n], fields[..n];
      ShorterHashes(rest, offset, m, len);
      assert Meets(f, offset, m) ==> Meets(f, offset, len);
      assert NoneLost(fields, offset, m, len)
        <==> NoneLost(rest, offset, m, len) && (Meets(f, offset, len) ==> Meets(f, offset, m)) by {
        assert forall j :: 0 <= j < n ==> rest[j] == fields[j];
      }
      if Meets(f, offset, m) {
        SameTail(Hashes(rest, offset, m), Hashes(rest, offset, len), f.hash);
      } else {
        var x, y := Hashes(rest, offset, m), Hashes(rest, offset, len);
        assert x + [] == x && y + [] == y;
        assert Meets(f, offset, len) ==> |y + [f.hash]| > |x|;
      }
    }
  }

  lemma SameTail(x: seq<nat>, y: seq<nat>, h: nat)
    ensures x + [h] == y + [h] <==> x == y
  {
    if x + [h] == y + [h] {
      assert x == (x + [h])[..|x|] && y == (y + [h])[..|y|];
    }
  }

  /** The `usize` length is cut to its low 16 bits: the pushed keys are those of the cut
      range, and they are the keys of the whole range if and only if no field is lost.
      A multiple of 65536 pushes nothing. */
  lemma PolicyCutsLength(dxl: nat, vendor: nat, fields: seq<Eeprom>, offset: nat, len: nat)
    requires Accepted(fields) && Exact(dxl, vendor, fields) && AllReported(fields) && offset <= 0xFFFF
    ensures var keys := Pushed(dxl, vendor, fields, offset, len % U16_SPAN);
      && keys == Hashes(fields, offset, len % U16_SPAN)
      && (keys == Hashes(fields, offset, len) <==> NoneLost(fields, offset, len % U16_SPAN, len))
      && (len % U16_SPAN == 0 ==> keys == [])
  {
    var m := len % U16_SPAN;
    PolicyIsScan(dxl, vendor, fields, offset, m);
    ShorterHashes(fields, offset, m, len);
    if m == 0 {
      NothingShared(fields, offset, 0);
    }
  }

  // ---------------------------------------------------------------------
  // When the policy is exact
  // ---------------------------------------------------------------------

  ghost predicate PolicyExact(dxl: nat, vendor: nat, fields: seq<Eeprom>) {
    forall offset: nat, len: nat :: offset <= 0xFFFF && len < U16_SPAN ==>
      Pushed(dxl, vendor, fields, offset, len) == Hashes(fields, offset, len)
  }

  /** What the generator lays out: fields in order, no encoding longer than its field
      but the one byte an array of a multiple of 256 bytes reports. */
  ghost predicate Laid(fields: seq<Eeprom>) {
    && (forall j :: 0 <= j < |fields| ==> Sized(fields[j]))
    && (forall i, j :: 0 <= i < j < |fields| ==> fields[i].addr + fields[i].size <= fields[j].addr)
  }

  /** One byte past a field's encoding every key pushed is a hash owed, and the
      field's own hash is owed but not pushed. */
  lemma {:induction false} FewerKeys(fields: seq<Eeprom>, wide: Eeprom)
    requires 0 < wide.len < wide.size && wide.addr + wide.size <= 0xFFFF
    requires var at := wide.addr + wide.len; forall f :: f in fields && Overlaps(f, at, at + 1) ==> Covers(f, at)
    ensures var at := wide.addr + wide.len;
      |KeysFor(fields, at, at + 1)| + (if wide in fields then 1 else 0) <= |Hashes(fields, at, 1)|
  {
    if fields != [] {
      var at := wide.addr + wide.len;
      var f, rest := fields[|fields| - 1], fields[..|fields| - 1];
      FewerKeys(rest, wide);
      assert Overlaps(f, at, at + 1) ==> Covers(f, at);
      assert Covers(f, at) ==> Meets(f, at, 1);
      assert f == wide ==> !Overlaps(f, at, at + 1) && Meets(f, at, 1);
      assert wide in fields ==> f == wide || wide in rest;
    }
  }

  lemma WideIsMissed(dxl: nat, vendor: nat, fields: seq<Eeprom>, j: nat)
    requires Accepted(fields) && Exact(dxl, vendor, fields) && Laid(fields)
    requires j < |fields| && fields[j].len < fields[j].size
    ensures !PolicyExact(dxl, vendor, fields)
  {
    var wide := fields[j];
    var at, last := wide.addr + wide.len, wide.addr + wide.size - 1;
    assert Covers(wide, last) && SomeCovers(fields, last) && ValidAddress(last);
    OnlyCovered(fields, j, at);
    FewerKeys(fields, wide);
    PushedIs(dxl, vendor, fields, at, 1);
    Missing(dxl, vendor, fields, at, 1, Pushed(dxl, vendor, fields, at, 1));
  }

  lemma OnlyCovered(fields: seq<Eeprom>, j: nat, at: nat)
    requires Laid(fields) && j < |fields| && fields[j].len < fields[j].size && at == fields[j].addr + fields[j].len
    ensures forall i :: 0 <= i < |fields| ==> (Overlaps(fields[i], at, at + 1) ==> Covers(fields[i], at))
  {
    var wide := fields[j];
    forall i | 0 <= i < |fields| ensures Overlaps(fields[i], at, at + 1) ==> Covers(fields[i], at) {
      assert i < j ==> fields[i].addr + fields[i].size <= wide.addr;
      assert i > j ==> wide.addr + wide.size <= fields[i].addr;
      OverlapCovers(fields[i], wide);
    }
  }

  lemma OverlapCovers(f: Eeprom, wide: Eeprom)
    requires Sized(f) && 0 < wide.len < wide.size
    requires f == wide || f.addr + f.size <= wide.addr || wide.addr + wide.size <= f.addr
    ensures var at := wide.addr + wide.len; Overlaps(f, at, at + 1) ==> Covers(f, at)
  {
  }

  lemma PushedIs(dxl: nat, vendor: nat, fields: seq<Eeprom>, offset: nat, len: nat)
    ensures var keys, all := Pushed(dxl, vendor, fields, offset, len), KeysFor(fields, offset, SatAdd16(offset, len));
      |keys| <= |all| && (TouchesEeprom(dxl, vendor, offset, len) ==> keys == all)
  {
  }

  /** A range whose keys and hashes differ in number. */
  lemma Missing(dxl: nat, vendor: nat, fields: seq<Eeprom>, offset: nat, len: nat, keys: seq<nat>)
    requires offset <= 0xFFFF && len < U16_SPAN && keys == Pushed(dxl, vendor, fields, offset, len)
    requires |keys| != |Hashes(fields, offset, len)|
    ensures !PolicyExact(dxl, vendor, fields)
  {
  }

  /** Over a range that meets every field it shares a byte with, the keys include all
      hashes owed, and one more for an empty field it overlaps. */
  lemma {:induction false} MoreKeys(fields: seq<Eeprom>, empty: Eeprom, offset: nat, len: nat)
    requires offset + len <= 0xFFFF && empty.size == 0 && Overlaps(empty, offset, offset + len)
    requires forall f :: f in fields && Meets(f, offset, len) ==> Overlaps(f, offset, offset + len)
    ensures |Hashes(fields, offset, len)| + (if empty in fields then 1 else 0)
         <= |KeysFor(fields, offset, offset + len)|
  {
    if fields != [] {
      var f, rest := fields[|fields| - 1], fields[..|fields| - 1];
      MoreKeys(rest, empty, offset, len);
      assert f == empty ==> !Meets(f, offset, len);
      assert empty in fields ==> f == empty || empty in rest;
    }
  }

  lemma EmptyIsPushed(dxl: nat, vendor: nat, fields: seq<Eeprom>, i: nat, j: nat)
    requires Accepted(fields) && Exact(dxl, vendor, fields) && i < |fields| && j < |fields|
    requires forall f :: f in fields && f.size > 0 ==> f.size == f.len
    requires fields[i].size == 0 && fields[i].len == 1 && fields[i].addr < 0xFFFF && fields[j].size > 0
    ensures !PolicyExact(dxl, vendor, fields)
  {
    var e, g := fields[i], fields[j];
    assert Covers(g, g.addr) && SomeCovers(fields, g.addr) && ValidAddress(g.addr);
    var offset := Min(e.addr, g.addr);
    var len := Max(e.addr, g.addr) + 1 - offset;
    forall f | f in fields && Meets(f, offset, len) ensures Overlaps(f, offset, offset + len) {
      var a: nat :| offset <= a < offset + len && Covers(f, a);
    }
    MoreKeys(fields, e, offset, len);
    TouchesIsScan(dxl, vendor, fields, offset, len);
    assert Shares(fields, offset, len);
    PushedIs(dxl, vendor, fields, offset, len);
    Missing(dxl, vendor, fields, offset, len, Pushed(dxl, vendor, fields, offset, len));
  }

  lemma ReportedIsExact(dxl: nat, vendor: nat, fields: seq<Eeprom>)
    requires Accepted(fields) && Exact(dxl, vendor, fields) && (AllReported(fields) || AllEmpty(fields))
    ensures PolicyExact(dxl, vendor, fields)
  {
    forall offset: nat, len: nat | offset <= 0xFFFF && len < U16_SPAN
      ensures Pushed(dxl, vendor, fields, offset, len) == Hashes(fields, offset, len)
    {
      if AllReported(fields) {
        PolicyIsScan(dxl, vendor, fields, offset, len);
      } else {
        TouchesIsScan(dxl, vendor, fields, offset, len);
        assert !Shares(fields, offset, len);
        NothingShared(fields, offset, len);
      }
    }
  }

  /** On everything the generator can lay out, the policy is exact on every range if and
      only if every EEPROM field is as long as its specification says, or none has a
      byte: a u64 or an array field spoils it. */
  lemma PolicyExactIffReported(dxl: nat, vendor: nat, fields: seq<Eeprom>)
    requires Accepted(fields) && Exact(dxl, vendor, fields) && Laid(fields)
    ensures PolicyExact(dxl, vendor, fields) <==> AllReported(fields) || AllEmpty(fields)
  {
    if AllReported(fields) || AllEmpty(fields) {
      ReportedIsExact(dxl, vendor, fields);
    } else {
      var i :| 0 <= i < |fields| && !Reported(fields[i]);
      var j :| 0 <= j < |fields| && fields[j].size != 0;
      if k :| 0 <= k < |fields| && fields[k].len < fields[k].size {
        WideIsMissed(dxl, vendor, fields, k);
      } else {
        EmptyIsPushed(dxl, vendor, fields, i, j);
      }
    }
  }

  predicate ScalarType(ty: Ty) {
    !ty.Array? && !ty.U64? && !ty.I64?
  }

  /** From the base up, in order, and without a shared byte. */
  ghost predicate Packed(base: nat, fields: seq<Eeprom>) {
    && (forall i :: 0 <= i < |fields| ==> base <= fields[i].addr)
    && (forall i, j :: 0 <= i < j < |fields| ==> fields[i].addr + fields[i].size <= fields[j].addr)
  }

  lemma PackedCons(base: nat, next: nat, f: Eeprom, rest: seq<Eeprom>)
    requires Packed(next, rest) && f.addr == base && base + f.size <= next
    ensures Packed(base, [f] + rest)
  {
  }

  lemma LowByte(x: nat)
    ensures Cut(x, 0x100) <= Cut(x, U16_SPAN)
  {
    CutIsMod(x, 0x100);
    CutIsMod(x, U16_SPAN);
    LowByteMod(x);
  }

  lemma LowByteMod(x: nat)
    ensures x % 0x100 <= x % U16_SPAN
  {
    var q, r := x / U16_SPAN, x % U16_SPAN;
    ModUnique(x, 0x100, 0x100 * q + r / 0x100, r % 0x100);
  }

  /** A field's entry ends before the next field begins. */
  lemma EntryEnds(f: FieldInfo, base: nat)
    ensures var own := Entry(f, base);
      |own| <= 1 && (own != [] ==> own[0].addr == base && base + own[0].size <= base + Cut(f.size, U16_SPAN))
  {
    LowByte(f.size);
  }

  /** Fields are laid out in order and never share a byte. */
  lemma {:induction false} LayoutPacks(base: nat, infos: seq<FieldInfo>)
    ensures Packed(base, Layout(base, infos))
    decreases |infos|
  {
    if infos != [] {
      var next := base + Cut(infos[0].size, U16_SPAN);
      LayoutPacks(next, infos[1..]);
      EntryEnds(infos[0], base);
      PackedJoin(base, next, Entry(infos[0], base), Layout(next, infos[1..]));
    }
  }

  lemma PackedJoin(base: nat, next: nat, own: seq<Eeprom>, rest: seq<Eeprom>)
    requires Packed(next, rest) && base <= next && |own| <= 1
    requires own != [] ==> own[0].addr == base && base + own[0].size <= next
    ensures Packed(base, own + rest)
  {
    if own == [] {
      assert own + rest == rest;
    } else {
      assert own == [own[0]];
      PackedCons(base, next, own[0], rest);
    }
  }

  /** No encoding is longer than its field but the one byte of an array. */
  predicate Sized(f: Eeprom) { 0 < f.len <= f.size || (f.size == 0 && f.len == 1) }

  lemma EntrySized(f: FieldInfo, base: nat)
    requires f.size == TypeSize(f.ty) && Collected(f)
    ensures Sized(Entry(f, base)[0])
  {
    if !f.ty.Array? {
      assert 0 < EncodingLen(f.ty) <= TypeSize(f.ty) < 0x100;
    }
  }

  lemma {:induction false} LayoutSized(base: nat, infos: seq<FieldInfo>)
    requires Typed(infos)
    ensures forall j :: 0 <= j < |Layout(base, infos)| ==> Sized(Layout(base, infos)[j])
    decreases |infos|
  {
    if infos != [] {
      LayoutSized(base + Cut(infos[0].size, U16_SPAN), infos[1..]);
      if Collected(infos[0]) {
        EntrySized(infos[0], base);
      }
    }
  }

  /** Everything the generator lays out is `Laid`. */
  lemma LayoutLaid(base: nat, infos: seq<FieldInfo>)
    requires Typed(infos)
    ensures Laid(Layout(base, infos))
  {
    LayoutPacks(base, infos);
    LayoutSized(base, infos);
  }

  /** What the generator computes is always recorded in u16 and u8. */
  lemma {:induction false} LaidOutRecorded(base: nat, infos: seq<FieldInfo>)
    requires base < U16_SPAN
    ensures Recorded(LaidOut(base, infos))
    decreases |infos|
  {
    if infos != [] {
      LaidOutRecorded((base + Cut(infos[0].size, U16_SPAN)) % U16_SPAN, infos[1..]);
    }
  }

  /** Scalar fields of at most four bytes report their size. */
  lemma {:induction false} ScalarLayout(base: nat, infos: seq<FieldInfo>)
    requires Typed(infos)
    requires forall i :: 0 <= i < |infos| && Collected(infos[i]) ==> ScalarType(infos[i].ty)
    ensures AllReported(Layout(base, infos))
    decreases |infos|
  {
    if infos != [] {
      ScalarLayout(base + Cut(infos[0].size, U16_SPAN), infos[1..]);
      if Collected(infos[0]) {
        assert Cut(infos[0].size, 0x100) == infos[0].size == EncodingLen(infos[0].ty);
      }
    }
  }
}
