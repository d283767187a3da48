/** The EEPROM persistence service of firmware-old/open-servo-services/src/persist.rs:
a write-through cache over a flash key-value store in which any operation may fail. */
module Persist {
  import opened Basics

  const MAX_FIELD_LEN: nat := 8
  const TORQUE_ENABLE_ADDR: nat := 64
  const ID_ADDR: nat := 7
  const BAUD_RATE_ADDR: nat := 8

  /** One EEPROM field: the FNV-1a hash of its name, its address and its size. */
  datatype RegSpec = RegSpec(hash: nat, address: nat, len: nat)

  datatype PersistResult = Ok | Busy | WriteFailed | NoChange | FirstBoot | LengthMismatch

  datatype ResetLevel = All | ExceptId | ExceptIdBaud

  predicate ShouldPreserve(level: ResetLevel, addr: nat) {
    match level
    case All => false
    case ExceptId => addr == ID_ADDR
    case ExceptIdBaud => addr == ID_ADDR || addr == BAUD_RATE_ADDR
  }

  // ---------------------------------------------------------------------
  // The registry
  // ---------------------------------------------------------------------

  /** The hash map as `init` builds it: a later insert of the same hash wins. */
  function IndexFrom(fields: seq<RegSpec>, hash: nat): Option<nat> {
    if fields == [] then None
    else if fields[|fields| - 1].hash == hash then Some(|fields| - 1)
    else IndexFrom(fields[..|fields| - 1], hash)
  }

  ghost predicate DistinctHashes(fields: seq<RegSpec>) {
    forall i, j :: 0 <= i < j < |fields| ==> fields[i].hash != fields[j].hash
  }

  ghost predicate Apart(a: RegSpec, b: RegSpec) {
    a.address + a.len <= b.address || b.address + b.len <= a.address
  }

  ghost predicate DisjointRanges(fields: seq<RegSpec>) {
    forall i, j :: 0 <= i < j < |fields| ==> Apart(fields[i], fields[j])
  }

  /** With distinct hashes the lookup finds every field at its own position. */
  lemma {:induction false} IndexIsPosition(fields: seq<RegSpec>, i: nat)
    requires DistinctHashes(fields) && i < |fields|
    ensures IndexFrom(fields, fields[i].hash) == Some(i)
  {
    if i < |fields| - 1 {
      IndexIsPosition(fields[..|fields| - 1], i);
    }
  }

  // ---------------------------------------------------------------------
  // Flash and shadow table
  // ---------------------------------------------------------------------

  datatype Fetched = Value(bytes: seq<Byte>) | Absent | FetchError

  type Items = map<nat, seq<Byte>>

  /** `sequential-storage`: any call may fail, and a failed call changes nothing.
      A stored value longer than a `FieldValue` does not deserialise. */
  class Flash {
    var items: Items
    /** Calls that have failed so far. */
    ghost var faults: nat
    /** Stores and removals tried so far. */
    ghost var writes: nat

    constructor (items: Items)
      ensures this.items == items && faults == writes == 0
    {
      this.items, faults, writes := items, 0, 0;
    }

    method Fetch(key: nat) returns (r: Fetched)
      modifies this`faults
      ensures faults == old(faults) + if r.FetchError? then 1 else 0
      ensures r.Value? ==> key in items && items[key] == r.bytes && |r.bytes| <= MAX_FIELD_LEN
      ensures r.Absent? ==> key !in items
    {
      if key !in items {
        r := Absent;
      } else if |items[key]| <= MAX_FIELD_LEN {
        r := Value(items[key]);
      } else {
        r := FetchError;
        faults := faults + 1;
      }
    }

    method Store(key: nat, value: seq<Byte>) returns (ok: bool)
      modifies this
      ensures items == if ok then old(items)[key := value] else old(items)
      ensures faults == old(faults) + (if ok then 0 else 1) && writes == old(writes) + 1
    {
      items, writes := items[key := value], writes + 1;
      ok := true;
    }

    method Remove(key: nat) returns (ok: bool)
      modifies this
      ensures items == if ok then old(items) - {key} else old(items)
      ensures faults == old(faults) + (if ok then 0 else 1) && writes == old(writes) + 1
    {
      items, writes := items - {key}, writes + 1;
      ok := true;
    }
  }

  /** The shadow table: reads and writes may be refused. */
  class Shadow {
    var bytes: seq<Byte>
    ghost var faults: nat

    constructor (bytes: seq<Byte>)
      ensures this.bytes == bytes && faults == 0
    {
      this.bytes, faults := bytes, 0;
    }

    method HostRead(addr: nat, len: nat) returns (r: Option<seq<Byte>>)
      modifies this`faults
      ensures faults == old(faults) + if r.None? then 1 else 0
      ensures r.Some? ==> addr + len <= |bytes| && r.value == bytes[addr..addr + len]
    {
      r := if addr + len <= |bytes| then Some(bytes[addr..addr + len]) else None;
      faults := if r.None? then faults + 1 else faults;
    }

    method HostWrite(addr: nat, data: seq<Byte>) returns (ok: bool)
      modifies this
      ensures ok ==> addr + |data| <= |bytes| && bytes == Overwrite(old(bytes), addr, data)
      ensures !ok ==> bytes == old(bytes)
      ensures faults == old(faults) + if ok then 0 else 1
    {
      ok := addr + |data| <= |bytes|;
      if ok {
        bytes := Overwrite(bytes, addr, data);
      } else {
        faults := faults + 1;
      }
    }
  }

  function Overwrite(bytes: seq<Byte>, addr: nat, data: seq<Byte>): (r: seq<Byte>)
    ensures |r| == |bytes|
  {
    if addr + |data| <= |bytes| then bytes[..addr] + data + bytes[addr + |data|..] else bytes
  }

  /** The bytes a field covers. */
  ghost function Slice(bytes: seq<Byte>, f: RegSpec): seq<Byte> {
    if f.address + f.len <= |bytes| then bytes[f.address..f.address + f.len] else []
  }

  lemma OverwriteSlice(bytes: seq<Byte>, f: RegSpec, data: seq<Byte>, g: RegSpec)
    requires |data| == f.len && f.address + f.len <= |bytes|
    ensures Slice(Overwrite(bytes, f.address, data), f) == data
    ensures Apart(f, g) ==> Slice(Overwrite(bytes, f.address, data), g) == Slice(bytes, g)
  {
  }

  // ---------------------------------------------------------------------
  // The invariant
  // ---------------------------------------------------------------------

  /** `CacheEntry::from_slice` and `FieldValue::from_slice` keep at most 8 bytes;
      the empty entry is the erased state. */
  function Clip(data: seq<Byte>): seq<Byte> {
    if |data| <= MAX_FIELD_LEN then data else data[..MAX_FIELD_LEN]
  }

  /** A non-empty cache entry is what flash holds under the field's key. */
  ghost predicate Agrees(fields: seq<RegSpec>, cache: seq<seq<Byte>>, items: Items) {
    && |cache| == |fields|
    && forall i :: 0 <= i < |fields| && cache[i] != [] ==> fields[i].hash in items && items[fields[i].hash] == cache[i]
  }

  /** Fields the service persists. */
  ghost predicate Persisted(f: RegSpec) {
    0 < f.len <= MAX_FIELD_LEN
  }

  ghost predicate Holds(items: Items, f: RegSpec, bytes: seq<Byte>) {
    f.address + f.len <= |bytes| && f.hash in items && items[f.hash] == Slice(bytes, f)
  }

  /** Flash holds the whole of the persisted part of the table. */
  ghost predicate HoldsAll(fields: seq<RegSpec>, items: Items, bytes: seq<Byte>, n: nat)
    requires n <= |fields|
  {
    forall i :: 0 <= i < n && Persisted(fields[i]) ==> Holds(items, fields[i], bytes)
  }

  lemma StoreAgrees(fields: seq<RegSpec>, cache: seq<seq<Byte>>, items: Items, i: nat, value: seq<Byte>)
    requires DistinctHashes(fields) && Agrees(fields, cache, items) && i < |fields|
    ensures Agrees(fields, cache[i := value], items[fields[i].hash := value])
  {
  }

  lemma RemoveAgrees(fields: seq<RegSpec>, cache: seq<seq<Byte>>, items: Items, i: nat)
    requires DistinctHashes(fields) && Agrees(fields, cache, items) && i < |fields|
    ensures Agrees(fields, cache[i := []], items - {fields[i].hash})
  {
  }

  /** A snapshot entry is empty, or the persisted field's bytes. */
  ghost predicate SnapshotOf(fields: seq<RegSpec>, bytes: seq<Byte>, snapshot: seq<seq<Byte>>) {
    && |snapshot| == |fields|
    && forall i :: 0 <= i < |fields| && snapshot[i] != [] ==>
         Persisted(fields[i]) && snapshot[i] == Slice(bytes, fields[i])
  }

  ghost predicate Stored(fields: seq<RegSpec>, items: Items, snapshot: seq<seq<Byte>>, i: nat)
    requires i < |fields| == |snapshot|
  {
    snapshot[i] != [] ==> fields[i].hash in items && items[fields[i].hash] == snapshot[i]
  }

  /** The first n fields of the snapshot are in flash. */
  ghost predicate StoredUpTo(fields: seq<RegSpec>, items: Items, snapshot: seq<seq<Byte>>, n: nat)
    requires n <= |fields| == |snapshot|
  {
    forall j :: 0 <= j < n ==> Stored(fields, items, snapshot, j)
  }

  /** The first n fields of the snapshot are in the cache. */
  ghost predicate CachedUpTo(cache: seq<seq<Byte>>, snapshot: seq<seq<Byte>>, n: nat)
    requires n <= |cache| == |snapshot|
  {
    forall j :: 0 <= j < n && snapshot[j] != [] ==> cache[j] == snapshot[j]
  }

  /** Flash changed only under field keys, and only to snapshot values. */
  ghost predicate OnlyStored(fields: seq<RegSpec>, was: Items, items: Items, snapshot: seq<seq<Byte>>)
    requires |fields| == |snapshot|
  {
    && was.Keys <= items.Keys
    && forall k :: k in items ==>
         || (k in was && items[k] == was[k])
         || exists i :: 0 <= i < |fields| && fields[i].hash == k && snapshot[i] != [] && items[k] == snapshot[i]
  }

  /** A snapshot entry that the cache does not hold yet. */
  ghost predicate Changed(fields: seq<RegSpec>, cache: seq<seq<Byte>>, snapshot: seq<seq<Byte>>, i: nat)
    requires i < |fields| == |cache| == |snapshot|
  {
    fields[i].len <= 8 && snapshot[i] != [] && cache[i] != snapshot[i]
  }

  ghost function Changes(fields: seq<RegSpec>, cache: seq<seq<Byte>>, snapshot: seq<seq<Byte>>, n: nat): nat
    requires n <= |fields| == |cache| == |snapshot|
  {
    if n == 0 then 0
    else Changes(fields, cache, snapshot, n - 1) + if Changed(fields, cache, snapshot, n - 1) then 1 else 0
  }

  /** A persisted field whose bytes in the table are not the cached ones. */
  ghost predicate Dirty(fields: seq<RegSpec>, cache: seq<seq<Byte>>, bytes: seq<Byte>, i: nat)
    requires i < |fields| == |cache|
  {
    0 < fields[i].len <= 8 && cache[i] != Slice(bytes, fields[i])
  }

  /** Every persisted field is cached as it stands in the table. */
  ghost predicate Synced(fields: seq<RegSpec>, cache: seq<seq<Byte>>, bytes: seq<Byte>)
    requires |fields| == |cache|
  {
    forall i :: 0 <= i < |fields| ==> !Dirty(fields, cache, bytes, i)
  }

  ghost function DirtyCount(fields: seq<RegSpec>, cache: seq<seq<Byte>>, bytes: seq<Byte>, n: nat): nat
    requires n <= |fields| == |cache|
  {
    if n == 0 then 0
    else DirtyCount(fields, cache, bytes, n - 1) + if Dirty(fields, cache, bytes, n - 1) then 1 else 0
  }

  /** A snapshot without a failed read differs from the cache where the table does. */
  lemma {:induction false} ChangesAreDirty(fields: seq<RegSpec>, cache: seq<seq<Byte>>, bytes: seq<Byte>,
                                           snapshot: seq<seq<Byte>>, n: nat)
    requires n <= |fields| == |cache| && SnapshotOf(fields, bytes, snapshot)
    requires forall i :: 0 <= i < |fields| && Persisted(fields[i]) ==> snapshot[i] != []
    ensures Changes(fields, cache, snapshot, n) == DirtyCount(fields, cache, bytes, n)
  {
    if n > 0 {
      ChangesAreDirty(fields, cache, bytes, snapshot, n - 1);
    }
  }

  lemma {:induction false} CleanCount(fields: seq<RegSpec>, cache: seq<seq<Byte>>, bytes: seq<Byte>, n: nat)
    requires n <= |fields| == |cache|
    ensures DirtyCount(fields, cache, bytes, n) == 0 <==> forall i :: 0 <= i < n ==> !Dirty(fields, cache, bytes, i)
    ensures n == |fields| ==> (DirtyCount(fields, cache, bytes, n) == 0 <==> Synced(fields, cache, bytes))
  {
    if n > 0 {
      CleanCount(fields, cache, bytes, n - 1);
    }
  }

  /** `wrapping_add(1)` on a u16. */
  function NextU16(n: U16): U16 {
    if n == 0xFFFF then 0 else n + 1
  }

  /** A u8 incremented n times. */
  function CountU8(n: nat): nat {
    if n == 0 then 0 else if CountU8(n - 1) == 0xFF then 0 else CountU8(n - 1) + 1
  }

  /** It is the count modulo 256: a multiple of 256 counts as none. */
  lemma {:induction false} CountU8Wraps(n: nat)
    ensures CountU8(n) == n % 0x100
  {
    if n > 0 { CountU8Wraps(n - 1); }
  }

  lemma CountU8Zero(n: nat)
    ensures CountU8(n) == 0 ==> n == 0 || n >= 0x100
  {
    CountU8Wraps(n);
  }

  /** `errors` is the source's u8 count of failed reads. */
  datatype Snapshot = Taken(entries: seq<seq<Byte>>, errors: nat) | Refused(result: PersistResult)

  /** Cache and flash, as values. */
  datatype Store = Store(cache: seq<seq<Byte>>, items: Items)

  /** The save loop before field i: `now` came from `before` by `saved` stores that went
      through, and `errors` that did not. */
  ghost predicate Saving(fields: seq<RegSpec>, before: Store, now: Store, snapshot: seq<seq<Byte>>, i: nat,
                         saved: nat, errors: nat)
    requires i <= |fields| == |before.cache| == |now.cache| == |snapshot|
  {
    && saved + errors == Changes(fields, before.cache, snapshot, i)
    && (forall j :: i <= j < |fields| ==> now.cache[j] == before.cache[j])
    && (errors == 0 ==> StoredUpTo(fields, now.items, snapshot, i) && CachedUpTo(now.cache, snapshot, i))
    && (saved == 0 ==> now == before)
    && OnlyStored(fields, before.items, now.items, snapshot)
  }

  lemma SavingSkips(fields: seq<RegSpec>, before: Store, now: Store, snapshot: seq<seq<Byte>>, i: nat,
                    saved: nat, errors: nat)
    requires i < |fields| == |before.cache| == |now.cache| == |snapshot| && Agrees(fields, now.cache, now.items)
    requires Saving(fields, before, now, snapshot, i, saved, errors)
    requires fields[i].len > 8 ==> snapshot[i] == []
    requires fields[i].len > 8 || snapshot[i] == [] || now.cache[i] == snapshot[i]
    ensures Saving(fields, before, now, snapshot, i + 1, saved, errors)
  {
    assert Stored(fields, now.items, snapshot, i);
  }

  lemma SavingTries(fields: seq<RegSpec>, before: Store, now: Store, snapshot: seq<seq<Byte>>, i: nat,
                    saved: nat, errors: nat)
    requires i < |fields| == |before.cache| == |now.cache| == |snapshot| && DistinctHashes(fields)
    requires Saving(fields, before, now, snapshot, i, saved, errors)
    requires fields[i].len <= 8 && snapshot[i] != [] && now.cache[i] != snapshot[i]
    ensures Saving(fields, before, now, snapshot, i + 1, saved, errors + 1)
    ensures Saving(fields, before, Store(now.cache[i := snapshot[i]], now.items[fields[i].hash := snapshot[i]]),
                   snapshot, i + 1, saved + 1, errors)
  {
    StoreKeeps(fields, before.items, now.items, snapshot, i);
  }

  /** Flash keeps every key, and changed only to what the table holds of a persisted field. */
  ghost predicate OnlySaved(fields: seq<RegSpec>, was: Items, items: Items, bytes: seq<Byte>) {
    && was.Keys <= items.Keys
    && forall k :: k in items ==>
         || (k in was && items[k] == was[k])
         || exists i :: 0 <= i < |fields| && Persisted(fields[i]) && fields[i].hash == k
                        && Holds(items, fields[i], bytes)
  }

  lemma StoredIsSaved(fields: seq<RegSpec>, was: Items, items: Items, bytes: seq<Byte>, snapshot: seq<seq<Byte>>)
    requires SnapshotOf(fields, bytes, snapshot) && OnlyStored(fields, was, items, snapshot)
    ensures OnlySaved(fields, was, items, bytes)
  {
    forall k | k in items && !(k in was && items[k] == was[k])
      ensures exists i :: 0 <= i < |fields| && Persisted(fields[i]) && fields[i].hash == k
                          && Holds(items, fields[i], bytes)
    {
      var i :| 0 <= i < |fields| && fields[i].hash == k && snapshot[i] != [] && items[k] == snapshot[i];
      assert Holds(items, fields[i], bytes);
    }
  }

  /** What a save without a failed read or store comes to. */
  lemma SaveOutcome(fields: seq<RegSpec>, before: Store, after: Store, bytes: seq<Byte>, snapshot: seq<seq<Byte>>,
                    failed: nat, saved: nat, errors: nat)
    requires |before.cache| == |after.cache| == |fields| && SnapshotOf(fields, bytes, snapshot)
    requires failed == 0 ==> forall i :: 0 <= i < |fields| && Persisted(fields[i]) ==> snapshot[i] != []
    requires saved + errors == Changes(fields, before.cache, snapshot, |fields|)
    requires errors == 0 ==>
      StoredUpTo(fields, after.items, snapshot, |fields|) && CachedUpTo(after.cache, snapshot, |fields|)
    requires OnlyStored(fields, before.items, after.items, snapshot)
    ensures OnlySaved(fields, before.items, after.items, bytes)
    ensures failed == errors == 0 ==>
      && HoldsAll(fields, after.items, bytes, |fields|)
      && saved == DirtyCount(fields, before.cache, bytes, |fields|)
      && (saved == 0 <==> Synced(fields, before.cache, bytes))
      && Synced(fields, after.cache, bytes)
  {
    StoredIsSaved(fields, before.items, after.items, bytes, snapshot);
    if failed == errors == 0 {
      ChangesAreDirty(fields, before.cache, bytes, snapshot, |fields|);
      CleanCount(fields, before.cache, bytes, |fields|);
      forall i | 0 <= i < |fields| && Persisted(fields[i]) ensures Holds(after.items, fields[i], bytes) {
        assert Stored(fields, after.items, snapshot, i);
      }
    }
  }

  // ---------------------------------------------------------------------
  // The service
  // ---------------------------------------------------------------------

  class PersistTask {
    const fields: seq<RegSpec>
    const flash: Flash
    var cache: seq<seq<Byte>>
    var initialized: bool
    var lastResult: Option<PersistResult>
    var generation: U16

    ghost predicate Valid()
      reads this, flash
    {
      && DistinctHashes(fields)
      && Agrees(fields, cache, flash.items)
    }

    constructor (flash: Flash, fields: seq<RegSpec>)
      requires DistinctHashes(fields)
      ensures Valid() && this.fields == fields && this.flash == flash && fresh(this)
      ensures lastResult == None && generation == 0
      ensures forall i :: 0 <= i < |cache| ==> cache[i] == []
    {
      this.fields, this.flash := fields, flash;
      cache := seq(|fields|, _ => []);
      initialized, lastResult, generation := false, None, 0;
    }

    /** `eeprom_idx_by_hash`, once the registry is initialised. */
    function IndexOf(hash: nat): Option<nat> {
      IndexFrom(fields, hash)
    }

    /** `restore_field`: `Some(true)` restored, `Some(false)` absent or of another
        size, `None` an error. */
    method RestoreField(shadow: Shadow, i: nat) returns (r: Option<bool>)
      requires Valid() && i < |fields|
      modifies this`cache, shadow, flash`faults
      ensures Valid()
      ensures flash.faults + shadow.faults == old(flash.faults + shadow.faults) + if r.None? then 1 else 0
      ensures r == Some(true) ==>
        && fields[i].hash in flash.items && |flash.items[fields[i].hash]| == fields[i].len
        && fields[i].address + fields[i].len <= |shadow.bytes|
        && shadow.bytes == Overwrite(old(shadow.bytes), fields[i].address, flash.items[fields[i].hash])
        && cache == old(cache)[i := flash.items[fields[i].hash]]
      ensures r == Some(false) ==> fields[i].hash !in flash.items || |flash.items[fields[i].hash]| != fields[i].len
      ensures r != Some(true) ==> shadow.bytes == old(shadow.bytes) && cache == old(cache)
    {
      var field := fields[i];
      var result := flash.Fetch(field.hash);
      match result
      case Value(value) =>
        if |value| != field.len {
          return Some(false);
        }
        var ok := shadow.HostWrite(field.address, value);
        if !ok {
          return None;
        }
        IndexIsPosition(fields, i);
        var idx := IndexOf(field.hash);
        cache := cache[idx.value := Clip(value)];
        return Some(true);
      case Absent =>
        return Some(false);
      case FetchError =>
        return None;
    }

    /** `save_field`. */
    method SaveField(i: nat, data: seq<Byte>) returns (ok: bool)
      requires Valid() && i < |fields|
      modifies this`cache, flash
      ensures Valid()
      ensures flash.items == if ok then old(flash.items)[fields[i].hash := Clip(data)] else old(flash.items)
      ensures cache == if ok then old(cache)[i := Clip(data)] else old(cache)
      ensures flash.faults == old(flash.faults) + (if ok then 0 else 1) && flash.writes == old(flash.writes) + 1
    {
      var field := fields[i];
      ok := flash.Store(field.hash, Clip(data));
      if ok {
        IndexIsPosition(fields, i);
        var idx := IndexOf(field.hash);
        cache := cache[idx.value := Clip(data)];
        StoreAgrees(fields, old(cache), old(flash.items), i, Clip(data));
      }
    }

    /** `take_snapshot`: refused while torque is on.  `failed` is the true number of
        failed reads, of which the result keeps the low 8 bits. */
    method TakeSnapshot(shadow: Shadow) returns (r: Snapshot, ghost failed: nat)
      requires Valid()
      modifies shadow`faults
      ensures shadow.faults == old(shadow.faults) + failed && failed <= Max(|fields|, 1)
      ensures match r
        case Taken(entries, errors) => errors == CountU8(failed) && SnapshotOf(fields, shadow.bytes, entries)
        case Refused(result) => (result == Busy && failed == 0) || (result == WriteFailed && failed == 1)
      ensures r.Taken? && failed == 0 ==>
        forall i :: 0 <= i < |fields| && Persisted(fields[i]) ==> r.entries[i] != []
      ensures r == Refused(Busy) ==> 64 < |shadow.bytes| && shadow.bytes[64] != 0
      ensures r.Taken? ==> 64 < |shadow.bytes| && shadow.bytes[64] == 0
    {
      failed := 0;
      var torque := shadow.HostRead(TORQUE_ENABLE_ADDR, 1);
      if torque.None? {
        return Refused(WriteFailed), 1;
      }
      if torque.value[0] != 0 {
        return Refused(Busy), 0;
      }
      var snapshot, errors;
      snapshot, errors, failed := ReadFields(shadow);
      r := Taken(snapshot, errors);
    }

    /** The loop of `take_snapshot`. */
    method ReadFields(shadow: Shadow) returns (snapshot: seq<seq<Byte>>, errors: nat, ghost failed: nat)
      requires Valid()
      modifies shadow`faults
      ensures shadow.faults == old(shadow.faults) + failed && failed <= |fields| && errors == CountU8(failed)
      ensures SnapshotOf(fields, shadow.bytes, snapshot)
      ensures failed == 0 ==> forall i :: 0 <= i < |fields| && Persisted(fields[i]) ==> snapshot[i] != []
    {
      snapshot, errors, failed := seq(|fields|, _ => []), 0, 0;
      for i := 0 to |fields|
        invariant SnapshotOf(fields, shadow.bytes, snapshot)
        invariant shadow.faults == old(shadow.faults) + failed && failed <= i && errors == CountU8(failed)
        invariant failed == 0 ==> forall j :: 0 <= j < i && Persisted(fields[j]) ==> snapshot[j] != []
      {
        var field := fields[i];
        if field.len > MAX_FIELD_LEN {
          continue;
        }
        IndexIsPosition(fields, i);
        var idx := IndexOf(field.hash);
        var data := shadow.HostRead(field.address, field.len);
        if data.Some? {
          snapshot := snapshot[idx.value := Clip(data.value)];
        } else {
          errors, failed := if errors == 0xFF then 0 else errors + 1, failed + 1;
        }
      }
    }

    /** `save_changed_fields`: one store for each entry that differs from the cache, no other. */
    method SaveChangedFields(snapshot: seq<seq<Byte>>, ghost bytes: seq<Byte>) returns (saved: nat, errors: nat)
      requires Valid() && SnapshotOf(fields, bytes, snapshot)
      modifies this`cache, flash
      ensures Valid()
      ensures saved + errors == Changes(fields, old(cache), snapshot, |fields|)
      ensures flash.writes == old(flash.writes) + saved + errors && flash.faults == old(flash.faults) + errors
      ensures errors == 0 ==> StoredUpTo(fields, flash.items, snapshot, |fields|)
      ensures errors == 0 ==> CachedUpTo(cache, snapshot, |fields|)
      ensures saved == 0 ==> flash.items == old(flash.items) && cache == old(cache)
      ensures OnlyStored(fields, old(flash.items), flash.items, snapshot)
    {
      saved, errors := 0, 0;
      ghost var before := Store(old(cache), old(flash.items));
      for i := 0 to |fields|
        invariant Valid() && |snapshot| == |fields|
        invariant Saving(fields, before, Store(cache, flash.items), snapshot, i, saved, errors)
        invariant flash.faults == old(flash.faults) + errors && flash.writes == old(flash.writes) + saved + errors
      {
        ghost var now := Store(cache, flash.items);
        if fields[i].len > MAX_FIELD_LEN || |snapshot[i]| == 0 {
          SavingSkips(fields, before, now, snapshot, i, saved, errors);
          continue;
        }
        if cache[i] == snapshot[i] {
          SavingSkips(fields, before, now, snapshot, i, saved, errors);
          continue;
        }
        var ok := SaveField(i, snapshot[i]);
        SavingTries(fields, before, now, snapshot, i, saved, errors);
        if ok {
          saved := saved + 1;
        } else {
          errors := errors + 1;
        }
      }
    }

    /** `handle_save`.  A multiple of 256 failed reads counts as none, so with that many
        fields a save may report success for fields it never read. */
    method HandleSave(shadow: Shadow)
      requires Valid()
      modifies this`cache, this`lastResult, this`generation, flash, shadow`faults
      ensures Valid()
      ensures lastResult.Some? && old(shadow.faults) <= shadow.faults <= old(shadow.faults) + Max(|fields|, 1)
      ensures old(flash.faults) <= flash.faults
      ensures lastResult == Some(WriteFailed) <==>
        flash.faults > old(flash.faults) || CountU8(shadow.faults - old(shadow.faults)) != 0
      ensures Reported() && (shadow.faults == old(shadow.faults) || |fields| < 0x100) ==>
        HoldsAll(fields, flash.items, shadow.bytes, |fields|)
      ensures flash.faults == old(flash.faults) && shadow.faults == old(shadow.faults) && lastResult != Some(Busy) ==>
        && flash.writes == old(flash.writes) + DirtyCount(fields, old(cache), shadow.bytes, |fields|)
        && (lastResult == Some(NoChange) <==> Synced(fields, old(cache), shadow.bytes))
        && Synced(fields, cache, shadow.bytes)
      ensures lastResult == Some(NoChange) || lastResult == Some(Busy) ==>
        flash.items == old(flash.items) && flash.writes == old(flash.writes)
      ensures Reported() ==> 64 < |shadow.bytes| && shadow.bytes[64] == 0
      ensures lastResult == Some(Busy) ==> 64 < |shadow.bytes| && shadow.bytes[64] != 0
      ensures generation == if lastResult == Some(Ok) then NextU16(old(generation)) else old(generation)
      ensures OnlySaved(fields, old(flash.items), flash.items, shadow.bytes)
    {
      var s, failed := TakeSnapshot(shadow);
      if s.Refused? {
        lastResult := Some(s.result);
        return;
      }
      ghost var bytes := shadow.bytes;
      var saved, writeErrors := SaveChangedFields(s.entries, bytes);
      SaveOutcome(fields, Store(old(cache), old(flash.items)), Store(cache, flash.items), bytes, s.entries,
                  failed, saved, writeErrors);
      CountU8Zero(failed);
      if s.errors + writeErrors > 0 {
        lastResult := Some(WriteFailed);
      } else if saved > 0 {
        generation := NextU16(generation);
        lastResult := Some(Ok);
      } else {
        lastResult := Some(NoChange);
      }
    }

    /** The last save or reset was reported a success. */
    ghost predicate Reported()
      reads this
    {
      lastResult == Some(Ok) || lastResult == Some(NoChange)
    }

    /** `handle_factory_reset`. */
    method HandleFactoryReset(level: ResetLevel)
      requires Valid()
      modifies this`cache, this`lastResult, flash
      ensures Valid()
      ensures lastResult == Some(if flash.faults > old(flash.faults) then WriteFailed else Ok)
      ensures lastResult == Some(Ok) ==>
        forall i :: 0 <= i < |fields| && fields[i].hash in flash.items ==>
          (fields[i].address == 7 && level != All) || (fields[i].address == 8 && level == ExceptIdBaud)
      ensures forall k :: k in flash.items ==> k in old(flash.items) && flash.items[k] == old(flash.items)[k]
      ensures forall k :: k in old(flash.items) && k !in flash.items ==>
        exists i :: 0 <= i < |fields| && fields[i].hash == k
          && (fields[i].address == 7 ==> level == All) && (fields[i].address == 8 ==> level != ExceptIdBaud)
    {
      var errors: nat := 0;
      for i := 0 to |fields|
        invariant Valid() && flash.faults == old(flash.faults) + errors
        invariant errors == 0 ==>
          forall j :: 0 <= j < i && !ShouldPreserve(level, fields[j].address) ==> fields[j].hash !in flash.items
        invariant forall k :: k in flash.items ==> k in old(flash.items) && flash.items[k] == old(flash.items)[k]
        invariant forall k :: k in old(flash.items) && k !in flash.items ==>
          exists i :: 0 <= i < |fields| && fields[i].hash == k && !ShouldPreserve(level, fields[i].address)
      {
        var field := fields[i];
        if ShouldPreserve(level, field.address) {
          continue;
        }
        ghost var was := flash.items;
        var ok := flash.Remove(field.hash);
        if ok {
          IndexIsPosition(fields, i);
          RemoveAgrees(fields, cache, was, i);
          var idx := IndexOf(field.hash);
          cache := cache[idx.value := []];
        } else {
          errors := errors + 1;
        }
      }
      lastResult := Some(if errors > 0 then WriteFailed else Ok);
    }

    /** `init`: restores every field it can. */
    method Init(shadow: Shadow)
      requires Valid()
      modifies this`cache, this`initialized, this`lastResult, shadow, flash`faults
      ensures Valid() && |shadow.bytes| == |old(shadow.bytes)|
      ensures lastResult == Some(WriteFailed) <==> flash.faults + shadow.faults > old(flash.faults + shadow.faults)
      ensures lastResult.Some? && initialized == (lastResult != Some(WriteFailed) || old(initialized))
      ensures lastResult != Some(WriteFailed) && DisjointRanges(fields) ==>
        forall i :: 0 <= i < |fields| ==> Restored(flash.items, fields[i], shadow.bytes)
      ensures lastResult != Some(WriteFailed) ==>
        && (lastResult == Some(FirstBoot) <==> NoneMatch(fields, flash.items, |fields|))
        && (lastResult == Some(Ok) <==> fields != [] && AllMatch(fields, flash.items, |fields|))
        && (lastResult == Some(LengthMismatch) <==>
              !NoneMatch(fields, flash.items, |fields|) && !AllMatch(fields, flash.items, |fields|))
    {
      var restored, mismatched, errors := 0, 0, 0;
      for i := 0 to |fields|
        invariant Valid() && |shadow.bytes| == |old(shadow.bytes)|
        invariant errors == 0 && DisjointRanges(fields) ==>
          forall j :: 0 <= j < i ==> Restored(flash.items, fields[j], shadow.bytes)
        invariant errors == 0 ==> (restored == 0 <==> NoneMatch(fields, flash.items, i))
        invariant errors == 0 ==> (mismatched == 0 <==> AllMatch(fields, flash.items, i))
        invariant restored >= 0 && mismatched >= 0 && errors >= 0
        invariant flash.faults + shadow.faults == old(flash.faults + shadow.faults) + errors
        invariant initialized == old(initialized)
      {
        ghost var was := shadow.bytes;
        var r := RestoreField(shadow, i);
        match r {
          case Some(yes) =>
            if yes {
              restored := restored + 1;
              RestoreKeeps(fields, flash.items, was, i);
            } else {
              mismatched := mismatched + 1;
            }
          case None => errors := errors + 1;
        }
      }
      assert fields != [] ==> (NoneMatch(fields, flash.items, |fields|) ==> !Matching(flash.items, fields[0]));
      if errors > 0 {
        lastResult := Some(WriteFailed);
      } else if restored == 0 {
        initialized, lastResult := true, Some(FirstBoot);
      } else if mismatched > 0 {
        initialized, lastResult := true, Some(LengthMismatch);
      } else {
        initialized, lastResult := true, Some(Ok);
      }
    }
  }

  ghost predicate Matching(items: Items, f: RegSpec) {
    f.hash in items && |items[f.hash]| == f.len
  }

  /** None of the first n fields is in flash with the size the registry gives it. */
  ghost predicate NoneMatch(fields: seq<RegSpec>, items: Items, n: nat)
    requires n <= |fields|
  {
    forall i :: 0 <= i < n ==> !Matching(items, fields[i])
  }

  ghost predicate AllMatch(fields: seq<RegSpec>, items: Items, n: nat)
    requires n <= |fields|
  {
    forall i :: 0 <= i < n ==> Matching(items, fields[i])
  }

  ghost predicate Restored(items: Items, f: RegSpec, bytes: seq<Byte>) {
    Matching(items, f) ==> Slice(bytes, f) == items[f.hash]
  }

  lemma RestoreKeeps(fields: seq<RegSpec>, items: Items, bytes: seq<Byte>, i: nat)
    requires i < |fields| && Matching(items, fields[i]) && fields[i].address + fields[i].len <= |bytes|
    ensures var now := Overwrite(bytes, fields[i].address, items[fields[i].hash]);
      && Restored(items, fields[i], now)
      && (DisjointRanges(fields) ==>
            forall j :: 0 <= j < i ==> (Restored(items, fields[j], now) <==> Restored(items, fields[j], bytes)))
  {
    OverwriteSlice(bytes, fields[i], items[fields[i].hash], fields[i]);
    if DisjointRanges(fields) {
      forall j | 0 <= j < i
        ensures var now := Overwrite(bytes, fields[i].address, items[fields[i].hash]);
          Restored(items, fields[j], now) <==> Restored(items, fields[j], bytes)
      {
        OverwriteSlice(bytes, fields[i], items[fields[i].hash], fields[j]);
      }
    }
  }

  // ---------------------------------------------------------------------
  // Whole runs
  // ---------------------------------------------------------------------

  datatype Event = Boot | Save | FactoryReset(level: ResetLevel) | HostWrites(addr: nat, data: seq<Byte>)

  /** Any sequence of boots, saves, factory resets and host writes, whatever flash
      and table refuse on the way, keeps the cache in agreement with flash. */
  method Service(flash: Flash, shadow: Shadow, fields: seq<RegSpec>, events: seq<Event>) returns (task: PersistTask)
    requires DistinctHashes(fields)
    modifies flash, shadow
    ensures fresh(task) && task.flash == flash && task.fields == fields
    ensures Agrees(fields, task.cache, flash.items)
  {
    task := new PersistTask(flash, fields);
    task.Init(shadow);
    for n := 0 to |events|
      invariant fresh(task) && task.flash == flash && task.fields == fields && task.Valid()
    {
      match events[n]
      case Boot =>
        task := new PersistTask(flash, fields);
        task.Init(shadow);
      case Save => task.HandleSave(shadow);
      case FactoryReset(level) => task.HandleFactoryReset(level);
      case HostWrites(addr, data) =>
        var ok := shadow.HostWrite(addr, data);
    }
  }

  /** A save that reports success survives a reboot: a fresh task whose init meets
      no error restores every persisted field, whatever the new table held. */
  method SaveThenReboot(task: PersistTask, shadow: Shadow, rebooted: Shadow) returns (fresh': PersistTask)
    requires task.Valid() && DisjointRanges(task.fields) && shadow != rebooted
    modifies task, task.flash, shadow`faults, rebooted
    ensures fresh'.Valid() && shadow.bytes == old(shadow.bytes)
    ensures && task.Reported() && fresh'.lastResult != Some(WriteFailed)
            && (shadow.faults == old(shadow.faults) || |task.fields| < 0x100) ==>
      forall i :: 0 <= i < |task.fields| && Persisted(task.fields[i]) ==>
        Slice(rebooted.bytes, task.fields[i]) == Slice(shadow.bytes, task.fields[i])
  {
    task.HandleSave(shadow);
    fresh' := new PersistTask(task.flash, task.fields);
    fresh'.Init(rebooted);
  }

  /** A save that meets no fault, on a table the cache already holds, stores nothing and
      reports no change. */
  method SaveAgain(task: PersistTask, shadow: Shadow)
    requires task.Valid()
    modifies task, task.flash, shadow`faults
    ensures task.Valid() && task.flash.faults >= old(task.flash.faults) && shadow.faults >= old(shadow.faults)
    ensures && Synced(task.fields, old(task.cache), shadow.bytes)
            && 64 < |shadow.bytes| && shadow.bytes[64] == 0
            && task.flash.faults == old(task.flash.faults) && shadow.faults == old(shadow.faults) ==>
      && task.lastResult == Some(NoChange) && task.generation == old(task.generation)
      && task.flash.writes == old(task.flash.writes) && task.flash.items == old(task.flash.items)
  {
    task.HandleSave(shadow);
  }

  /** A second save straight after a trusted one finds nothing to do: together they make
      the first one's stores, and the second reports no change. */
  method SaveTwice(task: PersistTask, shadow: Shadow) returns (first: Option<PersistResult>)
    requires task.Valid()
    modifies task, task.flash, shadow`faults
    ensures task.Valid() && shadow.bytes == old(shadow.bytes)
    ensures && task.flash.faults == old(task.flash.faults) && shadow.faults == old(shadow.faults)
            && (first == Some(Ok) || first == Some(NoChange)) ==>
      && task.lastResult == Some(NoChange)
      && task.flash.writes
         == old(task.flash.writes) + DirtyCount(task.fields, old(task.cache), shadow.bytes, |task.fields|)
      && task.generation == if first == Some(Ok) then NextU16(old(task.generation)) else old(task.generation)
  {
    task.HandleSave(shadow);
    first := task.lastResult;
    SaveAgain(task, shadow);
  }

  lemma StoreKeeps(fields: seq<RegSpec>, first: Items, was: Items, snapshot: seq<seq<Byte>>, i: nat)
    requires |fields| == |snapshot| && i < |fields| && snapshot[i] != [] && DistinctHashes(fields)
    requires OnlyStored(fields, first, was, snapshot)
    ensures OnlyStored(fields, first, was[fields[i].hash := snapshot[i]], snapshot)
    ensures StoredUpTo(fields, was, snapshot, i) ==>
      StoredUpTo(fields, was[fields[i].hash := snapshot[i]], snapshot, i + 1)
  {
    var now := was[fields[i].hash := snapshot[i]];
    forall k | k in now
      ensures (k in first && now[k] == first[k])
           || exists j :: 0 <= j < |fields| && fields[j].hash == k && snapshot[j] != [] && now[k] == snapshot[j]
    {
      if k == fields[i].hash {
        assert now[k] == snapshot[i];
      }
    }
    if StoredUpTo(fields, was, snapshot, i) {
      forall j | 0 <= j <= i ensures Stored(fields, now, snapshot, j) {
        assert j < i ==> fields[j].hash != fields[i].hash && Stored(fields, was, snapshot, j);
      }
    }
  }
}
