/**
 * The open-addressing `Hashtable` of the collections support code: slots
 * `table` and hash words `hashes` of the same prime length, `inUse` live
 * keys, a `modificationCount` that enumerators watch, and a `threshold`
 * past which an insertion first rebuilds the arrays at about twice the
 * size.
 *
 * The key type has no null: an operation's key is an `Option<K>` whose
 * `None` stands for a null key, and a slot's value is an `Option<V>` whose
 * `None` stands for a null value. The hash function is a parameter of the
 * table; keys are compared with the key type's equality.
 */
module HashTable {
  import opened Wrappers
  import opened HashPrimes
  import opened HashProbe
  import opened HashSlots
  import opened HashInsert

  /** The exceptions the table and its enumerator throw. */
  datatype Failure = ArgumentNull | Argument | InvalidOperation

  datatype Result<T> = Ok(value: T) | Fail(failure: Failure)

  /** The cast `(int)x` of a number: truncation toward zero. */
  function Truncate(x: real): (r: int)
    ensures 0.0 <= x ==> r as real <= x < r as real + 1.0
    ensures x < 0.0 ==> r as real - 1.0 < x <= r as real
  {
    if x >= 0.0 then x.Floor else -((-x).Floor)
  }

  /** The threshold `AdjustThreshold` sets for `size` slots. */
  function ThresholdFor(size: int, loadFactor: real): (r: int)
    ensures r < size
  {
    var t := Truncate(size as real * loadFactor);
    if t >= size then size - 1 else t
  }

  /** With the default load factor 1.0 an insertion rebuilds the arrays
      once all slots but one are live; with load factor 0.0, which is what
      the constructors leave in the field, before every insertion. */
  lemma ThresholdLoads(size: int)
    requires size >= 1
    ensures ThresholdFor(size, 1.0) == size - 1
    ensures ThresholdFor(size, 0.0) == 0
  {
    assert size as real * 1.0 == size as real;
    assert size as real * 0.0 == 0.0;
  }

  /** `Find`'s loop over the arrays, and that of the indexer's getter:
      `size` probes at most, reducing the index before each one. */
  method FindSlot<K(==), V>(table: array<Slot<K, V>>, hashes: array<Word>, hash: K -> int, k: K) returns (r: int)
    requires table.Length == hashes.Length && table.Length >= 2
    ensures r == FindFrom(table[..], hashes[..], hash, k, 0)
  {
    ghost var T, W := table[..], hashes[..];
    var size := table.Length;
    var h := HashOf(hash, k);
    var step := Step(h, size);
    var indx := h;
    var i := size;
    while i > 0
      invariant 0 <= i <= size && indx >= 0
      invariant indx % size == AtHash(h, size, size - i)
      invariant FindFrom(T, W, hash, k, size - i) == FindFrom(T, W, hash, k, 0)
    {
      indx := indx % size;
      var entry := table[indx];
      var hashMix := hashes[indx];
      if entry.key.Null? {
        return -1;
      }
      // The source first compares by reference, then the stored hash and
      // `KeyEquals`, which is false for the `Removed` marker; with keys
      // compared by equality both come to this test.
      if entry.key == Live(k) {
        return indx;
      }
      if !Chained(hashMix) {
        return -1;
      }
      ProbeNext(h, step, size, size - i);
      indx := indx + step;
      i := i - 1;
    }
    return -1;
  }

  /** How `PutImpl` ends after its probe loop. */
  datatype Put = Replaced | Duplicate | Inserted

  /** `PutImpl` after the growth check, over the arrays: with fewer live
      keys than slots, a key already there gets the value (`overwrite`) or
      is a duplicate, and any other key is added. */
  method PutSlots<K(==), V>(table: array<Slot<K, V>>, hashes: array<Word>, hash: K -> int, k: K, value: Option<V>, overwrite: bool) returns (put: Put)
    requires table.Length == hashes.Length
    requires TableOk(table[..], hashes[..], hash) && LiveCount(table[..]) < table.Length
    modifies table, hashes
    ensures TableOk(table[..], hashes[..], hash)
    ensures put == if k !in old(Contents(table[..])) then Inserted else if overwrite then Replaced else Duplicate
    ensures put == Duplicate ==> table[..] == old(table[..]) && hashes[..] == old(hashes[..])
    ensures put != Duplicate ==> Contents(table[..]) == old(Contents(table[..]))[k := value]
    ensures LiveCount(table[..]) == old(LiveCount(table[..])) + if put == Inserted then 1 else 0
  {
    ghost var T, W := table[..], hashes[..];
    if k in Contents(T) {
      FindContents(T, W, hash, k);
      ScanFinds(T, W, hash, k, 0, -1);
    } else {
      forall x | 0 <= x < |T|
        ensures T[x].key != Live(k)
      {
        if T[x].key == Live(k) {
          ContentsHasKey(T, x);
        }
      }
      ScanInserts(T, W, hash, k, value);
    }
    var out := ScanSlots(table, hashes, hash, k);
    match out {
      case Found(x) =>
        assert hashes[..] == W;
        if overwrite {
          table[x] := table[x].(value := value);
          OverwriteOk(T, W, hash, x, value);
          return Replaced;
        }
        return Duplicate;
      case Free(f) =>
        table[f] := Slot(Live(k), value);
        hashes[f] := OrHash(hashes[f], HashOf(hash, k));
        return Inserted;
      case Full =>
        assert false;
    }
  }

  /** `ContainsValue`'s loop: a live slot holds the value. (The source has
      one loop for a null value and one for the others; on values as
      options both tests are equality.) */
  method HoldsValue<K(==), V(==)>(table: array<Slot<K, V>>, value: Option<V>) returns (r: bool)
    ensures r <==> SlotHolds(table[..], value)
  {
    for i := 0 to table.Length
      invariant forall x :: 0 <= x < i ==> !(table[x].key.Live? && table[x].value == value)
    {
      var entry := table[i];
      if entry.key.Live? && entry.value == value {
        assert table[..][i] == entry;
        return true;
      }
    }
    return false;
  }

  class Hashtable<K(==), V(==)> {
    var table: array<Slot<K, V>>
    var hashes: array<Word>
    var inUse: int
    var modificationCount: int
    var threshold: int
    const loadFactor: real
    /** `GetHash`, before it is masked to 31 bits. */
    const hash: K -> int

    /** The table invariant: every live key where `Find` looks for it,
        the low bits of every word the hash of its slot, `inUse` the
        number of live keys and `threshold` as `AdjustThreshold` sets it. */
    ghost predicate Valid()
      reads this, table, hashes
    {
      table.Length == hashes.Length && TableOk(table[..], hashes[..], hash)
      && inUse == LiveCount(table[..]) && threshold == ThresholdFor(table.Length, loadFactor)
    }

    /** The dictionary the slots stand for. */
    ghost function Entries(): map<K, Option<V>>
      reads this, table
    {
      Contents(table[..])
    }

    /** The next insertion can rebuild the arrays: the size it grows to is
        prime. */
    ghost predicate CanGrow()
      reads this, table
    {
      inUse >= threshold ==> IsPrime(ToPrimeSpec(2 * table.Length + 1))
    }

    /** An empty table of `size` slots. */
    constructor(size: int, loadFactor: real, hash: K -> int)
      requires IsPrime(size)
      ensures Valid() && Entries() == map[]
      ensures table.Length == size && inUse == 0 && modificationCount == 0
      ensures this.loadFactor == loadFactor && this.hash == hash
      ensures fresh(table) && fresh(hashes)
    {
      this.loadFactor := loadFactor;
      this.hash := hash;
      table := new Slot<K, V>[size](_ => Slot(Null, None));
      hashes := new Word[size](_ => EMPTY_WORD);
      inUse := 0;
      modificationCount := 0;
      threshold := ThresholdFor(size, loadFactor);
      new;
      EmptyOk(table[..], hashes[..], hash);
      EmptyMap(table[..]);
    }

    /** `Count`: the number of keys. */
    function Count(): (r: int)
      reads this, table, hashes
      requires Valid()
      ensures r == |Entries()|
    {
      TableUnique(table[..], hashes[..], hash);
      ContentsCard(table[..]);
      inUse
    }

    /** `Find`: the slot of the key, or -1. */
    method Find(key: Option<K>) returns (r: Result<int>)
      requires Valid()
      ensures key.None? <==> r == Fail(ArgumentNull)
      ensures key.Some? ==> r.Ok? && -1 <= r.value < table.Length
      ensures key.Some? ==> (r.value >= 0 <==> key.value in Entries())
      ensures key.Some? && r.value >= 0 ==>
        table[r.value].key == Live(key.value) && Entries()[key.value] == table[r.value].value
    {
      if key.None? {
        return Fail(ArgumentNull);
      }
      var i := FindSlot(table, hashes, hash, key.value);
      FindContents(table[..], hashes[..], hash, key.value);
      return Ok(i);
    }

    /** The indexer's getter: the key's value, null for a key that is not
        there. */
    method Get(key: Option<K>) returns (r: Result<Option<V>>)
      requires Valid()
      ensures key.None? ==> r == Fail(ArgumentNull)
      ensures key.Some? ==> r == Ok(if key.value in Entries() then Entries()[key.value] else None)
    {
      if key.None? {
        return Fail(ArgumentNull);
      }
      var i := FindSlot(table, hashes, hash, key.value);
      FindContents(table[..], hashes[..], hash, key.value);
      if i >= 0 {
        return Ok(table[i].value);
      }
      return Ok(None);
    }

    /** `Contains` (and `ContainsKey`): `Find` answers a slot. */
    method Contains(key: Option<K>) returns (r: Result<bool>)
      requires Valid()
      ensures key.None? ==> r == Fail(ArgumentNull)
      ensures key.Some? ==> r == Ok(key.value in Entries())
    {
      var i := Find(key);
      if i.Fail? {
        return Fail(i.failure);
      }
      return Ok(i.value >= 0);
    }

    /** `ContainsValue`: some live slot holds the value (for a null value,
        some live slot holds null). */
    method ContainsValue(value: Option<V>) returns (r: bool)
      requires Valid()
      ensures r <==> value in Entries().Values
    {
      r := HoldsValue(table, value);
      TableUnique(table[..], hashes[..], hash);
      ValueInSlots(table[..], value);
    }

    /** `AdjustThreshold`. */
    method AdjustThreshold()
      modifies this`threshold
      ensures threshold == ThresholdFor(table.Length, loadFactor)
    {
      var size := table.Length;
      threshold := Truncate(size as real * loadFactor);
      if threshold >= size {
        threshold := size - 1;
      }
    }

    /** `SetTable`: installs new arrays and adjusts the threshold. */
    method SetTable(newTable: array<Slot<K, V>>, newHashes: array<Word>)
      modifies this
      ensures table == newTable && hashes == newHashes
      ensures threshold == ThresholdFor(newTable.Length, loadFactor)
      ensures inUse == old(inUse) && modificationCount == old(modificationCount)
    {
      table := newTable;
      hashes := newHashes;
      AdjustThreshold();
    }

    /** `Rehash`: the arrays rebuilt at `ToPrime(2 * size + 1)` slots
        holding the same dictionary. */
    method Rehash()
      requires Valid() && IsPrime(ToPrimeSpec(2 * table.Length + 1))
      modifies this
      ensures Valid() && Entries() == old(Entries()) && inUse == old(inUse)
      ensures table.Length == ToPrimeSpec(2 * old(table.Length) + 1)
      ensures fresh(table) && fresh(hashes)
      ensures modificationCount == old(modificationCount) + 1
    {
      var newTable, newHashes := Regrow(table, hashes, hash);
      modificationCount := modificationCount + 1;
      SetTable(newTable, newHashes);
    }

    /** `PutImpl`: a null key throws; past the threshold the arrays are
        rebuilt first; then the key's value is replaced (with `overwrite`),
        `Add`'s duplicate throws, or the key goes into the first reusable
        slot of its probes. */
    method PutImpl(key: Option<K>, value: Option<V>, overwrite: bool) returns (r: Result<()>)
      requires Valid() && CanGrow()
      modifies this, table, hashes
      ensures Valid()
      ensures key.None? ==> r == Fail(ArgumentNull) && table == old(table) && unchanged(table)
      ensures key.Some? && !overwrite && key.value in old(Entries()) ==>
        r == Fail(Argument) && Entries() == old(Entries()) && inUse == old(inUse)
      ensures key.Some? && (overwrite || key.value !in old(Entries())) ==>
        r == Ok(()) && Entries() == old(Entries())[key.value := value]
        && inUse == old(inUse) + (if key.value in old(Entries()) then 0 else 1)
      ensures table.Length >= old(table.Length) && modificationCount >= old(modificationCount)
      ensures modificationCount == old(modificationCount) ==> table == old(table)
    {
      if key.None? {
        return Fail(ArgumentNull);
      }
      var k := key.value;
      if inUse >= threshold {
        ToPrimeAtLeast(2 * table.Length + 1);
        Rehash();
      }
      var put := PutSlots(table, hashes, hash, k, value, overwrite);
      if put == Duplicate {
        return Fail(Argument);
      }
      if put == Inserted {
        inUse := inUse + 1;
      }
      modificationCount := modificationCount + 1;
      return Ok(());
    }

    /** The indexer's setter. */
    method Set(key: Option<K>, value: Option<V>) returns (r: Result<()>)
      requires Valid() && CanGrow()
      modifies this, table, hashes
      ensures Valid()
      ensures key.None? ==> r == Fail(ArgumentNull) && table == old(table) && unchanged(table)
      ensures key.Some? ==> r == Ok(()) && Entries() == old(Entries())[key.value := value]
      ensures modificationCount == old(modificationCount) ==> table == old(table)
    {
      r := PutImpl(key, value, true);
    }

    /** `Add`: a key already there throws and keeps the dictionary. */
    method Add(key: Option<K>, value: Option<V>) returns (r: Result<()>)
      requires Valid() && CanGrow()
      modifies this, table, hashes
      ensures Valid()
      ensures key.None? ==> r == Fail(ArgumentNull) && table == old(table) && unchanged(table)
      ensures key.Some? && key.value in old(Entries()) ==> r == Fail(Argument) && Entries() == old(Entries())
      ensures key.Some? && key.value !in old(Entries()) ==>
        r == Ok(()) && Entries() == old(Entries())[key.value := value] && inUse == old(inUse) + 1
      ensures modificationCount == old(modificationCount) ==> table == old(table)
    {
      r := PutImpl(key, value, false);
    }

    /** `Remove`: the key's slot keeps only its chain marker and becomes a
        `Removed` marker if it has one, else empty. */
    method Remove(key: Option<K>) returns (r: Result<()>)
      requires Valid()
      modifies this, table, hashes
      ensures Valid() && table == old(table) && hashes == old(hashes)
      ensures key.None? ==> r == Fail(ArgumentNull) && unchanged(this) && unchanged(table) && unchanged(hashes)
      ensures key.Some? ==> r == Ok(()) && Entries() == old(Entries()) - {key.value}
      ensures key.Some? && key.value in old(Entries()) ==>
        inUse == old(inUse) - 1 && modificationCount == old(modificationCount) + 1
      ensures key.Some? && key.value !in old(Entries()) ==>
        unchanged(this) && unchanged(table) && unchanged(hashes)
    {
      var found := Find(key);
      if found.Fail? {
        return Fail(found.failure);
      }
      var i := found.value;
      if i >= 0 {
        ghost var T, W := table[..], hashes[..];
        var h := ChainOnly(hashes[i]);
        hashes[i] := h;
        table[i] := Vacated(h);
        inUse := inUse - 1;
        modificationCount := modificationCount + 1;
        RemoveOk(T, W, hash, i);
      } else {
        assert Entries() - {key.value} == Entries();
      }
      return Ok(());
    }

    /** `Clear`: every slot empty and every word zero. */
    method Clear()
      requires Valid()
      modifies this, table, hashes
      ensures Valid() && Entries() == map[] && inUse == 0
      ensures table == old(table) && hashes == old(hashes)
      ensures forall x :: 0 <= x < table.Length ==> table[x] == Slot(Null, None) && hashes[x] == EMPTY_WORD
      ensures modificationCount == old(modificationCount) + 1
    {
      var t, hs := table, hashes;
      for i := 0 to t.Length
        invariant forall x :: 0 <= x < i ==> t[x] == Slot(Null, None) && hs[x] == EMPTY_WORD
        modifies t, hs
      {
        t[i] := Slot(Null, None);
        hs[i] := EMPTY_WORD;
      }
      inUse := 0;
      modificationCount := modificationCount + 1;
      EmptyOk(t[..], hs[..], hash);
      EmptyMap(t[..]);
    }

    /** `GetEnumerator`: an enumerator of entries. */
    method GetEnumerator() returns (e: Enumerator<K, V>)
      ensures fresh(e) && e.host == this && e.mode == EntryMode
      ensures e.stamp == modificationCount && e.size == table.Length && e.pos == -1
      ensures e.currentKey == None && e.currentValue == None
    {
      e := new Enumerator(this, EntryMode);
    }
  }

  /** What an enumerator's `Current` gives. */
  datatype EnumeratorMode = KeyMode | ValueMode | EntryMode

  datatype Item<K, V> = KeyItem(key: K) | ValueItem(value: Option<V>) | EntryItem(entryKey: K, entryValue: Option<V>)

  /** The first live slot after `p`, or `|T|` if there is none. */
  function NextLive<K(==), V>(T: seq<Slot<K, V>>, p: int): (r: int)
    requires -1 <= p < |T|
    ensures p < r <= |T|
    ensures r < |T| ==> T[r].key.Live?
    ensures forall j :: p < j < r ==> !T[j].key.Live?
    decreases |T| - p
  {
    if p + 1 == |T| || T[p + 1].key.Live? then p + 1 else NextLive(T, p + 1)
  }

  /** The table's enumerator: it walks the slots in order, stopping at
      live keys, and throws once the table's `modificationCount` differs
      from the one it started with. */
  class Enumerator<K(==), V(==)> {
    const host: Hashtable<K, V>
    const stamp: int
    const size: int
    const mode: EnumeratorMode
    var pos: int
    var currentKey: Option<K>
    var currentValue: Option<V>

    /** `FailFast` would throw. */
    predicate Stale()
      reads this, host
    {
      host.modificationCount != stamp
    }

    constructor(host: Hashtable<K, V>, mode: EnumeratorMode)
      ensures this.host == host && this.mode == mode
      ensures stamp == host.modificationCount && size == host.table.Length
      ensures pos == -1 && currentKey == None && currentValue == None
    {
      this.host := host;
      stamp := host.modificationCount;
      size := host.table.Length;
      this.mode := mode;
      new;
      var reset := Reset();
    }

    /** `Reset`: back before the first slot. */
    method Reset() returns (r: Result<()>)
      modifies this
      ensures Stale() ==> r == Fail(InvalidOperation) && unchanged(this)
      ensures !Stale() ==> r == Ok(()) && pos == -1 && currentKey == None && currentValue == None
    {
      if Stale() {
        return Fail(InvalidOperation);
      }
      pos := -1;
      currentKey := None;
      currentValue := None;
      return Ok(());
    }

    /** `MoveNext`: on to the next live slot, whose key and value become
        the current ones, or past the end. While the table is unchanged
        its array is the one the enumerator started on. */
    method MoveNext() returns (r: Result<bool>)
      requires host.Valid() && -1 <= pos
      requires !Stale() ==> size == host.table.Length
      modifies this
      ensures -1 <= pos
      ensures Stale() ==> r == Fail(InvalidOperation) && unchanged(this)
      ensures !Stale() ==> pos == (if old(pos) < size then NextLive(host.table[..], old(pos)) else old(pos))
      ensures !Stale() ==> r == Ok(pos < size)
      ensures !Stale() && pos < size ==>
        currentKey == Some(host.table[pos].key.k) && currentValue == host.table[pos].value
        && currentKey.value in host.Entries() && host.Entries()[currentKey.value] == currentValue
      ensures !Stale() && pos >= size ==> currentKey == None && currentValue == None
    {
      if Stale() {
        return Fail(InvalidOperation);
      }
      if pos < size {
        ghost var p := pos;
        pos := pos + 1;
        while pos < size
          invariant p < pos <= size
          invariant forall j :: p < j < pos ==> !host.table[j].key.Live?
          decreases size - pos
        {
          var entry := host.table[pos];
          if entry.key.Live? {
            currentKey := Some(entry.key.k);
            currentValue := entry.value;
            TableUnique(host.table[..], host.hashes[..], host.hash);
            SlotsAreEntries(host.table[..]);
            assert host.table[..][pos] == entry;
            return Ok(true);
          }
          pos := pos + 1;
        }
      }
      currentKey := None;
      currentValue := None;
      return Ok(false);
    }

    /** `Entry`: the current key and value. */
    function Entry(): (r: Result<(K, Option<V>)>)
      reads this, host
      ensures r.Fail? <==> currentKey.None? || Stale()
      ensures r.Fail? ==> r.failure == InvalidOperation
      ensures r.Ok? ==> r.value == (currentKey.value, currentValue)
    {
      if currentKey.None? then Fail(InvalidOperation)
      else if Stale() then Fail(InvalidOperation)
      else Ok((currentKey.value, currentValue))
    }

    /** `Key`. */
    function Key(): (r: Result<K>)
      reads this, host
      ensures r.Fail? <==> currentKey.None? || Stale()
      ensures r.Fail? ==> r.failure == InvalidOperation
      ensures r.Ok? ==> Some(r.value) == currentKey
    {
      if currentKey.None? then Fail(InvalidOperation)
      else if Stale() then Fail(InvalidOperation)
      else Ok(currentKey.value)
    }

    /** `Value`. */
    function Value(): (r: Result<Option<V>>)
      reads this, host
      ensures r.Fail? <==> currentKey.None? || Stale()
      ensures r.Fail? ==> r.failure == InvalidOperation
      ensures r.Ok? ==> r.value == currentValue
    {
      if currentKey.None? then Fail(InvalidOperation)
      else if Stale() then Fail(InvalidOperation)
      else Ok(currentValue)
    }

    /** `Current`: what the mode asks for; unlike the other getters it does
        not look at the table's `modificationCount`. */
    function Current(): (r: Result<Item<K, V>>)
      reads this
      ensures r.Fail? <==> currentKey.None?
      ensures r.Fail? ==> r.failure == InvalidOperation
      ensures r.Ok? ==> match mode
        case KeyMode => r.value == KeyItem(currentKey.value)
        case ValueMode => r.value == ValueItem(currentValue)
        case EntryMode => r.value == EntryItem(currentKey.value, currentValue)
    {
      if currentKey.None? then Fail(InvalidOperation)
      else match mode
        case KeyMode => Ok(KeyItem(currentKey.value))
        case ValueMode => Ok(ValueItem(currentValue))
        case EntryMode => Ok(EntryItem(currentKey.value, currentValue))
    }
  }
}
