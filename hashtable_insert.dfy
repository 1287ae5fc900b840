/**
 * Insertion into the open-addressing `Hashtable`: the probe loop of
 * `PutImpl` (`Scan`, run over the arrays by `ScanSlots`) and the
 * reinsertion loop of `Rehash` (`Place`, run by `PlaceSlot`; the whole
 * rebuild is `Regrow`).
 *
 * `PutImpl` follows the key's probes. It remembers the first `Removed`
 * slot that carries the chain marker as the place to reuse, stops at an
 * empty slot or at a `Removed` slot without the marker, stops at the key
 * itself, and sets the chain marker on every live slot it passes before it
 * has a place. `Rehash` puts every slot that is not empty, `Removed`
 * markers included, into the first empty slot of its probes in the new
 * arrays, setting the chain marker on every slot it passes.
 */
module HashInsert {
  import opened Wrappers
  import opened HashPrimes
  import opened HashProbe
  import opened HashSlots

  /** How `PutImpl`'s loop ends: on the key's slot, with a slot to fill, or
      after `size` probes without either. */
  datatype Scanned = Found(at: int) | Free(at: int) | Full

  /** `PutImpl`'s loop from probe `i` on, with `free` the slot chosen so far
      (-1 for none): the hash words afterwards, and how it ended. */
  ghost function Scan<K, V>(T: seq<Slot<K, V>>, W: seq<Word>, hash: K -> int, k: K, i: nat, free: int): (r: (seq<Word>, Scanned))
    requires WellSized(T, W) && -1 <= free < |T|
    ensures |r.0| == |W|
    decreases |T| - i
  {
    if i >= |T| then (W, if free == -1 then Full else Free(free))
    else
      var x := At(hash, k, |T|, i);
      var s, w := T[x], W[x];
      var free' := if free == -1 && s.key.Removed? && Chained(w) then x else free;
      if s.key.Null? || (s.key.Removed? && !Chained(w)) then (W, Free(if free' == -1 then x else free'))
      else if Mask(w) == HashOf(hash, k) && s.key == Live(k) then (W, Found(x))
      else Scan(T, if free' == -1 then W[x := SetChain(w)] else W, hash, k, i + 1, free')
  }

  /** `W'` is `W` with the chain marker set on some live slots. */
  ghost predicate MarkedLive<K, V>(T: seq<Slot<K, V>>, W: seq<Word>, W': seq<Word>)
    requires |T| == |W| == |W'|
  {
    forall x :: 0 <= x < |W| ==> W'[x] == W[x] || (T[x].key.Live? && W'[x] == SetChain(W[x]))
  }

  /** A key that `Find` reaches is found by `PutImpl`'s loop, which then
      has changed no hash word. */
  lemma {:induction false} ScanFinds<K, V>(T: seq<Slot<K, V>>, W: seq<Word>, hash: K -> int, k: K, i: nat, free: int)
    requires WellSized(T, W) && HashesOk(T, W, hash) && -1 <= free < |T|
    requires FindFrom(T, W, hash, k, i) >= 0
    ensures Scan(T, W, hash, k, i, free) == (W, Found(FindFrom(T, W, hash, k, i)))
    decreases |T| - i
  {
    var x := At(hash, k, |T|, i);
    var s, w := T[x], W[x];
    if FindLook(s, w, k) == Next {
      var free' := if free == -1 && s.key.Removed? && Chained(w) then x else free;
      assert W[x := SetChain(w)] == W;
      ScanFinds(T, W, hash, k, i + 1, free');
    }
  }

  /** For a key held nowhere, `PutImpl`'s loop only sets the chain marker
      on live slots, and either ends with a slot `f` without a live key,
      reached as probe `p` after live slots that now carry the marker, or
      has met live slots only. */
  lemma {:induction false} ScanAbsent<K, V>(T: seq<Slot<K, V>>, W0: seq<Word>, W: seq<Word>, hash: K -> int, k: K, i: nat, free: int, fp: int) returns (p: int)
    requires WellSized(T, W0) && |W| == |W0| && -1 <= free < |T| && i <= |T|
    requires forall x :: 0 <= x < |T| ==> T[x].key != Live(k)
    requires MarkedLive(T, W0, W)
    requires free == -1 ==> forall j :: 0 <= j < i ==> T[At(hash, k, |T|, j)].key.Live? && Chained(W[At(hash, k, |T|, j)])
    requires free != -1 ==> 0 <= fp < i && At(hash, k, |T|, fp) == free && T[free].key.Removed?
    requires free != -1 ==> forall j :: 0 <= j < fp ==> T[At(hash, k, |T|, j)].key.Live? && Chained(W[At(hash, k, |T|, j)])
    ensures var r := Scan(T, W, hash, k, i, free); MarkedLive(T, W0, r.0) && !r.1.Found?
    ensures var r := Scan(T, W, hash, k, i, free); r.1.Full? ==> forall j :: 0 <= j < |T| ==> T[At(hash, k, |T|, j)].key.Live?
    ensures var r := Scan(T, W, hash, k, i, free); r.1.Free? ==>
      0 <= p < |T| && At(hash, k, |T|, p) == r.1.at && !T[r.1.at].key.Live?
      && forall j :: 0 <= j < p ==> T[At(hash, k, |T|, j)].key.Live? && Chained(r.0[At(hash, k, |T|, j)])
    decreases |T| - i
  {
    if i >= |T| {
      p := fp;
      return;
    }
    var x := At(hash, k, |T|, i);
    var s, w := T[x], W[x];
    var free' := if free == -1 && s.key.Removed? && Chained(w) then x else free;
    if s.key.Null? || (s.key.Removed? && !Chained(w)) {
      p := if free == -1 then i else fp;
    } else if free == -1 && s.key.Removed? {
      p := ScanAbsent(T, W0, W, hash, k, i + 1, x, i);
    } else if free == -1 {
      var W' := W[x := SetChain(w)];
      forall j | 0 <= j < i + 1
        ensures T[At(hash, k, |T|, j)].key.Live? && Chained(W'[At(hash, k, |T|, j)])
      {
      }
      p := ScanAbsent(T, W0, W', hash, k, i + 1, free, fp);
    } else {
      p := ScanAbsent(T, W0, W, hash, k, i + 1, free, fp);
    }
  }

  /** With fewer live slots than slots, `PutImpl`'s loop does not run out
      of probes for a key held nowhere: it ends with a slot to fill. */
  lemma ScanFree<K, V>(T: seq<Slot<K, V>>, W: seq<Word>, hash: K -> int, k: K, v: Option<V>) returns (p: int)
    requires TableOk(T, W, hash) && LiveCount(T) < |T|
    requires forall x :: 0 <= x < |T| ==> T[x].key != Live(k)
    ensures Scan(T, W, hash, k, 0, -1).1.Free?
    ensures var r := Scan(T, W, hash, k, 0, -1);
      Marked(T, W, r.0) && FillSlot(T, W, r.0, hash, Slot(Live(k), v), HashOf(hash, k), r.1.at)
      && FillPath(T, r.0, hash, Slot(Live(k), v), r.1.at, p)
  {
    var r := Scan(T, W, hash, k, 0, -1);
    p := ScanAbsent(T, W, W, hash, k, 0, -1, 0);
    if r.1.Full? {
      forall j | 0 <= j < |T|
        ensures T[AtHash(HashOf(hash, k), |T|, j)].key.Live?
      {
        assert At(hash, k, |T|, j) == AtHash(HashOf(hash, k), |T|, j);
      }
      ProbesAllLive(T, HashOf(hash, k));
      assert false;
    }
    ScanFreeFacts(T, W, r.0, hash, k, v, r.1.at, p);
  }

  lemma ScanFreeFacts<K, V>(T: seq<Slot<K, V>>, W: seq<Word>, W': seq<Word>, hash: K -> int, k: K, v: Option<V>, f: int, p: int)
    requires WellSized(T, W) && |W'| == |W| && MarkedLive(T, W, W')
    requires forall x :: 0 <= x < |T| ==> T[x].key != Live(k)
    requires 0 <= p < |T| && At(hash, k, |T|, p) == f && !T[f].key.Live?
    requires forall j :: 0 <= j < p ==> T[At(hash, k, |T|, j)].key.Live? && Chained(W'[At(hash, k, |T|, j)])
    ensures Marked(T, W, W') && FillSlot(T, W, W', hash, Slot(Live(k), v), HashOf(hash, k), f)
    ensures FillPath(T, W', hash, Slot(Live(k), v), f, p)
  {
    forall j | 0 <= j < p
      ensures At(hash, k, |T|, j) != f
    {
    }
  }

  /** ... and filling that slot keeps the invariant and adds the key. */
  lemma ScanInserts<K, V>(T: seq<Slot<K, V>>, W: seq<Word>, hash: K -> int, k: K, v: Option<V>)
    requires TableOk(T, W, hash) && LiveCount(T) < |T|
    requires forall x :: 0 <= x < |T| ==> T[x].key != Live(k)
    ensures Scan(T, W, hash, k, 0, -1).1.Free?
    ensures var r := Scan(T, W, hash, k, 0, -1); var f := r.1.at;
      (0 <= f < |T|
      && TableOk(T[f := Slot(Live(k), v)], r.0[f := OrHash(r.0[f], HashOf(hash, k))], hash)
      && Contents(T[f := Slot(Live(k), v)]) == Contents(T)[k := v]
      && LiveCount(T[f := Slot(Live(k), v)]) == LiveCount(T) + 1)
  {
    var p := ScanFree(T, W, hash, k, v);
    var r := Scan(T, W, hash, k, 0, -1);
    var f := r.1.at;
    var s := Slot(Live(k), v);
    FillOk(T, W, r.0, hash, s, HashOf(hash, k), f, p);
    ContentsSet(T, f, s);
    CountsSet(T, f, s);
  }

  /** `PutImpl`'s probe loop over the arrays: `spot` advances by `step`
      and is reduced modulo the size at every probe, as in `Find`. */
  method ScanSlots<K(==), V>(table: array<Slot<K, V>>, hashes: array<Word>, hash: K -> int, k: K) returns (out: Scanned)
    requires table.Length == hashes.Length && table.Length >= 2
    modifies hashes
    ensures (hashes[..], out) == Scan(table[..], old(hashes[..]), hash, k, 0, -1)
  {
    var n := table.Length;
    var h := HashOf(hash, k);
    var step := Step(h, n);
    var indx := h % n;
    var free := -1;
    var i := 0;
    while i < n
      invariant 0 <= i <= n && -1 <= free < n
      invariant i < n ==> indx == At(hash, k, n, i)
      invariant Scan(table[..], hashes[..], hash, k, i, free) == Scan(table[..], old(hashes[..]), hash, k, 0, -1)
    {
      var entry := table[indx];
      var hashMix := hashes[indx];
      if free == -1 && entry.key.Removed? && Chained(hashMix) {
        free := indx;
      }
      if entry.key.Null? || (entry.key.Removed? && !Chained(hashMix)) {
        if free == -1 {
          free := indx;
        }
        return Free(free);
      }
      if Mask(hashMix) == h && entry.key == Live(k) {
        return Found(indx);
      }
      if free == -1 {
        hashes[indx] := SetChain(hashMix);
      }
      ProbeNext(h, step, n, i);
      indx := (indx + step) % n;
      i := i + 1;
    }
    out := if free == -1 then Full else Free(free);
  }

  // ---------------------------------------------------------------------
  // Rehash
  // ---------------------------------------------------------------------

  /** `Rehash`'s inner loop from probe `i` on, for slot `s` with stored
      hash `h`: the new arrays afterwards. */
  ghost function Place<K, V>(NT: seq<Slot<K, V>>, NW: seq<Word>, s: Slot<K, V>, h: nat, i: nat): (r: (seq<Slot<K, V>>, seq<Word>))
    requires WellSized(NT, NW)
    ensures WellSized(r.0, r.1) && |r.0| == |NT|
    decreases |NT| - i
  {
    if i >= |NT| then (NT, NW)
    else
      var x := AtHash(h, |NT|, i);
      if NT[x].key.Null? then (NT[x := s], NW[x := OrHash(NW[x], h)])
      else Place(NT, NW[x := SetChain(NW[x])], s, h, i + 1)
  }

  /** With an empty slot left, `Rehash`'s inner loop puts `s` into an
      empty slot `f` and keeps the invariant. */
  lemma {:induction false} PlaceFrom<K, V>(NT: seq<Slot<K, V>>, NW0: seq<Word>, NW: seq<Word>, hash: K -> int, s: Slot<K, V>, h: nat, i: nat) returns (f: int)
    requires TableOk(NT, NW0, hash) && |NW| == |NW0| && Marked(NT, NW0, NW) && UsedCount(NT) < |NT|
    requires SlotHash(hash, s, h)
    requires s.key.Live? ==> forall x :: 0 <= x < |NT| ==> NT[x].key != s.key
    requires i <= |NT| && forall j :: 0 <= j < i ==> !NT[AtHash(h, |NT|, j)].key.Null? && Chained(NW[AtHash(h, |NT|, j)])
    ensures 0 <= f < |NT| && NT[f].key.Null?
    ensures Place(NT, NW, s, h, i).0 == NT[f := s] && TableOk(Place(NT, NW, s, h, i).0, Place(NT, NW, s, h, i).1, hash)
    decreases |NT| - i
  {
    var n := |NT|;
    if i == n {
      ProbesAllUsed(NT, h);
      assert false;
    }
    var x := AtHash(h, n, i);
    if NT[x].key.Null? {
      f := x;
      forall j | 0 <= j < i
        ensures AtHash(h, n, j) != f
      {
      }
      assert FillSlot(NT, NW0, NW, hash, s, h, f);
      assert FillPath(NT, NW, hash, s, f, i);
      FillOk(NT, NW0, NW, hash, s, h, f, i);
    } else {
      var NW' := NW[x := SetChain(NW[x])];
      forall j | 0 <= j < i + 1
        ensures !NT[AtHash(h, n, j)].key.Null? && Chained(NW'[AtHash(h, n, j)])
      {
      }
      f := PlaceFrom(NT, NW0, NW', hash, s, h, i + 1);
    }
  }

  /** `Rehash`'s inner loop over the new arrays. */
  method PlaceSlot<K, V>(newTable: array<Slot<K, V>>, newHashes: array<Word>, s: Slot<K, V>, h: nat)
    requires newTable.Length == newHashes.Length && newTable.Length >= 2
    requires IsPrime(newTable.Length) && UsedCount(newTable[..]) < newTable.Length
    modifies newTable, newHashes
    ensures (newTable[..], newHashes[..]) == Place(old(newTable[..]), old(newHashes[..]), s, h, 0)
  {
    var n := newTable.Length;
    var step := Step(h, n);
    var j := h % n;
    var i := 0;
    while true
      invariant 0 <= i < n && j == AtHash(h, n, i)
      invariant newTable[..] == old(newTable[..])
      invariant forall m :: 0 <= m < i ==> !newTable[AtHash(h, n, m)].key.Null?
      invariant Place(newTable[..], newHashes[..], s, h, i) == Place(old(newTable[..]), old(newHashes[..]), s, h, 0)
      decreases n - i
    {
      if newTable[j].key.Null? {
        newTable[j] := s;
        newHashes[j] := OrHash(newHashes[j], h);
        return;
      }
      newHashes[j] := SetChain(newHashes[j]);
      if i + 1 == n {
        ProbesAllUsed(newTable[..], h);
        assert false;
      }
      ProbeNext(h, step, n, i);
      j := (j + step) % n;
      i := i + 1;
    }
  }

  /** One round of `Rehash`'s outer loop keeps the new arrays standing for
      the old slots seen so far. */
  lemma RehashStep<K, V>(T: seq<Slot<K, V>>, W: seq<Word>, NT: seq<Slot<K, V>>, NW: seq<Word>, hash: K -> int, i: int)
    requires TableOk(T, W, hash) && 0 <= i < |T| && !T[i].key.Null?
    requires TableOk(NT, NW, hash) && |NT| > |T|
    requires Contents(NT) == Contents(T[..i]) && UsedCount(NT) == UsedCount(T[..i]) && LiveCount(NT) == LiveCount(T[..i])
    ensures var r := Place(NT, NW, T[i], Mask(W[i]), 0);
      TableOk(r.0, r.1, hash) && Contents(r.0) == Contents(T[..i + 1])
      && UsedCount(r.0) == UsedCount(T[..i + 1]) && LiveCount(r.0) == LiveCount(T[..i + 1])
  {
    var s := T[i];
    var h := Mask(W[i]);
    ContentsPrefix(T, i);
    assert UsedCount(T[..i]) <= i by {
      assert |T[..i]| == i;
    }
    if s.key.Live? {
      TableUnique(T, W, hash);
      forall x | 0 <= x < i
        ensures T[..i][x].key != s.key
      {
      }
      ContentsAbsent(T[..i], s.key.k);
      forall x | 0 <= x < |NT|
        ensures NT[x].key != s.key
      {
        if NT[x].key == s.key {
          ContentsHasKey(NT, x);
        }
      }
    }
    assert SlotHash(hash, s, h);
    var f := PlaceFrom(NT, NW, NW, hash, s, h, 0);
    if s.key.Live? {
      ContentsSet(NT, f, s);
    } else {
      ContentsKeep(NT, f, s);
    }
    CountsSet(NT, f, s);
  }

  /** `Rehash` without the final assignment: new arrays of
      `ToPrime(2 * oldSize + 1)` slots holding every slot of the old ones
      that is not empty. */
  method Regrow<K, V>(table: array<Slot<K, V>>, hashes: array<Word>, ghost hash: K -> int) returns (newTable: array<Slot<K, V>>, newHashes: array<Word>)
    requires TableOk(table[..], hashes[..], hash) && table.Length == hashes.Length
    requires IsPrime(ToPrimeSpec(2 * table.Length + 1))
    ensures fresh(newTable) && fresh(newHashes)
    ensures newTable.Length == ToPrimeSpec(2 * table.Length + 1)
    ensures TableOk(newTable[..], newHashes[..], hash)
    ensures Contents(newTable[..]) == Contents(table[..]) && LiveCount(newTable[..]) == LiveCount(table[..])
  {
    var oldSize := table.Length;
    var newSize := ToPrime(2 * oldSize + 1);
    ToPrimeAtLeast(2 * oldSize + 1);
    newTable := new Slot<K, V>[newSize](_ => Slot(Null, None));
    newHashes := new Word[newSize](_ => EMPTY_WORD);
    EmptyOk(newTable[..], newHashes[..], hash);
    EmptyMap(newTable[..]);
    ghost var T, W := table[..], hashes[..];
    assert T[..0] == [];
    for i := 0 to oldSize
      invariant newTable.Length == newHashes.Length == newSize
      invariant TableOk(newTable[..], newHashes[..], hash)
      invariant Contents(newTable[..]) == Contents(T[..i])
      invariant UsedCount(newTable[..]) == UsedCount(T[..i]) && LiveCount(newTable[..]) == LiveCount(T[..i])
    {
      var s := table[i];
      if !s.key.Null? {
        var h := Mask(hashes[i]);
        RehashStep(T, W, newTable[..], newHashes[..], hash, i);
        UsedRoom(T, i);
        PlaceSlot(newTable, newHashes, s, h);
      } else {
        ContentsPrefix(T, i);
      }
    }
    assert T[..oldSize] == T;
  }

  lemma UsedRoom<K, V>(T: seq<Slot<K, V>>, i: int)
    requires 0 <= i <= |T|
    ensures UsedCount(T[..i]) <= |T|
  {
    assert |T[..i]| == i;
  }
}
