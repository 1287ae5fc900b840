/**
 * The slot arrays of the open-addressing `Hashtable`, as sequences, and
 * what the table's operations do to them.
 *
 * A slot holds a key (absent, the `Removed` marker, or a live key) and a
 * value. The hash word beside it keeps the key's 31-bit hash in its low
 * bits and, in its sign bit, the chain marker: set when some key probed
 * past this slot. `Find` follows a key's probes until it meets the key, an
 * empty slot, or a slot without the chain marker.
 *
 * The table invariant `TableOk` says that `Find` reaches every live key
 * (`Located`) and that the hash words agree with their keys (`HashesOk`).
 * The map the table stands for is `Contents`. The lemmas here show that
 * inserting into a free slot after marking the slots passed (`FillOk`),
 * removing a key (`RemoveOk`) and changing a value keep the invariant, and
 * what they do to `Contents`.
 */
module HashSlots {
  import opened Wrappers
  import opened HashPrimes
  import opened HashProbe

  datatype Key<K> = Null | Removed | Live(k: K)

  datatype Slot<K, V> = Slot(key: Key<K>, value: Option<V>)

  /** A hash word of `hashes`: its sign bit, the chain marker
      (`~Int32.MaxValue`), and its low 31 bits (`Int32.MaxValue`). */
  datatype Word = Word(chain: bool, low: nat)

  const EMPTY_WORD: Word := Word(false, 0)

  /** `w & CHAIN_MARKER != 0`. */
  predicate Chained(w: Word) {
    w.chain
  }

  /** `w & Int32.MaxValue`. */
  function Mask(w: Word): nat {
    w.low
  }

  /** `w | CHAIN_MARKER`. */
  function SetChain(w: Word): Word {
    w.(chain := true)
  }

  /** `w & CHAIN_MARKER`. */
  function ChainOnly(w: Word): Word {
    Word(w.chain, 0)
  }

  /** `w | h` for a hash `h` of 31 bits. */
  function OrHash(w: Word, h: nat): Word {
    w.(low := BitOr(w.low, h))
  }

  /** Bitwise or of two naturals. */
  function BitOr(a: nat, b: nat): nat
    decreases a + b
  {
    if a == 0 then b
    else if b == 0 then a
    else 2 * BitOr(a / 2, b / 2) + (if a % 2 == 1 || b % 2 == 1 then 1 else 0)
  }

  /** `2^31`: hashes keep their low 31 bits. */
  const HASH_RANGE: int := 0x8000_0000

  /** `GetHash(key) & Int32.MaxValue`: for a 32-bit two's-complement hash,
      its remainder modulo `2^31`. */
  function HashOf<K(==)>(hash: K -> int, k: K): (r: nat)
    ensures r < HASH_RANGE
  {
    hash(k) % HASH_RANGE
  }

  /** The `i`-th probe of a stored hash `h` in a table of `n` slots. */
  function AtHash(h: nat, n: int, i: int): (r: int)
    requires n >= 2
    ensures 0 <= r < n
  {
    Probe(h, Step(h, n), n, i)
  }

  /** The `i`-th probe of key `k`. */
  function At<K(==)>(hash: K -> int, k: K, n: int, i: int): (r: int)
    requires n >= 2
    ensures 0 <= r < n
  {
    AtHash(HashOf(hash, k), n, i)
  }

  predicate WellSized<K(==), V>(T: seq<Slot<K, V>>, W: seq<Word>) {
    |T| == |W| && |T| >= 2
  }

  // ---------------------------------------------------------------------
  // Find
  // ---------------------------------------------------------------------

  /** What `Find`'s loop does at one slot: return it, stop, or go on. */
  datatype Look = Hit | Next | Miss

  function FindLook<K(==), V>(s: Slot<K, V>, w: Word, k: K): Look {
    if s.key.Null? then Miss
    else if s.key == Live(k) then Hit
    else if !Chained(w) then Miss
    else Next
  }

  /** `Find`'s loop from probe `i` on: the slot holding `k`, or -1. At most
      `|T|` probes are made. */
  function FindFrom<K(==), V>(T: seq<Slot<K, V>>, W: seq<Word>, hash: K -> int, k: K, i: nat): (r: int)
    requires WellSized(T, W)
    ensures r == -1 || (0 <= r < |T| && T[r].key == Live(k))
    decreases |T| - i
  {
    if i >= |T| then -1
    else
      var x := At(hash, k, |T|, i);
      match FindLook(T[x], W[x], k)
      case Hit => x
      case Miss => -1
      case Next => FindFrom(T, W, hash, k, i + 1)
  }

  /** Every live key is where `Find` looks it up. */
  ghost predicate Located<K, V>(T: seq<Slot<K, V>>, W: seq<Word>, hash: K -> int)
    requires WellSized(T, W)
  {
    forall j :: 0 <= j < |T| && T[j].key.Live? ==> FindFrom(T, W, hash, T[j].key.k, 0) == j
  }

  /** The low bits of a live slot's word are its key's hash; those of any
      other slot are 0. */
  ghost predicate HashesOk<K, V>(T: seq<Slot<K, V>>, W: seq<Word>, hash: K -> int)
    requires |T| == |W|
  {
    forall j :: 0 <= j < |T| ==> Mask(W[j]) == (if T[j].key.Live? then HashOf(hash, T[j].key.k) else 0)
  }

  ghost predicate TableOk<K, V>(T: seq<Slot<K, V>>, W: seq<Word>, hash: K -> int) {
    WellSized(T, W) && IsPrime(|T|) && Located(T, W, hash) && HashesOk(T, W, hash)
  }

  /** Where `Find` stops, it stops for every table that answers the same at
      every slot where the first did not stop. */
  lemma {:induction false} FindMono<K, V>(T: seq<Slot<K, V>>, W: seq<Word>, T': seq<Slot<K, V>>, W': seq<Word>, hash: K -> int, k: K, i: nat)
    requires WellSized(T, W) && WellSized(T', W') && |T'| == |T|
    requires forall x :: 0 <= x < |T| && FindLook(T[x], W[x], k) != Miss ==> FindLook(T'[x], W'[x], k) == FindLook(T[x], W[x], k)
    requires FindFrom(T, W, hash, k, i) >= 0
    ensures FindFrom(T', W', hash, k, i) == FindFrom(T, W, hash, k, i)
    decreases |T| - i
  {
    if i < |T| {
      var x := At(hash, k, |T|, i);
      if FindLook(T[x], W[x], k) == Next {
        FindMono(T, W, T', W', hash, k, i + 1);
      }
    }
  }

  /** `Find` reaches the probe `m` whose slot holds `k` when every earlier
      probe lets it go on. */
  lemma {:induction false} FindAlong<K, V>(T: seq<Slot<K, V>>, W: seq<Word>, hash: K -> int, k: K, i: nat, m: int)
    requires WellSized(T, W) && i <= m < |T|
    requires forall j :: i <= j < m ==> FindLook(T[At(hash, k, |T|, j)], W[At(hash, k, |T|, j)], k) == Next
    requires FindLook(T[At(hash, k, |T|, m)], W[At(hash, k, |T|, m)], k) == Hit
    ensures FindFrom(T, W, hash, k, i) == At(hash, k, |T|, m)
    decreases m - i
  {
    if i < m {
      FindAlong(T, W, hash, k, i + 1, m);
    }
  }

  /** With the invariant, a key lives in one slot at most. */
  lemma LocatedUnique<K, V>(T: seq<Slot<K, V>>, W: seq<Word>, hash: K -> int, i: int, j: int)
    requires WellSized(T, W) && Located(T, W, hash)
    requires 0 <= i < |T| && 0 <= j < |T| && T[i].key.Live? && T[i].key == T[j].key
    ensures i == j
  {
    assert FindFrom(T, W, hash, T[i].key.k, 0) == i;
  }

  // ---------------------------------------------------------------------
  // The map a table stands for
  // ---------------------------------------------------------------------

  /** The live entries, a later slot overriding an earlier one with the same
      key (which the invariant rules out). */
  ghost function Contents<K, V>(T: seq<Slot<K, V>>): map<K, Option<V>>
    decreases |T|
  {
    if T == [] then map[]
    else
      var m := Contents(T[..|T| - 1]);
      var s := T[|T| - 1];
      if s.key.Live? then m[s.key.k := s.value] else m
  }

  /** The number of live slots. */
  function LiveCount<K(==), V>(T: seq<Slot<K, V>>): (r: nat)
    ensures r <= |T|
    decreases |T|
  {
    if T == [] then 0 else LiveCount(T[..|T| - 1]) + (if T[|T| - 1].key.Live? then 1 else 0)
  }

  /** The number of slots that are not empty: live keys and `Removed`
      markers. */
  function UsedCount<K(==), V>(T: seq<Slot<K, V>>): (r: nat)
    ensures r <= |T|
    decreases |T|
  {
    if T == [] then 0 else UsedCount(T[..|T| - 1]) + (if T[|T| - 1].key.Null? then 0 else 1)
  }

  ghost predicate UniqueKeys<K, V>(T: seq<Slot<K, V>>) {
    forall i, j :: 0 <= i < |T| && 0 <= j < |T| && T[i].key.Live? && T[i].key == T[j].key ==> i == j
  }

  lemma TableUnique<K, V>(T: seq<Slot<K, V>>, W: seq<Word>, hash: K -> int)
    requires TableOk(T, W, hash)
    ensures UniqueKeys(T)
  {
    forall i, j | 0 <= i < |T| && 0 <= j < |T| && T[i].key.Live? && T[i].key == T[j].key
      ensures i == j
    {
      LocatedUnique(T, W, hash, i, j);
    }
  }

  lemma {:induction false} ContentsWitness<K, V>(T: seq<Slot<K, V>>, k: K) returns (j: int)
    requires k in Contents(T)
    ensures 0 <= j < |T| && T[j].key == Live(k) && Contents(T)[k] == T[j].value
    decreases |T|
  {
    var s := T[|T| - 1];
    if s.key == Live(k) {
      j := |T| - 1;
    } else {
      j := ContentsWitness(T[..|T| - 1], k);
    }
  }

  lemma {:induction false} ContentsHasKey<K, V>(T: seq<Slot<K, V>>, j: int)
    requires 0 <= j < |T| && T[j].key.Live?
    ensures T[j].key.k in Contents(T)
    decreases |T|
  {
    if j < |T| - 1 {
      ContentsHasKey(T[..|T| - 1], j);
    }
  }

  /** A key held in one slot only maps to that slot's value. */
  lemma ContentsAt<K, V>(T: seq<Slot<K, V>>, j: int)
    requires 0 <= j < |T| && T[j].key.Live? && UniqueKeys(T)
    ensures T[j].key.k in Contents(T) && Contents(T)[T[j].key.k] == T[j].value
  {
    ContentsHasKey(T, j);
    var i := ContentsWitness(T, T[j].key.k);
  }

  lemma ContentsAbsent<K, V>(T: seq<Slot<K, V>>, k: K)
    requires forall x :: 0 <= x < |T| ==> T[x].key != Live(k)
    ensures k !in Contents(T)
  {
    if k in Contents(T) {
      var j := ContentsWitness(T, k);
    }
  }

  lemma ContentsNone<K, V>(T: seq<Slot<K, V>>)
    requires forall x :: 0 <= x < |T| ==> !T[x].key.Live?
    ensures Contents(T) == map[]
  {
    forall k | k in Contents(T)
      ensures false
    {
      var j := ContentsWitness(T, k);
    }
  }

  /** Filling a slot that holds no live key with a key held nowhere else
      adds that key. */
  lemma {:induction false} ContentsSet<K, V>(T: seq<Slot<K, V>>, f: int, s: Slot<K, V>)
    requires 0 <= f < |T| && !T[f].key.Live? && s.key.Live?
    requires forall x :: 0 <= x < |T| ==> T[x].key != s.key
    ensures Contents(T[f := s]) == Contents(T)[s.key.k := s.value]
    decreases |T|
  {
    var n := |T|;
    var T' := T[f := s];
    if f == n - 1 {
      assert T'[..n - 1] == T[..n - 1];
    } else {
      assert T'[..n - 1] == T[..n - 1][f := s];
      ContentsSet(T[..n - 1], f, s);
    }
  }

  /** Emptying the one slot of a key removes that key. */
  lemma {:induction false} ContentsDrop<K, V>(T: seq<Slot<K, V>>, r: int, s: Slot<K, V>)
    requires 0 <= r < |T| && T[r].key.Live? && !s.key.Live? && UniqueKeys(T)
    ensures Contents(T[r := s]) == Contents(T) - {T[r].key.k}
    decreases |T|
  {
    var n := |T|;
    var T' := T[r := s];
    var k := T[r].key.k;
    if r == n - 1 {
      assert T'[..n - 1] == T[..n - 1];
      ContentsAbsent(T[..n - 1], k);
    } else {
      assert T'[..n - 1] == T[..n - 1][r := s];
      ContentsDrop(T[..n - 1], r, s);
    }
  }

  /** Changing the value in the one slot of a key changes what it maps
      to. */
  lemma ContentsValue<K, V>(T: seq<Slot<K, V>>, r: int, v: Option<V>)
    requires 0 <= r < |T| && T[r].key.Live? && UniqueKeys(T)
    ensures Contents(T[r := T[r].(value := v)]) == Contents(T)[T[r].key.k := v]
  {
    var k := T[r].key.k;
    var T0 := T[r := Slot(Null, None)];
    ContentsDrop(T, r, Slot(Null, None));
    assert T0[r := T[r].(value := v)] == T[r := T[r].(value := v)];
    ContentsSet(T0, r, T[r].(value := v));
  }

  lemma ContentsPrefix<K, V>(T: seq<Slot<K, V>>, i: int)
    requires 0 <= i < |T|
    ensures Contents(T[..i + 1]) == if T[i].key.Live? then Contents(T[..i])[T[i].key.k := T[i].value] else Contents(T[..i])
    ensures LiveCount(T[..i + 1]) == LiveCount(T[..i]) + (if T[i].key.Live? then 1 else 0)
    ensures UsedCount(T[..i + 1]) == UsedCount(T[..i]) + (if T[i].key.Null? then 0 else 1)
  {
    assert T[..i + 1][..i] == T[..i];
  }

  /** Overwriting a slot without a live key with another such slot keeps
      the map. */
  lemma {:induction false} ContentsKeep<K, V>(T: seq<Slot<K, V>>, f: int, s: Slot<K, V>)
    requires 0 <= f < |T| && !T[f].key.Live? && !s.key.Live?
    ensures Contents(T[f := s]) == Contents(T)
    decreases |T|
  {
    var n := |T|;
    if f == n - 1 {
      assert T[f := s][..n - 1] == T[..n - 1];
    } else {
      assert T[f := s][..n - 1] == T[..n - 1][f := s];
      ContentsKeep(T[..n - 1], f, s);
    }
  }

  /** The map has exactly the live slots' keys and values. */
  lemma SlotsAreEntries<K, V>(T: seq<Slot<K, V>>)
    requires UniqueKeys(T)
    ensures forall j :: 0 <= j < |T| && T[j].key.Live? ==> T[j].key.k in Contents(T) && Contents(T)[T[j].key.k] == T[j].value
    ensures forall k :: k in Contents(T) ==> exists j :: 0 <= j < |T| && T[j].key == Live(k) && Contents(T)[k] == T[j].value
  {
    forall j | 0 <= j < |T| && T[j].key.Live?
      ensures T[j].key.k in Contents(T) && Contents(T)[T[j].key.k] == T[j].value
    {
      ContentsAt(T, j);
    }
    forall k | k in Contents(T)
      ensures exists j :: 0 <= j < |T| && T[j].key == Live(k) && Contents(T)[k] == T[j].value
    {
      var j := ContentsWitness(T, k);
    }
  }

  /** Some live slot holds the value `v`. */
  ghost predicate SlotHolds<K, V>(T: seq<Slot<K, V>>, v: Option<V>) {
    exists j :: 0 <= j < |T| && T[j].key.Live? && T[j].value == v
  }

  /** A value is some key's exactly when a live slot holds it. */
  lemma ValueInSlots<K, V>(T: seq<Slot<K, V>>, v: Option<V>)
    requires UniqueKeys(T)
    ensures v in Contents(T).Values <==> SlotHolds(T, v)
  {
    SlotsAreEntries(T);
    if SlotHolds(T, v) {
      var j :| 0 <= j < |T| && T[j].key.Live? && T[j].value == v;
      var k := T[j].key.k;
      assert k in Contents(T) && Contents(T)[k] == v;
    }
  }

  /** Without repeated keys, the map has one entry per live slot. */
  lemma {:induction false} ContentsCard<K, V>(T: seq<Slot<K, V>>)
    requires UniqueKeys(T)
    ensures |Contents(T)| == LiveCount(T)
    decreases |T|
  {
    if T != [] {
      var n := |T|;
      var P := T[..n - 1];
      assert UniqueKeys(P);
      ContentsCard(P);
      var s := T[n - 1];
      if s.key.Live? {
        ContentsAbsent(P, s.key.k);
      }
    }
  }

  lemma {:induction false} CountsSet<K, V>(T: seq<Slot<K, V>>, f: int, s: Slot<K, V>)
    requires 0 <= f < |T|
    ensures LiveCount(T[f := s]) == LiveCount(T) - (if T[f].key.Live? then 1 else 0) + (if s.key.Live? then 1 else 0)
    ensures UsedCount(T[f := s]) == UsedCount(T) - (if T[f].key.Null? then 0 else 1) + (if s.key.Null? then 0 else 1)
    decreases |T|
  {
    var n := |T|;
    if f == n - 1 {
      assert T[f := s][..n - 1] == T[..n - 1];
    } else {
      assert T[f := s][..n - 1] == T[..n - 1][f := s];
      CountsSet(T[..n - 1], f, s);
    }
  }

  lemma {:induction false} AllLiveCount<K, V>(T: seq<Slot<K, V>>)
    requires forall x :: 0 <= x < |T| ==> T[x].key.Live?
    ensures LiveCount(T) == |T|
    decreases |T|
  {
    if T != [] {
      AllLiveCount(T[..|T| - 1]);
    }
  }

  lemma {:induction false} AllUsedCount<K, V>(T: seq<Slot<K, V>>)
    requires forall x :: 0 <= x < |T| ==> !T[x].key.Null?
    ensures UsedCount(T) == |T|
    decreases |T|
  {
    if T != [] {
      AllUsedCount(T[..|T| - 1]);
    }
  }

  lemma {:induction false} NoneCounts<K, V>(T: seq<Slot<K, V>>)
    requires forall x :: 0 <= x < |T| ==> T[x].key.Null?
    ensures LiveCount(T) == 0 && UsedCount(T) == 0
    decreases |T|
  {
    if T != [] {
      NoneCounts(T[..|T| - 1]);
    }
  }

  lemma {:induction false} LiveUsed<K, V>(T: seq<Slot<K, V>>)
    ensures LiveCount(T) <= UsedCount(T)
    decreases |T|
  {
    if T != [] {
      LiveUsed(T[..|T| - 1]);
    }
  }

  /** With a prime size, the first `|T|` probes of any hash visit every
      slot: if they all meet a slot that is not empty, no slot is empty. */
  lemma ProbesAllUsed<K, V>(T: seq<Slot<K, V>>, h: nat)
    requires |T| >= 2 && IsPrime(|T|)
    requires forall j :: 0 <= j < |T| ==> !T[AtHash(h, |T|, j)].key.Null?
    ensures UsedCount(T) == |T|
  {
    forall x | 0 <= x < |T|
      ensures !T[x].key.Null?
    {
      var j := ProbeReaches(h, Step(h, |T|), |T|, x);
      assert AtHash(h, |T|, j) == x;
    }
    AllUsedCount(T);
  }

  lemma ProbesAllLive<K, V>(T: seq<Slot<K, V>>, h: nat)
    requires |T| >= 2 && IsPrime(|T|)
    requires forall j :: 0 <= j < |T| ==> T[AtHash(h, |T|, j)].key.Live?
    ensures LiveCount(T) == |T|
  {
    forall x | 0 <= x < |T|
      ensures T[x].key.Live?
    {
      var j := ProbeReaches(h, Step(h, |T|), |T|, x);
      assert AtHash(h, |T|, j) == x;
    }
    AllLiveCount(T);
  }

  // ---------------------------------------------------------------------
  // Keeping the invariant
  // ---------------------------------------------------------------------

  /** `W'` is `W` with the chain marker set on some slots that are not
      empty. */
  ghost predicate Marked<K, V>(T: seq<Slot<K, V>>, W: seq<Word>, W': seq<Word>)
    requires |T| == |W| == |W'|
  {
    forall x :: 0 <= x < |W| ==> W'[x] == W[x] || (!T[x].key.Null? && W'[x] == SetChain(W[x]))
  }

  /** Keys already in the table are still found after marking, and after
      putting into a slot without a live key a slot that is not empty,
      holds none of them and keeps that slot's chain marker. */
  lemma OldKeysKept<K, V>(T: seq<Slot<K, V>>, W: seq<Word>, T': seq<Slot<K, V>>, W': seq<Word>, hash: K -> int, f: int, j: int)
    requires WellSized(T, W) && Located(T, W, hash) && |T'| == |T| && |W'| == |W|
    requires 0 <= f < |T| && !T[f].key.Live? && !T'[f].key.Null? && Chained(W'[f]) == Chained(W[f])
    requires forall x :: 0 <= x < |T| && x != f ==> T'[x] == T[x] && (W'[x] == W[x] || W'[x] == SetChain(W[x]))
    requires 0 <= j < |T| && j != f && T[j].key.Live? && T'[f].key != T[j].key
    ensures FindFrom(T', W', hash, T[j].key.k, 0) == j
  {
    var k := T[j].key.k;
    forall x | 0 <= x < |T| && FindLook(T[x], W[x], k) != Miss
      ensures FindLook(T'[x], W'[x], k) == FindLook(T[x], W[x], k)
    {
    }
    FindMono(T, W, T', W', hash, k, 0);
  }

  /** Slot `f` holds no live key and its word is as before the marking;
      the slot `s` put there is a `Removed` marker with hash `h == 0` or a
      live key with its hash `h`. */
  ghost predicate FillSlot<K, V>(T: seq<Slot<K, V>>, W: seq<Word>, W': seq<Word>, hash: K -> int, s: Slot<K, V>, h: nat, f: int) {
    |W| == |W'| && 0 <= f < |T| && f < |W| && !T[f].key.Live? && W'[f] == W[f] && SlotHash(hash, s, h)
  }

  /** `h` is the stored hash of the slot `s` that is not empty. */
  ghost predicate SlotHash<K, V>(hash: K -> int, s: Slot<K, V>, h: nat) {
    !s.key.Null? && (s.key.Removed? ==> h == 0) && (s.key.Live? ==> h == HashOf(hash, s.key.k))
  }

  /** A live key `s` is held nowhere in the table, `f` is its probe `p`,
      and every earlier probe met a slot that is not empty and carries the
      chain marker in `W'`. */
  ghost predicate FillPath<K, V>(T: seq<Slot<K, V>>, W': seq<Word>, hash: K -> int, s: Slot<K, V>, f: int, p: int)
    requires WellSized(T, W')
  {
    s.key.Live? ==>
      (forall x :: 0 <= x < |T| ==> T[x].key != s.key)
      && 0 <= p < |T| && At(hash, s.key.k, |T|, p) == f
      && forall i :: 0 <= i < p ==> At(hash, s.key.k, |T|, i) != f && !T[At(hash, s.key.k, |T|, i)].key.Null? && Chained(W'[At(hash, s.key.k, |T|, i)])
  }

  /** Putting slot `s` into the free slot `f` after marking the slots
      passed keeps the invariant. */
  lemma FillOk<K, V>(T: seq<Slot<K, V>>, W: seq<Word>, W': seq<Word>, hash: K -> int, s: Slot<K, V>, h: nat, f: int, p: int)
    requires TableOk(T, W, hash) && FillSlot(T, W, W', hash, s, h, f) && Marked(T, W, W') && FillPath(T, W', hash, s, f, p)
    ensures TableOk(T[f := s], W'[f := OrHash(W'[f], h)], hash)
  {
    FillHashes(T, W, W', hash, s, h, f);
    FillLocated(T, W, W', hash, s, h, f, p);
  }

  lemma FillHashes<K, V>(T: seq<Slot<K, V>>, W: seq<Word>, W': seq<Word>, hash: K -> int, s: Slot<K, V>, h: nat, f: int)
    requires |T| == |W| && HashesOk(T, W, hash) && FillSlot(T, W, W', hash, s, h, f) && Marked(T, W, W')
    ensures HashesOk(T[f := s], W'[f := OrHash(W'[f], h)], hash)
  {
    var T', W'' := T[f := s], W'[f := OrHash(W'[f], h)];
    forall x | 0 <= x < |T|
      ensures Mask(W''[x]) == (if T'[x].key.Live? then HashOf(hash, T'[x].key.k) else 0)
    {
      if x != f {
      }
    }
  }

  lemma FillLocated<K, V>(T: seq<Slot<K, V>>, W: seq<Word>, W': seq<Word>, hash: K -> int, s: Slot<K, V>, h: nat, f: int, p: int)
    requires WellSized(T, W) && Located(T, W, hash) && FillSlot(T, W, W', hash, s, h, f) && Marked(T, W, W') && FillPath(T, W', hash, s, f, p)
    ensures Located(T[f := s], W'[f := OrHash(W'[f], h)], hash)
  {
    var T', W'' := T[f := s], W'[f := OrHash(W'[f], h)];
    forall j | 0 <= j < |T| && T'[j].key.Live?
      ensures FindFrom(T', W'', hash, T'[j].key.k, 0) == j
    {
      if j == f {
        FillNewKey(T, W', hash, s, h, f, p);
      } else {
        FillOldKey(T, W, W', hash, s, h, f, j);
      }
    }
  }

  lemma FillNewKey<K, V>(T: seq<Slot<K, V>>, W': seq<Word>, hash: K -> int, s: Slot<K, V>, h: nat, f: int, p: int)
    requires WellSized(T, W') && 0 <= f < |T| && s.key.Live? && FillPath(T, W', hash, s, f, p)
    ensures FindFrom(T[f := s], W'[f := OrHash(W'[f], h)], hash, s.key.k, 0) == f
  {
    var T', W'' := T[f := s], W'[f := OrHash(W'[f], h)];
    var k := s.key.k;
    forall i | 0 <= i < p
      ensures FindLook(T'[At(hash, k, |T|, i)], W''[At(hash, k, |T|, i)], k) == Next
    {
    }
    FindAlong(T', W'', hash, k, 0, p);
  }

  lemma FillOldKey<K, V>(T: seq<Slot<K, V>>, W: seq<Word>, W': seq<Word>, hash: K -> int, s: Slot<K, V>, h: nat, f: int, j: int)
    requires WellSized(T, W) && Located(T, W, hash) && |W'| == |W| && Marked(T, W, W')
    requires 0 <= f < |T| && !T[f].key.Live? && W'[f] == W[f] && !s.key.Null?
    requires s.key.Live? ==> forall x :: 0 <= x < |T| ==> T[x].key != s.key
    requires 0 <= j < |T| && j != f && T[j].key.Live?
    ensures FindFrom(T[f := s], W'[f := OrHash(W'[f], h)], hash, T[j].key.k, 0) == j
  {
    var T', W'' := T[f := s], W'[f := OrHash(W'[f], h)];
    forall x | 0 <= x < |T| && x != f
      ensures T'[x] == T[x] && (W''[x] == W[x] || W''[x] == SetChain(W[x]))
    {
    }
    OldKeysKept(T, W, T', W'', hash, f, j);
  }

  /** `Remove`'s update of the slot `r` of a live key: the word keeps only
      its chain marker, and the key becomes `Removed` when that marker is
      set, else empty. */
  function Vacated<K(==), V>(w: Word): Slot<K, V> {
    Slot(if Chained(w) then Removed else Null, None)
  }

  lemma RemoveOk<K, V>(T: seq<Slot<K, V>>, W: seq<Word>, hash: K -> int, r: int)
    requires TableOk(T, W, hash) && 0 <= r < |T| && T[r].key.Live?
    ensures TableOk(T[r := Vacated(W[r])], W[r := ChainOnly(W[r])], hash)
    ensures Contents(T[r := Vacated(W[r])]) == Contents(T) - {T[r].key.k}
    ensures LiveCount(T[r := Vacated(W[r])]) == LiveCount(T) - 1
  {
    var T', W' := T[r := Vacated(W[r])], W[r := ChainOnly(W[r])];
    TableUnique(T, W, hash);
    forall j | 0 <= j < |T| && T'[j].key.Live?
      ensures FindFrom(T', W', hash, T'[j].key.k, 0) == j
    {
      var k := T[j].key.k;
      if T[j].key == T[r].key {
        LocatedUnique(T, W, hash, j, r);
      }
      forall x | 0 <= x < |T| && FindLook(T[x], W[x], k) != Miss
        ensures FindLook(T'[x], W'[x], k) == FindLook(T[x], W[x], k)
      {
      }
      FindMono(T, W, T', W', hash, k, 0);
    }
    ContentsDrop(T, r, Vacated(W[r]));
    CountsSet(T, r, Vacated<K, V>(W[r]));
  }

  /** Changing the value of the slot `r` of a live key keeps the
      invariant. */
  lemma OverwriteOk<K, V>(T: seq<Slot<K, V>>, W: seq<Word>, hash: K -> int, r: int, v: Option<V>)
    requires TableOk(T, W, hash) && 0 <= r < |T| && T[r].key.Live?
    ensures TableOk(T[r := T[r].(value := v)], W, hash)
    ensures Contents(T[r := T[r].(value := v)]) == Contents(T)[T[r].key.k := v]
    ensures LiveCount(T[r := T[r].(value := v)]) == LiveCount(T)
  {
    var T' := T[r := T[r].(value := v)];
    forall j | 0 <= j < |T| && T'[j].key.Live?
      ensures FindFrom(T', W, hash, T'[j].key.k, 0) == j
    {
      var k := T[j].key.k;
      forall x | 0 <= x < |T| && FindLook(T[x], W[x], k) != Miss
        ensures FindLook(T'[x], W[x], k) == FindLook(T[x], W[x], k)
      {
      }
      FindMono(T, W, T', W, hash, k, 0);
    }
    TableUnique(T, W, hash);
    ContentsValue(T, r, v);
    CountsSet(T, r, T[r].(value := v));
  }

  /** A table of empty slots and zero words keeps the invariant and stands
      for the empty map. */
  lemma EmptyOk<K, V>(T: seq<Slot<K, V>>, W: seq<Word>, hash: K -> int)
    requires |T| == |W| && IsPrime(|T|)
    requires forall x :: 0 <= x < |T| ==> T[x] == Slot(Null, None) && W[x] == EMPTY_WORD
    ensures TableOk(T, W, hash)
  {
  }

  lemma EmptyMap<K, V>(T: seq<Slot<K, V>>)
    requires forall x :: 0 <= x < |T| ==> T[x] == Slot(Null, None)
    ensures Contents(T) == map[] && LiveCount(T) == 0 && UsedCount(T) == 0
  {
    ContentsNone(T);
    NoneCounts(T);
  }

  /** With the invariant, `Find` answers for the map. */
  lemma FindContents<K, V>(T: seq<Slot<K, V>>, W: seq<Word>, hash: K -> int, k: K)
    requires TableOk(T, W, hash)
    ensures var r := FindFrom(T, W, hash, k, 0);
      (r >= 0 <==> k in Contents(T)) && (r >= 0 ==> Contents(T)[k] == T[r].value)
  {
    var r := FindFrom(T, W, hash, k, 0);
    TableUnique(T, W, hash);
    if r >= 0 {
      ContentsAt(T, r);
    } else if k in Contents(T) {
      var j := ContentsWitness(T, k);
    }
  }
}
