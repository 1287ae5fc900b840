/**
 * What the read-only queries of the ternary search trie compute: the key
 * of a node (`getKey`), the node counts, the ordered listing of keys
 * (`sortKeys`, `MatchPrefix`) and the near-match search (`MatchAlmost`).
 *
 * The key of a node is the sequence of split characters of the nodes left
 * through their eq kid on the way down from the root, followed by the
 * node's own split character. `PathKey` computes it from the picture;
 * `KeyOf` computes it the way `getKey` does, climbing parent links. The
 * two agree whenever the parent links are exact.
 */
module TrieRead {

  import opened Wrappers
  import opened Cardinality
  import opened TrieShape
  import opened TrieSpec

  // ---------------------------------------------------------------------
  // The key of a node
  // ---------------------------------------------------------------------

  function Reverse(s: string): (r: string)
    ensures |r| == |s|
    ensures forall k :: 0 <= k < |s| ==> r[k] == s[|s| - 1 - k]
  {
    if s == [] then [] else Reverse(s[1..]) + [s[0]]
  }

  lemma ReverseSnoc(s: string, c: char)
    ensures Reverse(s + [c]) == [c] + Reverse(s)
  {
    var a, b := Reverse(s + [c]), [c] + Reverse(s);
    forall k | 0 <= k < |a|
      ensures a[k] == b[k]
    {
      if k > 0 {
        assert a[k] == (s + [c])[|s| - k];
      }
    }
  }

  /** The characters `getKey` collects climbing parent links from `cur`,
      having arrived from `last`, root side first: a node contributes its
      split character when `last` is its eq kid. At most `fuel` nodes are
      climbed. */
  ghost function Up(nodes: seq<Node>, cur: int, last: int, fuel: nat): string
    requires ParentsInRange(nodes) && -1 <= cur < |nodes|
    decreases fuel
  {
    if cur == NIL || fuel == 0 then []
    else
      Up(nodes, nodes[cur].parent, cur, fuel - 1)
      + (if nodes[cur].eq == last then [nodes[cur].splitchar] else [])
  }

  /** The key of node `n` read off the parent links, climbing at most as
      many nodes as the arena holds. */
  ghost function KeyOf(nodes: seq<Node>, n: int): string
    requires ParentsInRange(nodes) && 0 <= n < |nodes|
  {
    Up(nodes, nodes[n].parent, n, |nodes|) + [nodes[n].splitchar]
  }

  /** The key characters spent above node `n` inside the picture `t`. */
  ghost function RelPrefix(t: Tree, nodes: seq<Node>, n: int): string
    requires n in Ids(t)
  {
    if t.id == n then []
    else if n in Ids(t.lo) then RelPrefix(t.lo, nodes, n)
    else if n in Ids(t.eq) then SplitChar(nodes, t.id) + RelPrefix(t.eq, nodes, n)
    else RelPrefix(t.hi, nodes, n)
  }

  /** The split character of node `id` as a string, empty off the arena. */
  function SplitChar(nodes: seq<Node>, id: int): (r: string)
    ensures 0 <= id < |nodes| ==> r == [nodes[id].splitchar]
  {
    if 0 <= id < |nodes| then [nodes[id].splitchar] else []
  }

  /** The number of links from the root of `t` down to `n`. */
  function Depth(t: Tree, n: int): (r: nat)
    requires n in Ids(t)
    ensures r < Size(t)
  {
    if t.id == n then 0
    else if n in Ids(t.lo) then Depth(t.lo, n) + 1
    else if n in Ids(t.eq) then Depth(t.eq, n) + 1
    else Depth(t.hi, n) + 1
  }

  /** The key of node `n` relative to the root of `t`. */
  ghost function PathKey(t: Tree, nodes: seq<Node>, n: int): string
    requires Shaped(t, nodes) && n in Ids(t)
  {
    ShapedIds(t, nodes);
    RelPrefix(t, nodes, n) + [nodes[n].splitchar]
  }

  /** Two strings equal up to `fold`. */
  ghost predicate FoldEq(fold: char -> char, a: string, b: string) {
    |a| == |b| && forall k :: 0 <= k < |a| ==> fold(a[k]) == fold(b[k])
  }

  /** Climbing from `n` to the root of `t` collects the relative prefix of
      `n`; above that root the climb goes on from `pid`. */
  lemma {:induction false} UpSplit(t: Tree, pid: int, nodes: seq<Node>, n: int, f: nat)
    requires Shaped(t, nodes) && Distinct(t) && ParentsExact(t, pid, nodes) && ParentsInRange(nodes)
    requires -1 <= pid < |nodes| && n in Ids(t) && 0 <= n < |nodes| && f >= Depth(t, n)
    ensures Up(nodes, nodes[n].parent, n, f) == Up(nodes, pid, RootId(t), f - Depth(t, n)) + RelPrefix(t, nodes, n)
    decreases t
  {
    if t.id != n {
      var k := if n in Ids(t.lo) then t.lo else if n in Ids(t.eq) then t.eq else t.hi;
      assert Depth(t, n) == Depth(k, n) + 1;
      UpSplit(k, t.id, nodes, n, f);
      UpSplitKid(t, k, pid, nodes, n, f);
    }
  }

  /** The step of `UpSplit` from the kid `k` holding `n` to its parent. */
  lemma UpSplitKid(t: Tree, k: Tree, pid: int, nodes: seq<Node>, n: int, f: nat)
    requires Shaped(t, nodes) && Distinct(t) && ParentsExact(t, pid, nodes) && ParentsInRange(nodes)
    requires -1 <= pid < |nodes| && n in Ids(t) && t.id != n && f >= Depth(t, n)
    requires k == (if n in Ids(t.lo) then t.lo else if n in Ids(t.eq) then t.eq else t.hi)
    requires Shaped(k, nodes) && n in Ids(k) && 0 <= n < |nodes| && 0 <= t.id < |nodes|
    requires Up(nodes, nodes[n].parent, n, f) == Up(nodes, t.id, RootId(k), f - Depth(k, n)) + RelPrefix(k, nodes, n)
    ensures Up(nodes, nodes[n].parent, n, f) == Up(nodes, pid, RootId(t), f - Depth(t, n)) + RelPrefix(t, nodes, n)
  {
    KidStep(t, k, pid, nodes, n);
    var g := f - Depth(k, n);
    var own: string := if nodes[t.id].eq == k.id then [nodes[t.id].splitchar] else [];
    UpOnce(nodes, t.id, k.id, g, pid, own);
    Chain3(Up(nodes, nodes[n].parent, n, f), Up(nodes, t.id, k.id, g), Up(nodes, pid, t.id, g - 1),
      own, RelPrefix(k, nodes, n), RelPrefix(t, nodes, n));
  }

  /** Going down from `t` to its kid `k` holding `n`: the depth grows by
      one and the prefix gains `t`'s character exactly when `k` is the eq
      kid. */
  lemma KidStep(t: Tree, k: Tree, pid: int, nodes: seq<Node>, n: int)
    requires Shaped(t, nodes) && Distinct(t) && ParentsExact(t, pid, nodes)
    requires n in Ids(t) && t.id != n
    requires k == (if n in Ids(t.lo) then t.lo else if n in Ids(t.eq) then t.eq else t.hi)
    ensures k.T? && RootId(k) == k.id && RootId(t) == t.id && 0 <= t.id < |nodes| && nodes[t.id].parent == pid
    ensures Depth(t, n) == Depth(k, n) + 1
    ensures RelPrefix(t, nodes, n)
      == (if nodes[t.id].eq == k.id then [nodes[t.id].splitchar] else []) + RelPrefix(k, nodes, n)
  {
    if k != t.eq {
      ShapedIds(t, nodes);
      assert k.id in Ids(t) && k.id != t.id;
      assert nodes[t.id].eq != k.id;
    }
  }

  lemma Chain3(a: string, b: string, c: string, own: string, rk: string, rt: string)
    requires a == b + rk && b == c + own && rt == own + rk
    ensures a == c + rt
  {
  }

  /** One step of the climb. */
  lemma UpOnce(nodes: seq<Node>, c: int, last: int, g: nat, p: int, own: string)
    requires ParentsInRange(nodes) && 0 <= c < |nodes| && g >= 1 && nodes[c].parent == p
    requires own == if nodes[c].eq == last then [nodes[c].splitchar] else []
    ensures Up(nodes, c, last, g) == Up(nodes, p, c, g - 1) + own
  {
  }

  /** With exact parent links, `getKey`'s climb reads the key of the path
      from the root. */
  lemma KeyOfPath(nodes: seq<Node>, t: Tree, n: int)
    requires Shaped(t, nodes) && Distinct(t) && ParentsExact(t, NIL, nodes) && ParentsInRange(nodes)
    requires n in Ids(t)
    ensures 0 <= n < |nodes| && KeyOf(nodes, n) == PathKey(t, nodes, n)
  {
    DepthBound(t, nodes, n);
    UpSplit(t, NIL, nodes, n, |nodes|);
    UpNil(nodes, RootId(t), |nodes| - Depth(t, n));
    KeyOfUp(nodes, n, Up(nodes, nodes[n].parent, n, |nodes|), RelPrefix(t, nodes, n));
  }

  lemma KeyOfUp(nodes: seq<Node>, n: int, u: string, rel: string)
    requires ParentsInRange(nodes) && 0 <= n < |nodes|
    requires u == Up(nodes, nodes[n].parent, n, |nodes|) && u == [] + rel
    ensures KeyOf(nodes, n) == rel + [nodes[n].splitchar]
  {
    assert u == rel;
  }

  /** A node of a picture with distinct ids lies in the arena, deeper than
      no more links than the arena has nodes. */
  lemma DepthBound(t: Tree, nodes: seq<Node>, n: int)
    requires Shaped(t, nodes) && Distinct(t) && n in Ids(t)
    ensures 0 <= n < |nodes| && Depth(t, n) < |nodes|
  {
    ShapedIds(t, nodes);
    DistinctSize(t);
    RangeCard(Ids(t), |nodes|);
  }

  /** With exact parent links, the parent of a node other than the root of
      `t` is one link closer to that root. */
  lemma {:induction false} ParentStep(t: Tree, pid: int, nodes: seq<Node>, q: int)
    requires Shaped(t, nodes) && Distinct(t) && ParentsExact(t, pid, nodes) && q in Ids(t)
    ensures 0 <= q < |nodes|
    ensures q == t.id ==> nodes[q].parent == pid
    ensures q != t.id ==> nodes[q].parent in Ids(t) && Depth(t, nodes[q].parent) == Depth(t, q) - 1
    decreases t
  {
    if q != t.id {
      var k := if q in Ids(t.lo) then t.lo else if q in Ids(t.eq) then t.eq else t.hi;
      ParentStep(k, t.id, nodes, q);
    }
  }

  lemma UpNil(nodes: seq<Node>, last: int, fuel: nat)
    requires ParentsInRange(nodes)
    ensures Up(nodes, NIL, last, fuel) == []
  {
  }

  /** A node the walk lands on has a key equal to the key walked, up to
      `fold`. */
  lemma {:induction false} WalkPath(nodes: seq<Node>, fold: char -> char, key: string, i: nat, cur: int, t: Tree)
    requires Shaped(t, nodes) && Distinct(t) && RootId(t) == cur && i < |key|
    requires Walk(nodes, fold, key, i, cur, t) != NIL
    ensures FoldEq(fold, PathKey(t, nodes, Walk(nodes, fold, key, i, cur, t)), key[i..])
    decreases t
  {
    var r := Walk(nodes, fold, key, i, cur, t);
    var cmp := Compare(fold, key[i], nodes[cur].splitchar);
    ShapedIds(t, nodes);
    if cmp == 0 {
      if i + 1 < |key| {
        WalkPath(nodes, fold, key, i + 1, nodes[cur].eq, t.eq);
        assert key[i..] == [key[i]] + key[i + 1..];
        assert PathKey(t, nodes, r) == [nodes[cur].splitchar] + PathKey(t.eq, nodes, r);
      } else {
        assert key[i..] == [key[i]];
      }
    } else if cmp < 0 {
      WalkPath(nodes, fold, key, i, nodes[cur].lo, t.lo);
      assert PathKey(t, nodes, r) == PathKey(t.lo, nodes, r);
    } else {
      WalkPath(nodes, fold, key, i, nodes[cur].hi, t.hi);
      assert PathKey(t, nodes, r) == PathKey(t.hi, nodes, r);
    }
  }

  /** The key of a node below the eq kid of `s` extends the key of `s`. */
  lemma {:induction false} PathExtends(t: Tree, nodes: seq<Node>, s: int, q: int)
    requires Shaped(t, nodes) && Distinct(t) && s in Ids(t)
    requires Shaped(Sub(t, s), nodes) && q in Ids(Sub(t, s).eq)
    ensures q in Ids(t)
    ensures RelPrefix(t, nodes, q) == PathKey(t, nodes, s) + RelPrefix(Sub(t, s).eq, nodes, q)
    decreases t
  {
    ShapedIds(t, nodes);
    if t.id == s {
      assert q !in Ids(t.lo);
    } else if s in Ids(t.lo) {
      PathExtends(t.lo, nodes, s, q);
    } else if s in Ids(t.eq) {
      PathExtends(t.eq, nodes, s, q);
    } else {
      PathExtends(t.hi, nodes, s, q);
    }
  }

  lemma ShapedSub(t: Tree, nodes: seq<Node>, x: int)
    requires Shaped(t, nodes) && x in Ids(t)
    ensures Shaped(Sub(t, x), nodes)
  {
  }

  // ---------------------------------------------------------------------
  // Counting nodes
  // ---------------------------------------------------------------------

  /** Node `id` exists and holds data. */
  ghost predicate HasData(nodes: seq<Node>, id: int) {
    0 <= id < |nodes| && nodes[id].data.Some?
  }

  /** The nodes of the picture that hold data. */
  ghost function DataIds(t: Tree, nodes: seq<Node>): set<int> {
    match t
    case Nil => {}
    case T(id, lo, eq, hi) =>
      (if HasData(nodes, id) then {id} else {}) + DataIds(lo, nodes) + DataIds(eq, nodes) + DataIds(hi, nodes)
  }

  lemma DataIdsIn(t: Tree, nodes: seq<Node>)
    ensures forall q :: q in DataIds(t, nodes) <==> q in Ids(t) && HasData(nodes, q)
  {
    match t
    case Nil =>
    case T(_, lo, eq, hi) =>
      DataIdsIn(lo, nodes);
      DataIdsIn(eq, nodes);
      DataIdsIn(hi, nodes);
  }

  /** `RecursiveNodeCalculator`: `acc` plus the number of nodes of the
      subtrie at `cur`, or of those holding data when `checkData`. */
  function NodeCount(nodes: seq<Node>, cur: int, checkData: bool, acc: int, ghost t: Tree): (r: int)
    requires Shaped(t, nodes) && RootId(t) == cur
    ensures acc <= r <= acc + Size(t)
    decreases t
  {
    if cur == NIL then acc
    else
      var a := NodeCount(nodes, nodes[cur].lo, checkData, acc, t.lo);
      var b := NodeCount(nodes, nodes[cur].eq, checkData, a, t.eq);
      var c := NodeCount(nodes, nodes[cur].hi, checkData, b, t.hi);
      if checkData then (if nodes[cur].data.Some? then c + 1 else c)
      else c + 1
  }

  /** Counting every node gives the number of nodes of the picture. */
  lemma {:induction false} NodeCountIsSize(nodes: seq<Node>, cur: int, acc: int, t: Tree)
    requires Shaped(t, nodes) && RootId(t) == cur && Distinct(t)
    ensures NodeCount(nodes, cur, false, acc, t) == acc + |Ids(t)|
    decreases t
  {
    match t
    case Nil =>
    case T(id, lo, eq, hi) =>
      var a := NodeCount(nodes, nodes[cur].lo, false, acc, lo);
      var b := NodeCount(nodes, nodes[cur].eq, false, a, eq);
      NodeCountIsSize(nodes, nodes[cur].lo, acc, lo);
      NodeCountIsSize(nodes, nodes[cur].eq, a, eq);
      NodeCountIsSize(nodes, nodes[cur].hi, b, hi);
      NodeCard(id, Ids(lo), Ids(eq), Ids(hi));
  }

  /** Counting data nodes gives the number of data nodes of the picture. */
  lemma {:induction false} NodeCountIsData(nodes: seq<Node>, cur: int, acc: int, t: Tree)
    requires Shaped(t, nodes) && RootId(t) == cur && Distinct(t)
    ensures NodeCount(nodes, cur, true, acc, t) == acc + |DataIds(t, nodes)|
    decreases t
  {
    match t
    case Nil =>
    case T(id, lo, eq, hi) =>
      var a := NodeCount(nodes, nodes[cur].lo, true, acc, lo);
      var b := NodeCount(nodes, nodes[cur].eq, true, a, eq);
      NodeCountIsData(nodes, nodes[cur].lo, acc, lo);
      NodeCountIsData(nodes, nodes[cur].eq, a, eq);
      NodeCountIsData(nodes, nodes[cur].hi, b, hi);
      DataCard(t, nodes);
  }

  lemma DataIdsSub(t: Tree, nodes: seq<Node>)
    ensures DataIds(t, nodes) <= Ids(t)
  {
    match t
    case Nil =>
    case T(_, lo, eq, hi) =>
      DataIdsSub(lo, nodes);
      DataIdsSub(eq, nodes);
      DataIdsSub(hi, nodes);
  }

  lemma DataCard(t: Tree, nodes: seq<Node>)
    requires Distinct(t) && t.T?
    ensures |DataIds(t, nodes)| == (if HasData(nodes, t.id) then 1 else 0)
      + |DataIds(t.lo, nodes)| + |DataIds(t.eq, nodes)| + |DataIds(t.hi, nodes)|
  {
    DataIdsSub(t.lo, nodes);
    DataIdsSub(t.eq, nodes);
    DataIdsSub(t.hi, nodes);
    var me: set<int> := if HasData(nodes, t.id) then {t.id} else {};
    var dl, de, dh := DataIds(t.lo, nodes), DataIds(t.eq, nodes), DataIds(t.hi, nodes);
    DisjointUnion(me, dl);
    DisjointUnion(me + dl, de);
    DisjointUnion(me + dl + de, dh);
  }

  lemma SubsetCard(a: set<int>, b: set<int>)
    requires a <= b
    ensures |a| <= |b|
  {
    assert b == a + (b - a);
    DisjointUnion(a, b - a);
  }

  // ---------------------------------------------------------------------
  // Listing keys in order
  // ---------------------------------------------------------------------

  /** The keys of a sequence of nodes, as `getKey` reads them. */
  ghost function Keys(nodes: seq<Node>, ids: seq<int>): (r: seq<string>)
    requires ParentsInRange(nodes)
    ensures |r| == |ids|
  {
    if ids == [] then []
    else [if 0 <= ids[0] < |nodes| then KeyOf(nodes, ids[0]) else []] + Keys(nodes, ids[1..])
  }

  lemma {:induction false} KeysConcat(nodes: seq<Node>, a: seq<int>, b: seq<int>)
    requires ParentsInRange(nodes)
    ensures Keys(nodes, a + b) == Keys(nodes, a) + Keys(nodes, b)
    decreases |a|
  {
    if a != [] {
      assert (a + b)[1..] == a[1..] + b;
      KeysConcat(nodes, a[1..], b);
    } else {
      assert a + b == b;
    }
  }

  /** Entry `j` of a listing is the key of node `j` of the id sequence. */
  lemma {:induction false} KeysAt(nodes: seq<Node>, ids: seq<int>, j: int)
    requires ParentsInRange(nodes) && 0 <= j < |ids| && 0 <= ids[j] < |nodes|
    ensures Keys(nodes, ids)[j] == KeyOf(nodes, ids[j])
    decreases |ids|
  {
    if j > 0 {
      KeysAt(nodes, ids[1..], j - 1);
    }
  }

  /** The node `id` as a listing: itself when it holds data, else nothing. */
  ghost function Own(nodes: seq<Node>, id: int): (r: seq<int>)
    ensures |r| <= 1
  {
    if HasData(nodes, id) then [id] else []
  }

  /** The data nodes of the picture in order: the lower subtrie, the
      node itself, its eq subtrie, the higher subtrie. In an ordered
      picture this is alphabetical order of the keys (`InOrderSorted`). */
  ghost function InOrder(t: Tree, nodes: seq<Node>): seq<int> {
    match t
    case Nil => []
    case T(id, lo, eq, hi) =>
      InOrder(lo, nodes) + Own(nodes, id) + InOrder(eq, nodes) + InOrder(hi, nodes)
  }

  /** `InOrder` lists exactly the data nodes. */
  lemma {:induction false} InOrderIsData(t: Tree, nodes: seq<Node>)
    ensures forall q :: q in InOrder(t, nodes) <==> q in DataIds(t, nodes)
  {
    match t
    case Nil =>
    case T(id, lo, eq, hi) =>
      InOrderIsData(lo, nodes);
      InOrderIsData(eq, nodes);
      InOrderIsData(hi, nodes);
  }

  /** The nodes `sortKeysRecursion` appends to the listing `acc` from the
      root of `t` under the cap `cap` (-1 for none): the lower subtrie, then,
      unless the listing has reached the cap, the node and its eq and higher
      subtries. The cap is checked only after the lower subtrie. */
  ghost function SortIds(nodes: seq<Node>, t: Tree, cap: int, acc: seq<int>): seq<int> {
    match t
    case Nil => acc
    case T(id, lo, eq, hi) =>
      var a := SortIds(nodes, lo, cap, acc);
      if cap != -1 && |a| >= cap then a
      else SortIds(nodes, hi, cap, SortIds(nodes, eq, cap, a + Own(nodes, id)))
  }

  /** The subtrie at `x`, or the empty one for NIL. */
  function SubAt(t: Tree, x: int): (r: Tree)
    requires x == NIL || x in Ids(t)
    ensures Ids(r) <= Ids(t) && RootId(r) == x
  {
    if x == NIL then Nil else Sub(t, x)
  }

  /** Without a cap every data node is appended, in `InOrder` sequence. */
  lemma {:induction false} SortUncapped(nodes: seq<Node>, t: Tree, acc: seq<int>)
    ensures SortIds(nodes, t, -1, acc) == acc + InOrder(t, nodes)
  {
    match t
    case Nil =>
    case T(id, lo, eq, hi) =>
      var a := SortIds(nodes, lo, -1, acc);
      SortUncapped(nodes, lo, acc);
      var b := a + Own(nodes, id);
      SortUncapped(nodes, eq, b);
      var c := SortIds(nodes, eq, -1, b);
      SortUncapped(nodes, hi, c);
      Assoc4(acc, InOrder(lo, nodes), Own(nodes, id), InOrder(eq, nodes), InOrder(hi, nodes));
  }

  lemma Assoc4(z: seq<int>, l: seq<int>, m: seq<int>, e: seq<int>, h: seq<int>)
    ensures z + (l + m + e + h) == z + l + m + e + h
  {
  }

  lemma Regroup(z: seq<int>, l: seq<int>, m: seq<int>, e: seq<int>, h: seq<int>)
    ensures (z + l) + (m + e + h) == z + (l + m + e + h)
  {
  }

  /** The first `k` elements of `s` (all of them when `k >= |s|`). */
  function Take(s: seq<int>, k: int): (r: seq<int>)
    ensures |r| == if k <= 0 then 0 else if k < |s| then k else |s|
  {
    if k <= 0 then [] else if k < |s| then s[..k] else s
  }

  lemma TakeConcat(x: seq<int>, y: seq<int>, k: int)
    ensures Take(x + y, k) == if k <= |x| then Take(x, k) else x + Take(y, k - |x|)
  {
    if 0 < k <= |x| {
      assert (x + y)[..k] == x[..k];
    } else if |x| < k < |x| + |y| {
      assert (x + y)[..k] == x + y[..k - |x|];
    }
  }

  /** `s` cut to length `n`. */
  function Trunc(s: seq<int>, n: nat): (r: seq<int>)
    ensures |s| <= n ==> r == s
    ensures |s| > n ==> |r| == n
  {
    if |s| <= n then s else s[..n]
  }

  lemma TruncExt(x: seq<int>, y: seq<int>, n: nat)
    requires |x| >= n
    ensures Trunc(x + y, n) == Trunc(x, n)
  {
    assert (x + y)[..n] == x[..n];
  }

  lemma TakeTrunc(acc: seq<int>, s: seq<int>, cap: int)
    requires |acc| < cap
    ensures acc + Take(s, cap - |acc|) == Trunc(acc + s, cap)
  {
    if cap - |acc| < |s| {
      assert (acc + s)[..cap] == acc + s[..cap - |acc|];
    }
  }

  /** Under a cap the listing grows by the data nodes in `InOrder` sequence, cut so
      that it holds no more than `cap` nodes (a listing already at the cap
      stays as it is). */
  lemma {:induction false} SortCapped(nodes: seq<Node>, t: Tree, cap: int, acc: seq<int>)
    requires cap >= 0
    ensures SortIds(nodes, t, cap, acc) == acc + Take(InOrder(t, nodes), cap - |acc|)
  {
    match t
    case Nil =>
    case T(id, lo, eq, hi) =>
      var a := SortIds(nodes, lo, cap, acc);
      SortCapped(nodes, lo, cap, acc);
      if |a| < cap {
        var b := a + Own(nodes, id);
        var c := SortIds(nodes, eq, cap, b);
        SortCapped(nodes, eq, cap, b);
        SortCapped(nodes, hi, cap, c);
        SortStep(InOrder(lo, nodes), Own(nodes, id), InOrder(eq, nodes), InOrder(hi, nodes), cap, acc, a, b, c, SortIds(nodes, hi, cap, c));
      } else {
        TakeConcat(InOrder(lo, nodes), Own(nodes, id) + InOrder(eq, nodes) + InOrder(hi, nodes), cap - |acc|);
        Assoc4([], InOrder(lo, nodes), Own(nodes, id), InOrder(eq, nodes), InOrder(hi, nodes));
      }
  }

  /** One node of `SortCapped` when the lower subtrie leaves room. */
  lemma SortStep(L: seq<int>, m: seq<int>, E: seq<int>, H: seq<int>, cap: int, acc: seq<int>, a: seq<int>, b: seq<int>, c: seq<int>, d: seq<int>)
    requires |m| <= 1
    requires a == acc + Take(L, cap - |acc|) && |a| < cap
    requires b == a + m
    requires c == b + Take(E, cap - |b|)
    requires d == c + Take(H, cap - |c|)
    ensures d == acc + Take(L + m + E + H, cap - |acc|)
  {
    assert a == acc + L;
    TakeTrunc(acc, L + m + E + H, cap);
    if |b| < cap {
      TakeTrunc(b, E, cap);
    }
    if |c| < cap {
      TakeTrunc(c, H, cap);
    }
    TruncStep(acc + L, m, E, H, cap, b, c, d);
    Regroup(acc, L, m, E, H);
  }

  lemma TruncStep(a: seq<int>, m: seq<int>, E: seq<int>, H: seq<int>, cap: nat, b: seq<int>, c: seq<int>, d: seq<int>)
    requires |a| < cap && |m| <= 1 && b == a + m
    requires |b| >= cap ==> c == b
    requires |b| < cap ==> c == Trunc(b + E, cap)
    requires |c| >= cap ==> d == c
    requires |c| < cap ==> d == Trunc(c + H, cap)
    ensures d == Trunc(a + (m + E + H), cap)
  {
    assert a + (m + E + H) == b + E + H;
    if |b| >= cap {
      TruncExt(b, E + H, cap);
      assert b + E + H == b + (E + H);
    } else if |c| >= cap {
      TruncExt(b + E, H, cap);
    }
  }

  /** `sortKeysRecursion` appends data nodes of its subtrie only. */
  lemma {:induction false} SortMembers(nodes: seq<Node>, t: Tree, cap: int, acc: seq<int>)
    ensures forall q :: q in SortIds(nodes, t, cap, acc) ==> q in acc || q in DataIds(t, nodes)
  {
    match t
    case Nil =>
    case T(id, lo, eq, hi) =>
      var a := SortIds(nodes, lo, cap, acc);
      SortMembers(nodes, lo, cap, acc);
      var b := a + Own(nodes, id);
      SortMembers(nodes, eq, cap, b);
      SortMembers(nodes, hi, cap, SortIds(nodes, eq, cap, b));
  }

  /** What `sortKeys` lists from a fresh listing: the data nodes in key
      order, the first `cap` of them when `cap` is not -1. */
  lemma SortListing(nodes: seq<Node>, t: Tree, cap: int)
    requires cap == -1 || cap >= 0
    ensures cap == -1 ==> SortIds(nodes, t, cap, []) == InOrder(t, nodes)
    ensures cap >= 0 ==> SortIds(nodes, t, cap, []) == Take(InOrder(t, nodes), cap)
  {
    if cap == -1 {
      SortUncapped(nodes, t, []);
      assert [] + InOrder(t, nodes) == InOrder(t, nodes);
    } else {
      SortCapped(nodes, t, cap, []);
      assert [] + Take(InOrder(t, nodes), cap) == Take(InOrder(t, nodes), cap);
    }
  }

  /** The nodes `MatchPrefix` lists once it has found the prefix's node,
      the root of `ts`: that node when it holds data, then its eq subtrie in
      order. */
  ghost function PrefixIds(nodes: seq<Node>, ts: Tree, cap: int): seq<int>
    requires ts.T?
  {
    SortIds(nodes, ts.eq, cap, Own(nodes, ts.id))
  }

  /** What `MatchPrefix` lists: the prefix's node when it holds data, then
      the data nodes of its eq subtrie in `InOrder` sequence, cut to the cap (the
      prefix's own node is listed whatever the cap). */
  lemma PrefixListing(nodes: seq<Node>, ts: Tree, cap: int)
    requires ts.T? && (cap == -1 || cap >= 0)
    ensures cap == -1 ==> PrefixIds(nodes, ts, cap) == Own(nodes, ts.id) + InOrder(ts.eq, nodes)
    ensures cap >= 0 ==>
      PrefixIds(nodes, ts, cap) == Own(nodes, ts.id) + Take(InOrder(ts.eq, nodes), cap - |Own(nodes, ts.id)|)
  {
    if cap == -1 {
      SortUncapped(nodes, ts.eq, Own(nodes, ts.id));
    } else {
      SortCapped(nodes, ts.eq, cap, Own(nodes, ts.id));
    }
  }

  /** Every node `MatchPrefix` lists holds data, and with exact parents its
      key begins with the prefix, up to `fold`. */
  lemma PrefixSound(nodes: seq<Node>, fold: char -> char, prefix: string, t: Tree, cap: int, q: int)
    requires Shaped(t, nodes) && Distinct(t) && ParentsExact(t, NIL, nodes) && ParentsInRange(nodes)
    requires |prefix| > 0 && t.T?
    requires Walk(nodes, fold, prefix, 0, t.id, t) != NIL
    requires q in PrefixIds(nodes, Sub(t, Walk(nodes, fold, prefix, 0, t.id, t)), cap)
    ensures q in Ids(t) && HasData(nodes, q)
    ensures |prefix| <= |KeyOf(nodes, q)| && FoldEq(fold, KeyOf(nodes, q)[..|prefix|], prefix)
  {
    var s := Walk(nodes, fold, prefix, 0, t.id, t);
    WalkPath(nodes, fold, prefix, 0, t.id, t);
    assert prefix[0..] == prefix;
    ShapedSub(t, nodes, s);
    var head := Own(nodes, s);
    SortMembers(nodes, Sub(t, s).eq, cap, head);
    if q in head {
      PrefixHead(nodes, fold, prefix, t, s, q);
    } else {
      PrefixBelow(nodes, fold, prefix, t, s, q);
    }
  }

  /** `PrefixSound` for the prefix's own node. */
  lemma PrefixHead(nodes: seq<Node>, fold: char -> char, prefix: string, t: Tree, s: int, q: int)
    requires Shaped(t, nodes) && Distinct(t) && ParentsExact(t, NIL, nodes) && ParentsInRange(nodes)
    requires s in Ids(t) && FoldEq(fold, PathKey(t, nodes, s), prefix)
    requires q in Own(nodes, s)
    ensures q in Ids(t) && HasData(nodes, q)
    ensures |prefix| <= |KeyOf(nodes, q)| && FoldEq(fold, KeyOf(nodes, q)[..|prefix|], prefix)
  {
    KeyOfPath(nodes, t, s);
    assert KeyOf(nodes, q)[..|prefix|] == KeyOf(nodes, q);
  }

  /** `PrefixSound` for a data node below the eq kid of the prefix's node. */
  lemma PrefixBelow(nodes: seq<Node>, fold: char -> char, prefix: string, t: Tree, s: int, q: int)
    requires Shaped(t, nodes) && Distinct(t) && ParentsExact(t, NIL, nodes) && ParentsInRange(nodes)
    requires s in Ids(t) && FoldEq(fold, PathKey(t, nodes, s), prefix)
    requires Shaped(Sub(t, s), nodes) && q in DataIds(Sub(t, s).eq, nodes)
    ensures q in Ids(t) && HasData(nodes, q)
    ensures |prefix| <= |KeyOf(nodes, q)| && FoldEq(fold, KeyOf(nodes, q)[..|prefix|], prefix)
  {
    DataIdsIn(Sub(t, s).eq, nodes);
    PathExtends(t, nodes, s, q);
    KeyOfPath(nodes, t, q);
    KeyOfPath(nodes, t, s);
    assert KeyOf(nodes, q)[..|prefix|] == PathKey(t, nodes, s);
  }

  // ---------------------------------------------------------------------
  // The reading methods
  // ---------------------------------------------------------------------

  /** The arena invariant the reading methods rely on: the picture `whole`
      matches the kid links, has distinct nodes, and every parent link is
      exact. */
  ghost predicate ExactTrie(nodes: seq<Node>, whole: Tree) {
    Shaped(whole, nodes) && Distinct(whole) && ParentsExact(whole, NIL, nodes) && ParentsInRange(nodes)
  }

  /** `getKey`: the key of `node`, read by climbing parent links, a node
      adding its split character when the climb arrives from its eq kid.
      It is the key spelled by the path from the root. */
  method GetKey(nodes: seq<Node>, node: int, ghost whole: Tree) returns (key: string)
    requires ExactTrie(nodes, whole) && node in Ids(whole)
    ensures 0 <= node < |nodes| && key == KeyOf(nodes, node)
    ensures key == PathKey(whole, nodes, node)
  {
    DepthBound(whole, nodes, node);
    ParentStep(whole, NIL, nodes, node);
    var buffer := [nodes[node].splitchar];
    var cur := nodes[node].parent;
    var last := node;
    ghost var fuel: nat := |nodes|;
    while cur != NIL
      invariant -1 <= cur < |nodes| && 0 <= last < |nodes|
      invariant Up(nodes, cur, last, fuel) + Reverse(buffer) == KeyOf(nodes, node)
      invariant cur != NIL ==> cur in Ids(whole) && Depth(whole, cur) < fuel
      decreases fuel
    {
      ParentStep(whole, NIL, nodes, cur);
      ghost var own := if nodes[cur].eq == last then [nodes[cur].splitchar] else [];
      assert Up(nodes, cur, last, fuel) == Up(nodes, nodes[cur].parent, cur, fuel - 1) + own;
      if nodes[cur].eq == last {
        ReverseSnoc(buffer, nodes[cur].splitchar);
        buffer := buffer + [nodes[cur].splitchar];
      }
      last := cur;
      cur := nodes[cur].parent;
      fuel := fuel - 1;
    }
    key := Reverse(buffer);
    KeyOfPath(nodes, whole, node);
  }

  /** Appending the key of node `q` to a listing appends `q` to its ids. */
  lemma KeysSnoc(nodes: seq<Node>, ids: seq<int>, q: int)
    requires ParentsInRange(nodes) && 0 <= q < |nodes|
    ensures Keys(nodes, ids + [q]) == Keys(nodes, ids) + [KeyOf(nodes, q)]
  {
    KeysConcat(nodes, ids, [q]);
  }

  /** `sortKeysRecursion`: appends to `acc` the keys of the data nodes of
      the subtrie `t` at `cur` in `InOrder` sequence, stopping once `cap` keys (unless
      it is -1) are listed; the cap is looked at after each lower subtrie.
      The listing is that of `SortIds` from the ids behind `acc`. */
  method SortKeysRecursion(nodes: seq<Node>, cur: int, cap: int, acc: seq<string>,
                           ghost whole: Tree, ghost t: Tree, ghost accIds: seq<int>) returns (r: seq<string>)
    requires ExactTrie(nodes, whole) && Shaped(t, nodes) && RootId(t) == cur && Ids(t) <= Ids(whole)
    requires acc == Keys(nodes, accIds)
    ensures r == Keys(nodes, SortIds(nodes, t, cap, accIds))
    decreases t
  {
    if cur == NIL {
      return acc;
    }
    ghost var a := SortIds(nodes, t.lo, cap, accIds);
    var res := SortKeysRecursion(nodes, nodes[cur].lo, cap, acc, whole, t.lo, accIds);
    if cap != -1 && |res| >= cap {
      return res;
    }
    ghost var b := a + Own(nodes, cur);
    if nodes[cur].data.Some? {
      var k := GetKey(nodes, cur, whole);
      KeysSnoc(nodes, a, cur);
      res := res + [k];
    } else {
      assert b == a;
    }
    res := SortKeysRecursion(nodes, nodes[cur].eq, cap, res, whole, t.eq, b);
    r := SortKeysRecursion(nodes, nodes[cur].hi, cap, res, whole, t.hi, SortIds(nodes, t.eq, cap, b));
  }
}
