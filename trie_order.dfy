/**
 * The search-tree order of the ternary search trie. The level of a node is
 * what its lower and higher links reach; under `fold`, every split
 * character in the level below the lower kid compares before the node's
 * and every one in the level below the higher kid after it. The walk of
 * `getNode` relies on this order to find each key the trie holds, and
 * insertion and the pruning step keep it.
 */
module TrieOrder {

  import opened Wrappers
  import opened TrieShape
  import opened TrieSpec
  import opened TrieRead
  import opened TrieDelete
  import opened TriePrune

  // ---------------------------------------------------------------------
  // The order
  // ---------------------------------------------------------------------

  /** The nodes reached from the root of `t` through lower and higher
      links only. */
  function Level(t: Tree): (r: set<int>)
    ensures r <= Ids(t)
    ensures t.T? ==> t.id in r
  {
    match t
    case Nil => {}
    case T(id, lo, _, hi) => {id} + Level(lo) + Level(hi)
  }

  /** Every node of `ids` has a split character that folds before `c`. */
  ghost predicate Below(fold: char -> char, nodes: seq<Node>, ids: set<int>, c: char) {
    forall q :: q in ids ==> 0 <= q < |nodes| && fold(nodes[q].splitchar) < fold(c)
  }

  /** Every node of `ids` has a split character that folds after `c`. */
  ghost predicate Above(fold: char -> char, nodes: seq<Node>, ids: set<int>, c: char) {
    forall q :: q in ids ==> 0 <= q < |nodes| && fold(nodes[q].splitchar) > fold(c)
  }

  /** The ternary search tree order, at every node of the picture. */
  ghost predicate Ordered(fold: char -> char, t: Tree, nodes: seq<Node>) {
    match t
    case Nil => true
    case T(id, lo, eq, hi) =>
      0 <= id < |nodes|
      && Below(fold, nodes, Level(lo), nodes[id].splitchar)
      && Above(fold, nodes, Level(hi), nodes[id].splitchar)
      && Ordered(fold, lo, nodes) && Ordered(fold, eq, nodes) && Ordered(fold, hi, nodes)
  }

  /** The nodes `ids` exist in both arenas with the same split characters. */
  ghost predicate CharsOn(a: seq<Node>, b: seq<Node>, ids: set<int>) {
    forall q :: q in ids ==> 0 <= q < |a| && 0 <= q < |b| && b[q].splitchar == a[q].splitchar
  }

  /** The order reads only the split characters of the picture's nodes. */
  lemma {:induction false} OrderedFrame(fold: char -> char, t: Tree, a: seq<Node>, b: seq<Node>)
    requires Ordered(fold, t, a) && CharsOn(a, b, Ids(t))
    ensures Ordered(fold, t, b)
    decreases t
  {
    if t.T? {
      OrderedFrame(fold, t.lo, a, b);
      OrderedFrame(fold, t.eq, a, b);
      OrderedFrame(fold, t.hi, a, b);
    }
  }

  /** The subtree at any node is ordered too. */
  lemma {:induction false} OrderedSub(fold: char -> char, t: Tree, nodes: seq<Node>, x: int)
    requires Ordered(fold, t, nodes) && x in Ids(t)
    ensures Ordered(fold, Sub(t, x), nodes)
    decreases t
  {
    if t.id != x {
      if x in Ids(t.lo) {
        OrderedSub(fold, t.lo, nodes, x);
      } else if x in Ids(t.eq) {
        OrderedSub(fold, t.eq, nodes, x);
      } else {
        OrderedSub(fold, t.hi, nodes, x);
      }
    }
  }

  /** The node of the level of `t` on the way down to `q`. */
  function Lead(t: Tree, q: int): (r: int)
    requires q in Ids(t)
    ensures r in Level(t)
  {
    if t.id == q then q
    else if q in Ids(t.lo) then Lead(t.lo, q)
    else if q in Ids(t.eq) then t.id
    else Lead(t.hi, q)
  }

  /** The first character of the key of `q` is the split character of the
      level node above it. */
  lemma {:induction false} LeadChar(t: Tree, nodes: seq<Node>, q: int)
    requires Shaped(t, nodes) && q in Ids(t)
    ensures 0 <= Lead(t, q) < |nodes| && PathKey(t, nodes, q)[0] == nodes[Lead(t, q)].splitchar
    decreases t
  {
    ShapedIds(t, nodes);
    if t.id != q {
      if q in Ids(t.lo) {
        LeadChar(t.lo, nodes, q);
        assert PathKey(t, nodes, q) == PathKey(t.lo, nodes, q);
      } else if q in Ids(t.eq) {
        assert PathKey(t, nodes, q) == [nodes[t.id].splitchar] + PathKey(t.eq, nodes, q);
      } else {
        LeadChar(t.hi, nodes, q);
        assert PathKey(t, nodes, q) == PathKey(t.hi, nodes, q);
      }
    }
  }

  // ---------------------------------------------------------------------
  // Finding a key
  // ---------------------------------------------------------------------

  /** In an ordered picture the walk finds every node whose key equals the
      key walked, up to `fold`. */
  lemma {:induction false} WalkFinds(nodes: seq<Node>, fold: char -> char, key: string, i: nat, t: Tree, q: int)
    requires Shaped(t, nodes) && Distinct(t) && Ordered(fold, t, nodes) && i < |key|
    requires q in Ids(t) && FoldEq(fold, PathKey(t, nodes, q), key[i..])
    ensures Walk(nodes, fold, key, i, RootId(t), t) == q
    decreases t
  {
    ShapedIds(t, nodes);
    var c := nodes[t.id].splitchar;
    assert key[i..][0] == key[i];
    if t.id == q {
      assert PathKey(t, nodes, q) == [c];
    } else if q in Ids(t.lo) {
      assert PathKey(t, nodes, q) == PathKey(t.lo, nodes, q);
      LeadChar(t.lo, nodes, q);
      assert fold(key[i]) < fold(c);
      WalkFinds(nodes, fold, key, i, t.lo, q);
    } else if q in Ids(t.eq) {
      assert PathKey(t, nodes, q) == [c] + PathKey(t.eq, nodes, q);
      assert key[i..][1..] == key[i + 1..];
      WalkFinds(nodes, fold, key, i + 1, t.eq, q);
    } else {
      assert PathKey(t, nodes, q) == PathKey(t.hi, nodes, q);
      LeadChar(t.hi, nodes, q);
      assert fold(key[i]) > fold(c);
      WalkFinds(nodes, fold, key, i, t.hi, q);
    }
  }

  lemma FoldEqTrans(fold: char -> char, a: string, b: string, c: string)
    requires FoldEq(fold, a, b) && FoldEq(fold, b, c)
    ensures FoldEq(fold, a, c) && FoldEq(fold, c, a)
  {
  }

  /** `w` is the node whose key equals `k` up to `fold`, NIL when no node's
      key does. */
  ghost predicate KeyedBy(fold: char -> char, t: Tree, nodes: seq<Node>, k: string, w: int) {
    Shaped(t, nodes)
    && (w != NIL ==> w in Ids(t) && FoldEq(fold, PathKey(t, nodes, w), k))
    && forall q :: q in Ids(t) && FoldEq(fold, PathKey(t, nodes, q), k) ==> q == w
  }

  /** The walk from the root of an ordered picture lands on the node of the
      key, NIL when there is none; the empty key has no node. */
  lemma WalkKeyed(nodes: seq<Node>, fold: char -> char, key: string, t: Tree)
    requires Shaped(t, nodes) && Distinct(t) && Ordered(fold, t, nodes)
    ensures |key| == 0 || t.Nil? ==> KeyedBy(fold, t, nodes, key, NIL)
    ensures |key| > 0 && t.T? ==> KeyedBy(fold, t, nodes, key, Walk(nodes, fold, key, 0, t.id, t))
  {
    assert key[0..] == key;
    if |key| > 0 && t.T? {
      var w := Walk(nodes, fold, key, 0, t.id, t);
      if w != NIL {
        WalkPath(nodes, fold, key, 0, t.id, t);
      }
      forall q | q in Ids(t) && FoldEq(fold, PathKey(t, nodes, q), key)
        ensures q == w
      {
        WalkFinds(nodes, fold, key, 0, t, q);
      }
    }
  }

  /** The keyed node of a key is the keyed node of every key equal to it
      up to `fold`. */
  lemma KeyedByEq(fold: char -> char, t: Tree, nodes: seq<Node>, k: string, k': string, w: int)
    requires KeyedBy(fold, t, nodes, k, w) && FoldEq(fold, k, k')
    ensures KeyedBy(fold, t, nodes, k', w)
  {
    if w != NIL {
      FoldEqTrans(fold, PathKey(t, nodes, w), k, k');
    }
    forall q | q in Ids(t) && FoldEq(fold, PathKey(t, nodes, q), k')
      ensures q == w
    {
      FoldEqTrans(fold, k, k', PathKey(t, nodes, q));
    }
  }

  /** The data a key indexes, in terms of its keyed node. */
  function DataAt(nodes: seq<Node>, w: int): (r: Option<int>)
    ensures w == NIL ==> r == None
  {
    if 0 <= w < |nodes| then nodes[w].data else None
  }

  /** `v` is what `k` indexes: the data of every node whose key equals
      `k` up to `fold`, None when no node has such a key. */
  ghost predicate Indexes(fold: char -> char, t: Tree, nodes: seq<Node>, k: string, v: Option<int>) {
    Shaped(t, nodes)
    && (forall q :: q in Ids(t) && FoldEq(fold, PathKey(t, nodes, q), k) ==> v == DataAt(nodes, q))
    && ((forall q :: q in Ids(t) ==> !FoldEq(fold, PathKey(t, nodes, q), k)) ==> v == None)
  }

  /** Two tries index the same data under `k` when the nodes common to
      both keep their keys and, except `x` (none of whose keys is `k`),
      their data, and the nodes only one of them holds have no data. */
  lemma LookupFrame(fold: char -> char, ta: Tree, a: seq<Node>, wa: int, tb: Tree, b: seq<Node>, wb: int, k: string, x: int)
    requires Shaped(ta, a) && Shaped(tb, b)
    requires KeyedBy(fold, ta, a, k, wa) && KeyedBy(fold, tb, b, k, wb)
    requires forall q :: q in Ids(ta) && q in Ids(tb) ==> PathKey(tb, b, q) == PathKey(ta, a, q)
    requires forall q :: q in Ids(ta) && q in Ids(tb) && q != x ==> DataAt(b, q) == DataAt(a, q)
    requires forall q :: q in Ids(tb) && q !in Ids(ta) && q != x ==> DataAt(b, q) == None
    requires forall q :: q in Ids(ta) && q !in Ids(tb) && q != x ==> DataAt(a, q) == None
    requires x in Ids(ta) ==> !FoldEq(fold, PathKey(ta, a, x), k)
    requires x in Ids(tb) ==> !FoldEq(fold, PathKey(tb, b, x), k)
    ensures DataAt(a, wa) == DataAt(b, wb)
  {
    ShapedIds(ta, a);
    ShapedIds(tb, b);
  }

  // ---------------------------------------------------------------------
  // Insertion keeps the order and the keys
  // ---------------------------------------------------------------------

  /** A new chain hangs by eq links only, so it is ordered and its level is
      its first node. */
  lemma {:induction false} ChainOrdered(nodes: seq<Node>, fold: char -> char, key: string, i: nat, n: int)
    requires 0 <= n < |nodes| && i < |key|
    ensures |Chain(nodes, key, i, n).nodes| >= |nodes|
    ensures Ordered(fold, Chain(nodes, key, i, n).tree, Chain(nodes, key, i, n).nodes)
    ensures Level(Chain(nodes, key, i, n).tree) == {n}
    decreases |key| - i
  {
    if i + 1 < |key| {
      var m := |nodes|;
      var nodes1 := nodes[n := nodes[n].(eq := m)] + [NewNode(key[i + 1], n)];
      ChainOrdered(nodes1, fold, key, i + 1, m);
    }
  }

  /** The nodes of `t` keep their characters through an arena growth. */
  lemma GrownChars(nodes: seq<Node>, t: Tree, nodes': seq<Node>)
    requires ArenaGrown(nodes, t, nodes')
    ensures CharsOn(nodes, nodes', Ids(t))
  {
    assert forall q :: q in Ids(t) ==> SameAt(nodes, nodes', q);
  }

  /** Every level node of `x` is a level node of `t` or has character
      `c` in `R`. */
  ghost predicate LevelFrom(x: Tree, t: Tree, R: seq<Node>, c: char) {
    forall q :: q in Level(x) ==> q in Level(t) || (0 <= q < |R| && R[q].splitchar == c)
  }

  /** A set of nodes on one side of `c` stays there under a frame. */
  lemma SideFrame(fold: char -> char, nodes: seq<Node>, R: seq<Node>, ids: set<int>, c: char, below: bool)
    requires CharsOn(nodes, R, ids)
    requires below ==> Below(fold, nodes, ids, c)
    requires !below ==> Above(fold, nodes, ids, c)
    ensures below ==> Below(fold, R, ids, c)
    ensures !below ==> Above(fold, R, ids, c)
  {
  }

  /** A side that grew by nodes with character `ch` stays on its side of
      `c` when `ch` does. */
  lemma SideGrown(fold: char -> char, nodes: seq<Node>, R: seq<Node>, x: Tree, k: Tree, c: char, ch: char, below: bool)
    requires CharsOn(nodes, R, Level(k)) && LevelFrom(x, k, R, ch)
    requires below ==> Below(fold, nodes, Level(k), c) && fold(ch) < fold(c)
    requires !below ==> Above(fold, nodes, Level(k), c) && fold(ch) > fold(c)
    ensures below ==> Below(fold, R, Level(x), c)
    ensures !below ==> Above(fold, R, Level(x), c)
  {
  }

  /** A root with kid `s` replaced by an ordered `x`; for a lower or
      higher kid, the new level nodes have a character `ch` on the right
      side of the root's. */
  lemma StitchOrdered(fold: char -> char, nodes: seq<Node>, R: seq<Node>, t: Tree, s: Slot, x: Tree, ch: char)
    requires t.T? && Ordered(fold, t, nodes) && CharsOn(nodes, R, Ids(t)) && Ordered(fold, x, R)
    requires s != Eq ==> LevelFrom(x, KidTree(t, s), R, ch)
    requires s == Lo ==> fold(ch) < fold(nodes[t.id].splitchar)
    requires s == Hi ==> fold(ch) > fold(nodes[t.id].splitchar)
    ensures Ordered(fold, SetKidTree(t, s, x), R)
    ensures LevelFrom(SetKidTree(t, s, x), t, R, ch)
  {
    var c := nodes[t.id].splitchar;
    assert R[t.id].splitchar == c;
    assert Ids(t.lo) <= Ids(t) && Ids(t.eq) <= Ids(t) && Ids(t.hi) <= Ids(t);
    match s
    case Lo =>
      OrderedFrame(fold, t.eq, nodes, R);
      OrderedFrame(fold, t.hi, nodes, R);
      SideGrown(fold, nodes, R, x, t.lo, c, ch, true);
      SideFrame(fold, nodes, R, Level(t.hi), c, false);
      assert SetKidTree(t, s, x) == T(t.id, x, t.eq, t.hi);
    case Eq =>
      OrderedFrame(fold, t.lo, nodes, R);
      OrderedFrame(fold, t.hi, nodes, R);
      SideFrame(fold, nodes, R, Level(t.lo), c, true);
      SideFrame(fold, nodes, R, Level(t.hi), c, false);
      assert SetKidTree(t, s, x) == T(t.id, t.lo, x, t.hi);
    case Hi =>
      OrderedFrame(fold, t.lo, nodes, R);
      OrderedFrame(fold, t.eq, nodes, R);
      SideFrame(fold, nodes, R, Level(t.lo), c, true);
      SideGrown(fold, nodes, R, x, t.hi, c, ch, false);
      assert SetKidTree(t, s, x) == T(t.id, t.lo, t.eq, x);
  }

  /** A chain grown from a new kid: ordered, and its level is the new kid,
      which carries the key character. */
  lemma ChainKid(nodes: seq<Node>, fold: char -> char, key: string, j: nat, t: Tree, s: Slot)
    requires t.T? && 0 <= t.id < |nodes| && j < |key|
    ensures
      var m := |nodes|;
      var base := nodes[t.id := SetKid(nodes[t.id], s, m)] + [NewNode(key[j], t.id)];
      var rest := Chain(base, key, j, m);
      Ordered(fold, rest.tree, rest.nodes) && LevelFrom(rest.tree, KidTree(t, s), rest.nodes, key[j])
  {
    var m := |nodes|;
    var base := nodes[t.id := SetKid(nodes[t.id], s, m)] + [NewNode(key[j], t.id)];
    ChainOrdered(base, fold, key, j, m);
    ChainProps(base, fold, key, j, m);
  }

  /** Insertion from an existing node keeps the order; the level of the
      new subtree holds the old level and new nodes with the key
      character the walk was at. */
  lemma {:induction false} InsertFromOrdered(nodes: seq<Node>, fold: char -> char, key: string, i: nat, cur: int, t: Tree)
    requires Shaped(t, nodes) && RootId(t) == cur && cur != NIL && i < |key| && Distinct(t)
    requires Ordered(fold, t, nodes)
    ensures
      var r := InsertFrom(nodes, fold, key, i, cur, t);
      Ordered(fold, r.tree, r.nodes) && LevelFrom(r.tree, t, r.nodes, key[i])
    decreases |key| - i, t
  {
    var r := InsertFrom(nodes, fold, key, i, cur, t);
    var cmp := Compare(fold, key[i], nodes[cur].splitchar);
    var s := Direction(cmp);
    var j := if cmp == 0 then i + 1 else i;
    if !(cmp == 0 && i + 1 == |key|) {
      ShapedKids(t, nodes);
      InsertFromArena(nodes, fold, key, i, cur, t);
      GrownChars(nodes, t, r.nodes);
      var kt := KidTree(t, s);
      if Kid(nodes[cur], s) != NIL {
        assert Ordered(fold, kt, nodes) && Distinct(kt);
        InsertFromOrdered(nodes, fold, key, j, Kid(nodes[cur], s), kt);
      } else {
        ChainKid(nodes, fold, key, j, t, s);
      }
      StitchOrdered(fold, nodes, r.nodes, t, s, KidTree(r.tree, s), key[i]);
      SetKidSame(r.tree, s);
    }
  }

  /** `GetOrCreateNode` keeps the order. */
  lemma InsertKeepsOrder(nodes: seq<Node>, root: int, fold: char -> char, key: string, t: Tree)
    requires Shaped(t, nodes) && RootId(t) == root && |key| > 0 && Distinct(t) && Ordered(fold, t, nodes)
    ensures Ordered(fold, Insert(nodes, root, fold, key, t).tree, Insert(nodes, root, fold, key, t).nodes)
  {
    if root == NIL {
      ChainOrdered(nodes + [NewNode(key[0], NIL)], fold, key, 0, |nodes|);
    } else {
      InsertFromOrdered(nodes, fold, key, 0, root, t);
    }
  }

  /** `GetOrCreateNode` keeps the arena invariant and the order. */
  lemma InsertKeepsValid(nodes: seq<Node>, root: int, fold: char -> char, key: string, t: Tree)
    requires TrieOk(nodes, root, t, {}) && Ordered(fold, t, nodes) && |key| > 0
    ensures
      var r := Insert(nodes, root, fold, key, t);
      TrieOk(r.nodes, RootId(r.tree), r.tree, {}) && Ordered(fold, r.tree, r.nodes)
  {
    InsertKeepsTrie(nodes, root, fold, key, t, {});
    InsertKeepsOrder(nodes, root, fold, key, t);
  }

  /** `Put`: storing a value at the node `GetOrCreateNode` returns keeps
      the arena invariant and the order, and the key still walks there. */
  lemma StoreKeepsValid(nodes: seq<Node>, root: int, fold: char -> char, key: string, t: Tree, value: Option<int>)
    requires TrieOk(nodes, root, t, {}) && Ordered(fold, t, nodes) && |key| > 0
    ensures
      var ins := Insert(nodes, root, fold, key, t);
      var stored := ins.nodes[ins.landing := ins.nodes[ins.landing].(data := value)];
      TrieOk(stored, RootId(ins.tree), ins.tree, {}) && Ordered(fold, ins.tree, stored)
      && Walk(stored, fold, key, 0, RootId(ins.tree), ins.tree) == ins.landing
  {
    var ins := Insert(nodes, root, fold, key, t);
    var stored := ins.nodes[ins.landing := ins.nodes[ins.landing].(data := value)];
    InsertKeepsValid(nodes, root, fold, key, t);
    InsertProps(nodes, root, fold, key, t, {});
    SetDataKeepsTrie(ins.nodes, RootId(ins.tree), ins.tree, {}, ins.landing, value);
    WalkFrame(ins.nodes, stored, fold, key, 0, RootId(ins.tree), ins.tree);
    ShapedIds(ins.tree, ins.nodes);
    OrderedFrame(fold, ins.tree, ins.nodes, stored);
  }

  /** The key characters above a node read only the split characters of
      the picture's nodes. */
  lemma {:induction false} RelCharsOn(t: Tree, a: seq<Node>, b: seq<Node>, q: int)
    requires CharsOn(a, b, Ids(t)) && q in Ids(t)
    ensures RelPrefix(t, b, q) == RelPrefix(t, a, q)
    decreases t
  {
    if t.id != q {
      if q in Ids(t.lo) {
        RelCharsOn(t.lo, a, b, q);
      } else if q in Ids(t.eq) {
        RelCharsOn(t.eq, a, b, q);
      } else {
        RelCharsOn(t.hi, a, b, q);
      }
    }
  }

  /** Insertion from an existing node keeps the key above every node
      already there. */
  lemma {:induction false} InsertFromKeys(nodes: seq<Node>, fold: char -> char, key: string, i: nat, cur: int, t: Tree, q: int)
    requires Shaped(t, nodes) && RootId(t) == cur && cur != NIL && i < |key| && Distinct(t) && q in Ids(t)
    ensures
      var r := InsertFrom(nodes, fold, key, i, cur, t);
      q in Ids(r.tree) && RelPrefix(r.tree, r.nodes, q) == RelPrefix(t, nodes, q)
    decreases |key| - i, t
  {
    var r := InsertFrom(nodes, fold, key, i, cur, t);
    var cmp := Compare(fold, key[i], nodes[cur].splitchar);
    var s := Direction(cmp);
    var j := if cmp == 0 then i + 1 else i;
    InsertFromPicture(nodes, fold, key, i, cur, t);
    if !(cmp == 0 && i + 1 == |key|) && q != cur {
      ShapedKids(t, nodes);
      InsertFromArena(nodes, fold, key, i, cur, t);
      GrownChars(nodes, t, r.nodes);
      var k := if q in Ids(t.lo) then Lo else if q in Ids(t.eq) then Eq else Hi;
      assert q in Ids(KidTree(t, k));
      var kid := KidTree(r.tree, k);
      assert q in Ids(kid) by {
        if k == s {
          assert Ids(KidTree(t, s)) <= Ids(kid) by {
            if Kid(nodes[cur], s) != NIL {
              InsertFromPicture(nodes, fold, key, j, Kid(nodes[cur], s), KidTree(t, s));
            }
          }
        }
      }
      RelKid(r.tree, r.nodes, k, q);
      RelKid(t, nodes, k, q);
      assert SplitChar(r.nodes, cur) == SplitChar(nodes, cur);
      if k == s {
        InsertFromKeys(nodes, fold, key, j, Kid(nodes[cur], s), KidTree(t, s), q);
      } else {
        assert kid == KidTree(t, k);
        assert Ids(kid) <= Ids(t);
        RelCharsOn(kid, nodes, r.nodes, q);
      }
    }
  }

  /** `GetOrCreateNode` keeps the key of every node already in the trie. */
  lemma InsertKeepsKeys(nodes: seq<Node>, root: int, fold: char -> char, key: string, t: Tree)
    requires Shaped(t, nodes) && RootId(t) == root && |key| > 0 && Distinct(t)
    ensures
      var r := Insert(nodes, root, fold, key, t);
      Shaped(r.tree, r.nodes)
      && forall q :: q in Ids(t) ==> q in Ids(r.tree) && PathKey(r.tree, r.nodes, q) == PathKey(t, nodes, q)
  {
    var r := Insert(nodes, root, fold, key, t);
    if root != NIL {
      InsertFromPicture(nodes, fold, key, 0, root, t);
      InsertFromArena(nodes, fold, key, 0, root, t);
      GrownChars(nodes, t, r.nodes);
      forall q | q in Ids(t)
        ensures q in Ids(r.tree) && PathKey(r.tree, r.nodes, q) == PathKey(t, nodes, q)
      {
        InsertFromKeys(nodes, fold, key, 0, root, t, q);
      }
    } else {
      ChainProps(nodes + [NewNode(key[0], NIL)], fold, key, 0, |nodes|);
    }
  }

  /** Storing `value` at the landing node of an insertion: what every
      key equal to the inserted one up to `fold` indexes is `value`, and
      what every other key indexes is what it indexed before. */
  lemma PutLookup(nodes: seq<Node>, root: int, fold: char -> char, key: string, t: Tree, value: Option<int>,
                  k: string, wa: int, wb: int)
    requires TrieOk(nodes, root, t, {}) && |key| > 0
    requires
      var ins := Insert(nodes, root, fold, key, t);
      KeyedBy(fold, t, nodes, k, wa)
      && KeyedBy(fold, ins.tree, ins.nodes[ins.landing := ins.nodes[ins.landing].(data := value)], k, wb)
    ensures
      var ins := Insert(nodes, root, fold, key, t);
      DataAt(ins.nodes[ins.landing := ins.nodes[ins.landing].(data := value)], wb)
      == if FoldEq(fold, k, key) then value else DataAt(nodes, wa)
  {
    var ins := Insert(nodes, root, fold, key, t);
    var L := ins.landing;
    var n2 := ins.nodes[L := ins.nodes[L].(data := value)];
    InsertProps(nodes, root, fold, key, t, {});
    InsertKeepsKeys(nodes, root, fold, key, t);
    ShapedIds(ins.tree, ins.nodes);
    ShapedIds(t, nodes);
    assert CharsOn(ins.nodes, n2, Ids(ins.tree));
    forall q | q in Ids(ins.tree)
      ensures PathKey(ins.tree, n2, q) == PathKey(ins.tree, ins.nodes, q)
    {
      RelCharsOn(ins.tree, ins.nodes, n2, q);
    }
    assert key[0..] == key;
    WalkPath(ins.nodes, fold, key, 0, RootId(ins.tree), ins.tree);
    if FoldEq(fold, k, key) {
      FoldEqTrans(fold, PathKey(ins.tree, n2, L), key, k);
    } else {
      assert !FoldEq(fold, PathKey(ins.tree, n2, L), k) by {
        if FoldEq(fold, PathKey(ins.tree, n2, L), k) {
          FoldEqTrans(fold, k, PathKey(ins.tree, n2, L), key);
        }
      }
      assert forall q :: q in Ids(t) ==> SameAt(nodes, ins.nodes, q);
      LookupFrame(fold, t, nodes, wa, ins.tree, n2, wb, k, L);
    }
  }

  // ---------------------------------------------------------------------
  // The pruning step keeps the order
  // ---------------------------------------------------------------------

  /** The root of `o` with its `s` kid replaced by `a`, an ordered subtree
      whose level is that kid's and `mv`'s, all of `mv`'s level sitting on
      the `s` side of `c` and all of `o`'s on the other. */
  lemma HangOrdered(fold: char -> char, o: Tree, s: Slot, a: Tree, mv: Tree, nodes: seq<Node>, c: char)
    requires o.T? && s != Eq && Ordered(fold, o, nodes) && Ordered(fold, a, nodes)
    requires Level(a) == Level(KidTree(o, s)) + Level(mv)
    requires s == Hi ==> Below(fold, nodes, Level(o), c) && Above(fold, nodes, Level(mv), c)
    requires s == Lo ==> Above(fold, nodes, Level(o), c) && Below(fold, nodes, Level(mv), c)
    ensures Ordered(fold, SetKidTree(o, s, a), nodes)
    ensures Level(SetKidTree(o, s, a)) == Level(o) + Level(mv)
  {
    var oc := nodes[o.id].splitchar;
    assert o.id in Level(o);
    if s == Hi {
      assert SetKidTree(o, s, a) == T(o.id, o.lo, o.eq, a);
      assert Above(fold, nodes, Level(a), oc);
    } else {
      assert SetKidTree(o, s, a) == T(o.id, a, o.eq, o.hi);
      assert Below(fold, nodes, Level(a), oc);
    }
  }

  /** Hanging `mv` below the end of the lower or higher chain of `o`, all
      of whose level sits on the other side of `c` from `mv`'s, keeps the
      order and joins the two levels. */
  lemma {:induction false} AttachOrdered(fold: char -> char, o: Tree, s: Slot, mv: Tree, nodes: seq<Node>, c: char)
    requires o.T? && s != Eq && Ordered(fold, o, nodes) && Ordered(fold, mv, nodes)
    requires s == Hi ==> Below(fold, nodes, Level(o), c) && Above(fold, nodes, Level(mv), c)
    requires s == Lo ==> Above(fold, nodes, Level(o), c) && Below(fold, nodes, Level(mv), c)
    ensures Ordered(fold, Attach(o, s, mv), nodes)
    ensures Level(Attach(o, s, mv)) == Level(o) + Level(mv)
    decreases o
  {
    var k := KidTree(o, s);
    if k.T? {
      assert Ordered(fold, k, nodes) && Level(k) <= Level(o) by {
        assert k == o.lo || k == o.hi;
      }
      AttachOrdered(fold, k, s, mv, nodes, c);
      HangOrdered(fold, o, s, Attach(k, s, mv), mv, nodes, c);
    } else {
      HangOrdered(fold, o, s, mv, mv, nodes, c);
    }
  }

  /** The replacement of a node without an eq kid is ordered, within the
      node's own lower and higher levels. */
  lemma ReplacementOrdered(fold: char -> char, nodes: seq<Node>, X: Tree)
    requires X.T? && Shaped(X, nodes) && X.eq.Nil? && Ordered(fold, X, nodes)
    ensures Ordered(fold, Replacement(nodes, X), nodes)
    ensures Level(Replacement(nodes, X)) <= Level(X)
  {
    if X.lo.T? && X.hi.T? {
      ShapedRoot(X.lo, nodes);
      ShapedRoot(X.hi, nodes);
      var m := MovingSlot(nodes, X.id);
      AttachOrdered(fold, KidTree(X, Opposite(m)), m, KidTree(X, m), nodes, nodes[X.id].splitchar);
    }
  }

  /** Putting an ordered subtree with no wider a level in place of the
      subtree at `x` keeps the order, and the level of the whole. */
  lemma {:induction false} ReplaceOrdered(fold: char -> char, t: Tree, x: int, R: Tree, nodes: seq<Node>)
    requires Distinct(t) && x in Ids(t) && Ordered(fold, t, nodes) && Ordered(fold, R, nodes)
    requires Level(R) <= Level(Sub(t, x))
    ensures Ordered(fold, Replace(t, x, R), nodes)
    ensures Level(Replace(t, x, R)) <= Level(t)
    decreases t
  {
    if t.id != x {
      var j := if x in Ids(t.lo) then Lo else if x in Ids(t.eq) then Eq else Hi;
      OutsideKid(t, x, j);
      DistinctKid(t, j);
      ReplaceOrdered(fold, KidTree(t, j), x, R, nodes);
      match j
      case Lo =>
        ReplaceAbsent(t.eq, x, R);
        ReplaceAbsent(t.hi, x, R);
        assert Replace(t, x, R) == T(t.id, Replace(t.lo, x, R), t.eq, t.hi);
      case Eq =>
        ReplaceAbsent(t.lo, x, R);
        ReplaceAbsent(t.hi, x, R);
        assert Replace(t, x, R) == T(t.id, t.lo, Replace(t.eq, x, R), t.hi);
      case Hi =>
        ReplaceAbsent(t.lo, x, R);
        ReplaceAbsent(t.eq, x, R);
        assert Replace(t, x, R) == T(t.id, t.lo, t.eq, Replace(t.hi, x, R));
    }
  }

  /** The pruning step keeps the order. */
  lemma PrunedOrdered(fold: char -> char, nodes: seq<Node>, t: Tree, x: int)
    requires ExactTrie(nodes, t) && (x == NIL || x in Ids(t)) && Ordered(fold, t, nodes)
    ensures -1 <= x < |nodes| && (x != NIL ==> NodeInRange(|nodes|, nodes[x]))
    ensures Ordered(fold, PrunedShape(nodes, t, x), PruneStep(nodes, RootId(t), x).nodes)
  {
    PruneStepKeeps(nodes, t, x);
    if x != NIL && Prunable(nodes, x) {
      NodeFacts(t, nodes, x);
      var X := Sub(t, x);
      OrderedSub(fold, t, nodes, x);
      ReplacementOrdered(fold, nodes, X);
      ReplaceOrdered(fold, t, x, Replacement(nodes, X), nodes);
    }
    var r := PruneStep(nodes, RootId(t), x);
    ShapedIds(t, nodes);
    OrderedFrame(fold, PrunedShape(nodes, t, x), nodes, r.nodes);
  }
}
