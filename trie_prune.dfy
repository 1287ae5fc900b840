/**
 * Deletion in the ternary search trie, corrected: the pruning step of
 * `deleteNodeRecursion` with the two-kid case fixed (the other kid itself
 * takes the deleted node's place, and the moving kid's parent link follows
 * it) and a root without a parent replaced in place instead of being
 * dereferenced.
 *
 * `PruneStep` is the step on the arena. On the picture it replaces the
 * subtree of the deleted node by `Replacement`, and the lemmas here show
 * that it keeps the arena invariant, removes exactly that node, and keeps
 * every other node's data and key.
 */
module TriePrune {

  import opened Wrappers
  import opened Cardinality
  import opened TrieShape
  import opened TrieSpec
  import opened TrieRead
  import opened TrieDelete

  // ---------------------------------------------------------------------
  // Hanging a subtree at the end of a chain
  // ---------------------------------------------------------------------

  /** The node at the end of the `s` chain from the root of `t`. */
  function Extreme(t: Tree, s: Slot): (r: int)
    requires t.T?
    ensures r in Ids(t)
    decreases t
  {
    if KidTree(t, s).Nil? then t.id else Extreme(KidTree(t, s), s)
  }

  /** `t` with `m` hung below the end of its `s` chain. */
  function Attach(t: Tree, s: Slot, m: Tree): (r: Tree)
    requires t.T?
    ensures r.T? && r.id == t.id
    decreases t
  {
    if KidTree(t, s).Nil? then SetKidTree(t, s, m) else SetKidTree(t, s, Attach(KidTree(t, s), s, m))
  }

  lemma {:induction false} AttachIds(t: Tree, s: Slot, m: Tree)
    requires t.T?
    ensures Ids(Attach(t, s, m)) == Ids(t) + Ids(m)
    decreases t
  {
    SetKidIds(t, s, m);
    if KidTree(t, s).T? {
      AttachIds(KidTree(t, s), s, m);
      SetKidIds(t, s, Attach(KidTree(t, s), s, m));
    }
  }

  lemma {:induction false} AttachDistinct(t: Tree, s: Slot, m: Tree)
    requires t.T? && Distinct(t) && Distinct(m) && Ids(t) !! Ids(m)
    ensures Distinct(Attach(t, s, m))
    decreases t
  {
    SetKidIds(t, s, m);
    if KidTree(t, s).Nil? {
      DistinctSetKid(t, s, m);
    } else {
      var k := KidTree(t, s);
      assert Distinct(k) by { assert k == t.lo || k == t.eq || k == t.hi; }
      AttachDistinct(k, s, m);
      AttachIds(k, s, m);
      DistinctSetKid(t, s, Attach(k, s, m));
    }
  }

  // ---------------------------------------------------------------------
  // The replacement of a deleted node
  // ---------------------------------------------------------------------

  /** What takes the place of the deleted node `x` (which has no eq kid):
      nothing, its only kid, or, with two kids, the other kid with the
      moving kid hung at the end of its moving chain. */
  ghost function Replacement(nodes: seq<Node>, x: Tree): (r: Tree)
    requires x.T? && Shaped(x, nodes)
  {
    if x.lo.Nil? then x.hi
    else if x.hi.Nil? then x.lo
    else
      ShapedRoot(x.lo, nodes);
      ShapedRoot(x.hi, nodes);
      var m := MovingSlot(nodes, x.id);
      Attach(KidTree(x, Opposite(m)), m, KidTree(x, m))
  }

  /** The other side kid. */
  function Opposite(s: Slot): (r: Slot)
    ensures s == Lo ==> r == Hi
    ensures s == Hi ==> r == Lo
  {
    if s == Hi then Lo else Hi
  }

  lemma ShapedRoot(t: Tree, nodes: seq<Node>)
    requires t.T? && Shaped(t, nodes)
    ensures 0 <= t.id < |nodes|
  {
  }

  lemma ReplacementIds(nodes: seq<Node>, x: Tree)
    requires x.T? && Shaped(x, nodes) && Distinct(x) && x.eq.Nil?
    ensures Distinct(Replacement(nodes, x))
    ensures Ids(Replacement(nodes, x)) == Ids(x.lo) + Ids(x.hi)
    ensures Ids(x) == {x.id} + Ids(Replacement(nodes, x)) && x.id !in Ids(Replacement(nodes, x))
  {
    if x.lo.T? && x.hi.T? {
      ShapedRoot(x.lo, nodes);
      ShapedRoot(x.hi, nodes);
      var m := MovingSlot(nodes, x.id);
      AttachIds(KidTree(x, Opposite(m)), m, KidTree(x, m));
      AttachDistinct(KidTree(x, Opposite(m)), m, KidTree(x, m));
    }
  }

  /** The picture after the step deletes node `x`. */
  ghost function Pruned(nodes: seq<Node>, t: Tree, x: int): Tree
    requires Shaped(t, nodes) && x in Ids(t)
  {
    ShapedSub(t, nodes, x);
    Replace(t, x, Replacement(nodes, Sub(t, x)))
  }

  // ---------------------------------------------------------------------
  // Replacing a subtree by an arbitrary picture
  // ---------------------------------------------------------------------

  /** Replacing the subtree at `x` by any picture `s`. */
  lemma {:induction false} ReplaceAnyIds(t: Tree, x: int, s: Tree)
    requires Distinct(t) && x in Ids(t)
    ensures Ids(Replace(t, x, s)) == Outside(t, x) + Ids(s)
    decreases t
  {
    if t.id != x {
      var k := if x in Ids(t.lo) then Lo else if x in Ids(t.eq) then Eq else Hi;
      var kid := KidTree(t, k);
      OutsideSplit(t, x, k);
      ReplaceAnyIds(kid, x, s);
      ReplaceAbsentKids(t, x, s, k);
      SetKidIds(t, k, Replace(kid, x, s));
    }
  }

  /** The nodes outside `x`, when `x` lies below kid `k` of the root. */
  lemma OutsideSplit(t: Tree, x: int, k: Slot)
    requires Distinct(t) && t.T? && x in Ids(KidTree(t, k))
    ensures t.id != x
    ensures Outside(t, x) == {t.id} + Outside(KidTree(t, k), x) + OtherIds(t, k)
  {
    OutsideKid(t, x, k);
    SetKidIds(t, k, KidTree(t, k));
    DistinctKid(t, k);
  }

  lemma {:induction false} ReplaceAnyDistinct(t: Tree, x: int, s: Tree)
    requires Distinct(t) && x in Ids(t) && Distinct(s) && Ids(s) !! Outside(t, x)
    ensures Distinct(Replace(t, x, s))
    decreases t
  {
    if t.id != x {
      var k := if x in Ids(t.lo) then Lo else if x in Ids(t.eq) then Eq else Hi;
      OutsideKid(t, x, k);
      ReplaceAnyIds(KidTree(t, k), x, s);
      ReplaceAnyDistinct(KidTree(t, k), x, s);
      ReplaceAbsentKids(t, x, s, k);
      SetKidIds(t, k, KidTree(t, k));
      DistinctSetKid(t, k, Replace(KidTree(t, k), x, s));
    }
  }

  /** Replacing the subtree at `x` below its parent `p` is replacing the
      subtree at `p` by `p` with its kid slot `k` changed. */
  lemma {:induction false} ReplaceViaParent(t: Tree, p: int, k: Slot, x: int, s: Tree)
    requires Distinct(t) && p in Ids(t) && KidTree(Sub(t, p), k).T? && KidTree(Sub(t, p), k).id == x
    ensures Replace(t, x, s) == Replace(t, p, SetKidTree(Sub(t, p), k, s))
    decreases t
  {
    if t.id == p {
      var kid := KidTree(t, k);
      assert x in Ids(kid);
      ReplaceAbsentKids(t, x, s, k);
      assert Replace(kid, x, s) == s;
    } else {
      var j := if p in Ids(t.lo) then Lo else if p in Ids(t.eq) then Eq else Hi;
      OutsideKid(t, p, j);
      assert Distinct(KidTree(t, j));
      assert x in Ids(Sub(t, p)) && Ids(Sub(t, p)) <= Ids(KidTree(t, j));
      assert x != t.id;
      ReplaceAbsentKids(t, x, s, j);
      ReplaceAbsentKids(t, p, SetKidTree(Sub(t, p), k, s), j);
      ReplaceViaParent(KidTree(t, j), p, k, x, s);
    }
  }

  // ---------------------------------------------------------------------
  // Keys along the picture
  // ---------------------------------------------------------------------

  /** Two arenas of one size with the same split character at every index. */
  ghost predicate SameChars(nodes: seq<Node>, nodes': seq<Node>) {
    |nodes'| == |nodes| && forall i :: 0 <= i < |nodes| ==> nodes'[i].splitchar == nodes[i].splitchar
  }

  /** Two arenas of one size with the same split character and data at
      every index. */
  ghost predicate SameContent(nodes: seq<Node>, nodes': seq<Node>) {
    SameChars(nodes, nodes') && forall i :: 0 <= i < |nodes| ==> nodes'[i].data == nodes[i].data
  }

  lemma {:induction false} RelChars(t: Tree, nodes: seq<Node>, nodes': seq<Node>, q: int)
    requires SameChars(nodes, nodes') && q in Ids(t)
    ensures RelPrefix(t, nodes', q) == RelPrefix(t, nodes, q)
    decreases t
  {
    if t.id != q {
      if q in Ids(t.lo) {
        RelChars(t.lo, nodes, nodes', q);
      } else if q in Ids(t.eq) {
        RelChars(t.eq, nodes, nodes', q);
        assert SplitChar(nodes', t.id) == SplitChar(nodes, t.id);
      } else {
        RelChars(t.hi, nodes, nodes', q);
      }
    }
  }

  /** The key above a node inside the subtree at `x` runs through `x`. */
  lemma {:induction false} RelSub(t: Tree, nodes: seq<Node>, x: int, q: int)
    requires Distinct(t) && x in Ids(t) && q in Ids(Sub(t, x))
    ensures q in Ids(t)
    ensures RelPrefix(t, nodes, q) == RelPrefix(t, nodes, x) + RelPrefix(Sub(t, x), nodes, q)
    decreases t
  {
    if t.id != x {
      var k := if x in Ids(t.lo) then t.lo else if x in Ids(t.eq) then t.eq else t.hi;
      assert Distinct(k) && Ids(Sub(t, x)) <= Ids(k);
      RelSub(k, nodes, x, q);
      assert q != t.id;
    }
  }

  /** Replacing the subtree at `x` leaves the key above a node outside it. */
  lemma {:induction false} RelOutside(t: Tree, nodes: seq<Node>, x: int, s: Tree, q: int)
    requires Distinct(t) && x in Ids(t) && q in Outside(t, x) && q !in Ids(s) && Distinct(Replace(t, x, s))
    ensures q in Ids(Replace(t, x, s))
    ensures RelPrefix(Replace(t, x, s), nodes, q) == RelPrefix(t, nodes, q)
    decreases t
  {
    ReplaceAnyIds(t, x, s);
    assert t.id != x;
    var j := if x in Ids(t.lo) then Lo else if x in Ids(t.eq) then Eq else Hi;
    OutsideKid(t, x, j);
    ReplaceAbsentKids(t, x, s, j);
    if q != t.id {
      var kq := if q in Ids(t.lo) then Lo else if q in Ids(t.eq) then Eq else Hi;
      var r := Replace(t, x, s);
      if kq == j {
        DistinctKid(t, j);
        DistinctKid(r, j);
        RelOutside(KidTree(t, j), nodes, x, s, q);
        RelKid(r, nodes, j, q);
        RelKid(t, nodes, j, q);
      } else {
        assert KidTree(r, kq) == KidTree(t, kq);
        RelKid(r, nodes, kq, q);
        RelKid(t, nodes, kq, q);
      }
    }
  }

  /** Replacing the subtree at `x` by `s` puts the key above `x` in front
      of the keys above the nodes of `s`. */
  lemma {:induction false} RelInside(t: Tree, nodes: seq<Node>, x: int, s: Tree, q: int)
    requires Distinct(t) && x in Ids(t) && q in Ids(s) && Distinct(Replace(t, x, s))
    ensures q in Ids(Replace(t, x, s))
    ensures RelPrefix(Replace(t, x, s), nodes, q) == RelPrefix(t, nodes, x) + RelPrefix(s, nodes, q)
    decreases t
  {
    if t.id != x {
      var j := if x in Ids(t.lo) then Lo else if x in Ids(t.eq) then Eq else Hi;
      ReplaceAbsentKids(t, x, s, j);
      var r := Replace(t, x, s);
      DistinctKid(t, j);
      DistinctKid(r, j);
      var kid := KidTree(t, j);
      assert r.T? && r.id == t.id && KidTree(r, j) == Replace(kid, x, s);
      RelInside(kid, nodes, x, s, q);
      RelKid(r, nodes, j, q);
      RelKid(t, nodes, j, x);
      var own := if j == Eq then SplitChar(nodes, t.id) else [];
      assert RelPrefix(r, nodes, q) == own + (RelPrefix(kid, nodes, x) + RelPrefix(s, nodes, q));
      assert RelPrefix(t, nodes, x) == own + RelPrefix(kid, nodes, x);
      assert own + (RelPrefix(kid, nodes, x) + RelPrefix(s, nodes, q))
        == (own + RelPrefix(kid, nodes, x)) + RelPrefix(s, nodes, q);
    }
  }

  lemma DistinctKid(t: Tree, k: Slot)
    requires t.T? && Distinct(t)
    ensures Distinct(KidTree(t, k)) && t.id !in Ids(KidTree(t, k))
  {
    match k
    case Lo =>
    case Eq =>
    case Hi =>
  }

  /** The key above a node in kid `k` of the root. */
  lemma RelKid(t: Tree, nodes: seq<Node>, k: Slot, q: int)
    requires Distinct(t) && t.T? && q in Ids(KidTree(t, k))
    ensures q in Ids(t) && q != t.id
    ensures RelPrefix(t, nodes, q) == (if k == Eq then SplitChar(nodes, t.id) else []) + RelPrefix(KidTree(t, k), nodes, q)
  {
    match k
    case Lo =>
    case Eq =>
    case Hi =>
  }

  /** Hanging along a lower or higher chain adds no key characters. */
  lemma {:induction false} RelAttach(t: Tree, s: Slot, m: Tree, nodes: seq<Node>, q: int)
    requires t.T? && s != Eq && Distinct(Attach(t, s, m)) && q in Ids(t) + Ids(m)
    ensures q in Ids(Attach(t, s, m))
    ensures q in Ids(t) ==> RelPrefix(Attach(t, s, m), nodes, q) == RelPrefix(t, nodes, q)
    ensures q !in Ids(t) ==> RelPrefix(Attach(t, s, m), nodes, q) == RelPrefix(m, nodes, q)
    decreases t
  {
    AttachIds(t, s, m);
    var a := Attach(t, s, m);
    var k := KidTree(t, s);
    var ak := if k.Nil? then m else Attach(k, s, m);
    assert a == SetKidTree(t, s, ak);
    SetKidIds(t, s, ak);
    SetKidIds(t, s, k);
    if k.T? {
      AttachIds(k, s, m);
    }
    if q != t.id {
      assert Distinct(ak) by { assert ak == a.lo || ak == a.eq || ak == a.hi; }
      if q in Ids(ak) {
        RelKid(a, nodes, s, q);
        if k.T? {
          RelAttach(k, s, m, nodes, q);
          if q in Ids(k) {
            assert Distinct(t) by { AttachIdsDistinct(t, s, m); }
            RelKid(t, nodes, s, q);
          }
        }
      } else {
        var kq := if q in Ids(t.lo) then Lo else if q in Ids(t.eq) then Eq else Hi;
        assert kq != s;
        assert KidTree(a, kq) == KidTree(t, kq);
        RelKid(a, nodes, kq, q);
        assert Distinct(t) by { AttachIdsDistinct(t, s, m); }
        RelKid(t, nodes, kq, q);
      }
    }
  }

  /** The picture a chain is hung onto is itself distinct. */
  lemma {:induction false} AttachIdsDistinct(t: Tree, s: Slot, m: Tree)
    requires t.T? && Distinct(Attach(t, s, m))
    ensures Distinct(t) && Ids(t) !! Ids(m)
    decreases t
  {
    var k := KidTree(t, s);
    var ak := if k.Nil? then m else Attach(k, s, m);
    var a := Attach(t, s, m);
    SetKidIds(t, s, ak);
    SetKidIds(t, s, k);
    assert Distinct(ak) by { assert ak == a.lo || ak == a.eq || ak == a.hi; }
    if k.T? {
      AttachIdsDistinct(k, s, m);
      AttachIds(k, s, m);
    }
    assert SetKidTree(a, s, k) == t;
    DistinctSetKid(a, s, k);
  }

  // ---------------------------------------------------------------------
  // Parents in the picture
  // ---------------------------------------------------------------------

  /** The kid slot of its parent in the picture that holds `x`. */
  function ParentSlot(t: Tree, x: int): Slot
    requires x in Ids(t) && t.id != x
  {
    var j := if x in Ids(t.lo) then Lo else if x in Ids(t.eq) then Eq else Hi;
    if RootId(KidTree(t, j)) == x then j else ParentSlot(KidTree(t, j), x)
  }

  /** Below its root, `x` hangs in slot `ParentSlot` of its parent. */
  lemma {:induction false} TreeParentKid(t: Tree, x: int, pid: int)
    requires Distinct(t) && x in Ids(t) && t.id != x
    ensures TreeParent(t, x, pid) in Ids(t)
    ensures KidTree(Sub(t, TreeParent(t, x, pid)), ParentSlot(t, x)) == Sub(t, x)
    decreases t
  {
    var j := if x in Ids(t.lo) then Lo else if x in Ids(t.eq) then Eq else Hi;
    var kid := KidTree(t, j);
    OutsideKid(t, x, j);
    if kid.id != x {
      DistinctKid(t, j);
      TreeParentKid(kid, x, t.id);
      var p := TreeParent(kid, x, t.id);
      SubKid(t, j, p);
      SubKid(t, j, x);
    }
  }

  lemma SubKid(t: Tree, j: Slot, q: int)
    requires Distinct(t) && t.T? && q in Ids(KidTree(t, j))
    ensures Sub(t, q) == Sub(KidTree(t, j), q)
  {
    OutsideKid(t, q, j);
  }

  /** Exact parent links name each node's parent in the picture. */
  lemma {:induction false} ExactTreeParent(t: Tree, pid: int, nodes: seq<Node>, x: int)
    requires ParentsExact(t, pid, nodes) && x in Ids(t)
    ensures 0 <= x < |nodes| && nodes[x].parent == TreeParent(t, x, pid)
    decreases t
  {
    if t.id != x {
      if x in Ids(t.lo) {
        ExactTreeParent(t.lo, t.id, nodes, x);
      } else if x in Ids(t.eq) {
        ExactTreeParent(t.eq, t.id, nodes, x);
      } else {
        ExactTreeParent(t.hi, t.id, nodes, x);
      }
    }
  }

  /** Only the root is ever its own picture's parentless node. */
  lemma RootHasNoParent(t: Tree, nodes: seq<Node>, x: int)
    requires Shaped(t, nodes) && Distinct(t) && x in Ids(t)
    ensures TreeParent(t, x, NIL) == NIL <==> t.id == x
  {
    if t.id != x {
      TreeParentKid(t, x, NIL);
      ShapedIds(t, nodes);
    }
  }

  /** A picture whose root's parent link is moved to `pid'`. */
  lemma ExactReroot(t: Tree, pid: int, pid': int, a: seq<Node>, b: seq<Node>)
    requires t.T? && Distinct(t) && ParentsExact(t, pid, a)
    requires ParentsKept(a, b, Ids(t) - {t.id}) && 0 <= t.id < |b| && b[t.id].parent == pid'
    ensures ParentsExact(t, pid', b)
  {
    ParentsKeptSubset(a, b, Ids(t) - {t.id}, Ids(t.lo));
    ParentsKeptSubset(a, b, Ids(t) - {t.id}, Ids(t.eq));
    ParentsKeptSubset(a, b, Ids(t) - {t.id}, Ids(t.hi));
    ExactFrame(t.lo, t.id, a, b);
    ExactFrame(t.eq, t.id, a, b);
    ExactFrame(t.hi, t.id, a, b);
  }

  lemma ExactSetKid(t: Tree, s: Slot, x: Tree, pid: int, nodes: seq<Node>)
    requires t.T? && ParentsExact(t, pid, nodes) && ParentsExact(x, t.id, nodes)
    ensures ParentsExact(SetKidTree(t, s, x), pid, nodes)
  {
    match s
    case Lo =>
    case Eq =>
    case Hi =>
  }

  lemma ExactKid(t: Tree, s: Slot, pid: int, nodes: seq<Node>)
    requires t.T? && ParentsExact(t, pid, nodes)
    ensures ParentsExact(KidTree(t, s), t.id, nodes)
  {
    match s
    case Lo =>
    case Eq =>
    case Hi =>
  }

  /** Hanging keeps exact parents once the hung picture's root names the
      chain's end. */
  lemma {:induction false} AttachParents(t: Tree, s: Slot, m: Tree, pid: int, nodes: seq<Node>)
    requires t.T? && ParentsExact(t, pid, nodes) && ParentsExact(m, Extreme(t, s), nodes)
    ensures ParentsExact(Attach(t, s, m), pid, nodes)
    decreases t
  {
    var k := KidTree(t, s);
    if k.Nil? {
      ExactSetKid(t, s, m, pid, nodes);
    } else {
      ExactKid(t, s, pid, nodes);
      AttachParents(k, s, m, t.id, nodes);
      ExactSetKid(t, s, Attach(k, s, m), pid, nodes);
    }
  }

  lemma ShapedSetKid(t: Tree, s: Slot, x: Tree, a: seq<Node>, b: seq<Node>)
    requires t.T? && Shaped(t, a) && Shaped(x, b) && 0 <= t.id < |b|
    requires SameLinks(b[t.id], SetKid(a[t.id], s, RootId(x)))
    requires LinksKept(a, b, OtherIds(t, s))
    ensures Shaped(SetKidTree(t, s, x), b)
  {
    SetKidIds(t, s, x);
    match s
    case Lo =>
      LinksKeptSubset(a, b, OtherIds(t, s), Ids(t.eq));
      LinksKeptSubset(a, b, OtherIds(t, s), Ids(t.hi));
      ShapedFrame(t.eq, a, b);
      ShapedFrame(t.hi, a, b);
    case Eq =>
      LinksKeptSubset(a, b, OtherIds(t, s), Ids(t.lo));
      LinksKeptSubset(a, b, OtherIds(t, s), Ids(t.hi));
      ShapedFrame(t.lo, a, b);
      ShapedFrame(t.hi, a, b);
    case Hi =>
      LinksKeptSubset(a, b, OtherIds(t, s), Ids(t.lo));
      LinksKeptSubset(a, b, OtherIds(t, s), Ids(t.eq));
      ShapedFrame(t.lo, a, b);
      ShapedFrame(t.eq, a, b);
  }

  /** Hanging keeps the shape once the chain's end links to the hung
      picture's root and every other node keeps its links. */
  lemma {:induction false} AttachShaped(t: Tree, s: Slot, m: Tree, a: seq<Node>, b: seq<Node>)
    requires t.T? && Distinct(t) && Shaped(t, a) && Shaped(m, b)
    requires 0 <= Extreme(t, s) < |a| && 0 <= Extreme(t, s) < |b| && SameLinks(b[Extreme(t, s)], SetKid(a[Extreme(t, s)], s, RootId(m)))
    requires LinksKept(a, b, Ids(t) - {Extreme(t, s)})
    ensures Shaped(Attach(t, s, m), b)
    decreases t
  {
    var k := KidTree(t, s);
    SetKidIds(t, s, k);
    if k.Nil? {
      LinksKeptSubset(a, b, Ids(t) - {Extreme(t, s)}, OtherIds(t, s));
      ShapedSetKid(t, s, m, a, b);
    } else {
      DistinctKid(t, s);
      ShapedKids(t, a);
      LinksKeptSubset(a, b, Ids(t) - {Extreme(t, s)}, Ids(k) - {Extreme(k, s)});
      AttachShaped(k, s, m, a, b);
      LinksKeptSubset(a, b, Ids(t) - {Extreme(t, s)}, OtherIds(t, s));
      assert t.id in Ids(t) - {Extreme(t, s)};
      assert SameLinks(b[t.id], a[t.id]);
      ShapedSetKid(t, s, Attach(k, s, m), a, b);
    }
  }

  /** Following a chain through the arena ends where the picture's chain
      ends, given enough fuel. */
  lemma {:induction false} ChainEndExtreme(nodes: seq<Node>, t: Tree, s: Slot, fuel: nat)
    requires t.T? && Shaped(t, nodes) && Size(t) <= fuel
    ensures 0 <= t.id < |nodes| && ChainEnd(nodes, t.id, s, fuel) == Extreme(t, s)
    decreases t
  {
    var k := KidTree(t, s);
    RootKid(t, nodes, s);
    if k.T? {
      ChainEndExtreme(nodes, k, s, fuel - 1);
      assert ChainEnd(nodes, t.id, s, fuel) == ChainEnd(nodes, k.id, s, fuel - 1);
      assert Extreme(t, s) == Extreme(k, s);
    } else {
      assert Kid(nodes[t.id], s) == NIL;
      assert Extreme(t, s) == t.id;
    }
  }

  /** The `s` link of the root of `t` names the root of its `s` subtree,
      which is smaller and shaped too. */
  lemma RootKid(t: Tree, nodes: seq<Node>, s: Slot)
    requires t.T? && Shaped(t, nodes)
    ensures 0 <= t.id < |nodes| && Kid(nodes[t.id], s) == RootId(KidTree(t, s))
    ensures Shaped(KidTree(t, s), nodes) && Size(KidTree(t, s)) < Size(t)
    ensures KidTree(t, s).T? ==> 0 <= KidTree(t, s).id < |nodes|
  {
    match s
    case Lo =>
    case Eq =>
    case Hi =>
  }

  /** A picture of distinct arena nodes is no larger than the arena. */
  lemma SizeBound(t: Tree, nodes: seq<Node>)
    requires Shaped(t, nodes) && Distinct(t)
    ensures Size(t) <= |nodes|
  {
    ShapedIds(t, nodes);
    RangeCard(Ids(t), |nodes|);
    DistinctSize(t);
  }

  // ---------------------------------------------------------------------
  // The corrected step on the arena
  // ---------------------------------------------------------------------

  /** The two-kid case: the moving kid is hung at the end of the other
      kid's moving chain, its parent link following, and the deleted node's
      side links are cleared. */
  function Hang(nodes: seq<Node>, cur: int, m: Slot): (r: seq<Node>)
    requires 0 <= cur < |nodes| && 0 <= nodes[cur].lo < |nodes| && 0 <= nodes[cur].hi < |nodes| && m != Eq
    ensures |r| == |nodes|
  {
    var other := Kid(nodes[cur], Opposite(m));
    var mover := Kid(nodes[cur], m);
    var target := ChainEnd(nodes, other, m, |nodes|);
    ClearSides(SetParent(SetLink(nodes, target, m, mover), mover, target), cur)
  }

  /** The node that takes the deleted node's place: NIL, its only side kid,
      or with two kids the one that does not move. */
  function Top(nodes: seq<Node>, cur: int): (r: int)
    requires 0 <= cur < |nodes| && NodeInRange(|nodes|, nodes[cur])
    ensures -1 <= r < |nodes|
  {
    var lo, hi := nodes[cur].lo, nodes[cur].hi;
    if lo == NIL then hi
    else if hi == NIL then lo
    else Kid(nodes[cur], Opposite(MovingSlot(nodes, cur)))
  }

  /** The arena once the replacement hangs together and its root names the
      deleted node's parent. */
  function Lifted(nodes: seq<Node>, cur: int): (r: seq<Node>)
    requires 0 <= cur < |nodes| && NodeInRange(|nodes|, nodes[cur])
    ensures |r| == |nodes|
  {
    var hung := if nodes[cur].lo == NIL || nodes[cur].hi == NIL then nodes else Hang(nodes, cur, MovingSlot(nodes, cur));
    var top := Top(nodes, cur);
    if top == NIL then hung else SetParent(hung, top, nodes[cur].parent)
  }

  /** A node the step removes: one with neither an eq kid nor data. */
  predicate Prunable(nodes: seq<Node>, cur: int)
    requires 0 <= cur < |nodes|
  {
    nodes[cur].eq == NIL && nodes[cur].data.None?
  }

  /** `deleteNodeRecursion`, corrected. A node with an eq kid or data is
      kept and the walk stops. Otherwise the node without a parent is the
      root and is replaced as the root; a node whose parent has no slot
      holding it drops the whole trie as in the source; else the parent's
      slot is given the replacement and the walk goes on at the parent. */
  function PruneStep(nodes: seq<Node>, root: int, cur: int): (r: Deleted)
    requires -1 <= cur < |nodes| && (cur != NIL ==> NodeInRange(|nodes|, nodes[cur]))
    ensures r.Deleted? && |r.nodes| == |nodes| && -1 <= r.next < |nodes|
  {
    if cur == NIL || !Prunable(nodes, cur) then Deleted(nodes, root, NIL)
    else
      var p := nodes[cur].parent;
      var top := Top(nodes, cur);
      var lifted := Lifted(nodes, cur);
      if p == NIL then Deleted(lifted, top, NIL)
      else
        match ChildSlot(nodes[p], cur)
        case None => Deleted(nodes, NIL, NIL)
        case Some(k) => Deleted(SetLink(lifted, p, k, top), root, p)
  }

  // ---------------------------------------------------------------------
  // What the arena functions change
  // ---------------------------------------------------------------------

  /** `b` differs from `a` only in the kid links of `links` and the parent
      links of `parents`. */
  ghost predicate Changed(a: seq<Node>, b: seq<Node>, links: set<int>, parents: set<int>) {
    |b| == |a|
    && forall i :: 0 <= i < |a| ==>
         b[i].splitchar == a[i].splitchar && b[i].data == a[i].data
         && (i !in links ==> b[i].lo == a[i].lo && b[i].eq == a[i].eq && b[i].hi == a[i].hi)
         && (i !in parents ==> b[i].parent == a[i].parent)
  }

  lemma ChangedTrans(a: seq<Node>, b: seq<Node>, c: seq<Node>, l1: set<int>, p1: set<int>, l2: set<int>, p2: set<int>)
    requires Changed(a, b, l1, p1) && Changed(b, c, l2, p2)
    ensures Changed(a, c, l1 + l2, p1 + p2)
  {
  }

  lemma ChangedWiden(a: seq<Node>, b: seq<Node>, l1: set<int>, p1: set<int>, l2: set<int>, p2: set<int>)
    requires Changed(a, b, l1, p1) && l1 <= l2 && p1 <= p2
    ensures Changed(a, b, l2, p2)
  {
  }

  lemma ChangedSetLink(nodes: seq<Node>, n: int, s: Slot, k: int)
    requires 0 <= n < |nodes|
    ensures Changed(nodes, SetLink(nodes, n, s, k), {n}, {})
    ensures SetLink(nodes, n, s, k)[n] == SetKid(nodes[n], s, k)
  {
  }

  lemma ChangedSetParent(nodes: seq<Node>, n: int, p: int)
    requires 0 <= n < |nodes|
    ensures Changed(nodes, SetParent(nodes, n, p), {}, {n})
    ensures SetParent(nodes, n, p)[n].parent == p && SameLinks(SetParent(nodes, n, p)[n], nodes[n])
    ensures ParentsInRange(nodes) && -1 <= p < |nodes| ==> ParentsInRange(SetParent(nodes, n, p))
  {
  }

  lemma ChangedClearSides(nodes: seq<Node>, n: int)
    requires 0 <= n < |nodes|
    ensures Changed(nodes, ClearSides(nodes, n), {n}, {})
  {
  }

  /** Nodes of a picture away from the changes keep their links. */
  lemma ChangedKept(a: seq<Node>, b: seq<Node>, links: set<int>, parents: set<int>, t: Tree, ids: set<int>)
    requires Changed(a, b, links, parents) && Shaped(t, a) && ids <= Ids(t)
    ensures ids !! links ==> LinksKept(a, b, ids)
    ensures ids !! parents ==> ParentsKept(a, b, ids)
  {
    ShapedIds(t, a);
  }

  lemma ChangedRange(a: seq<Node>, b: seq<Node>, links: set<int>)
    requires Changed(a, b, links, {}) && ParentsInRange(a)
    ensures ParentsInRange(b)
  {
  }

  lemma ChangedContent(a: seq<Node>, b: seq<Node>, links: set<int>, parents: set<int>)
    requires Changed(a, b, links, parents)
    ensures SameContent(a, b)
  {
  }

  // ---------------------------------------------------------------------
  // The step keeps the invariant
  // ---------------------------------------------------------------------

  lemma {:induction false} DistinctSub(t: Tree, x: int)
    requires Distinct(t) && x in Ids(t)
    ensures Distinct(Sub(t, x))
    decreases t
  {
    if t.id != x {
      var j := if x in Ids(t.lo) then Lo else if x in Ids(t.eq) then Eq else Hi;
      DistinctKid(t, j);
      DistinctSub(KidTree(t, j), x);
    }
  }

  lemma {:induction false} ExactSub(t: Tree, pid: int, nodes: seq<Node>, x: int)
    requires ParentsExact(t, pid, nodes) && x in Ids(t)
    ensures ParentsExact(Sub(t, x), TreeParent(t, x, pid), nodes)
    decreases t
  {
    if t.id != x {
      if x in Ids(t.lo) {
        ExactSub(t.lo, t.id, nodes, x);
      } else if x in Ids(t.eq) {
        ExactSub(t.eq, t.id, nodes, x);
      } else {
        ExactSub(t.hi, t.id, nodes, x);
      }
    }
  }

  /** What the arena says about a node of the picture. */
  lemma NodeFacts(t: Tree, nodes: seq<Node>, x: int)
    requires ExactTrie(nodes, t) && x in Ids(t)
    ensures 0 <= x < |nodes| && NodeInRange(|nodes|, nodes[x])
    ensures Sub(t, x).T? && Sub(t, x).id == x && Shaped(Sub(t, x), nodes) && Distinct(Sub(t, x))
    ensures nodes[x].parent == TreeParent(t, x, NIL)
    ensures ParentsExact(Sub(t, x), nodes[x].parent, nodes)
    ensures nodes[x].lo == NIL <==> Sub(t, x).lo.Nil?
    ensures nodes[x].eq == NIL <==> Sub(t, x).eq.Nil?
    ensures nodes[x].hi == NIL <==> Sub(t, x).hi.Nil?
    ensures forall k :: Kid(nodes[x], k) == RootId(KidTree(Sub(t, x), k))
  {
    var X := Sub(t, x);
    ShapedSub(t, nodes, x);
    DistinctSub(t, x);
    ExactTreeParent(t, NIL, nodes, x);
    ExactSub(t, NIL, nodes, x);
    ShapedKids(X, nodes);
    if X.lo.T? { ShapedRoot(X.lo, nodes); }
    if X.eq.T? { ShapedRoot(X.eq, nodes); }
    if X.hi.T? { ShapedRoot(X.hi, nodes); }
  }

  /** The arena once the replacement is assembled: only nodes of the
      deleted node's subtree changed, and the replacement hangs from the
      deleted node's parent. */
  ghost predicate LiftOk(nodes: seq<Node>, lifted: seq<Node>, x: Tree, r: Tree, p: int, top: int) {
    Changed(nodes, lifted, Ids(x), Ids(x)) && Shaped(r, lifted) && ParentsExact(r, p, lifted)
    && ParentsInRange(lifted) && RootId(r) == top
  }

  /** The replaced subtree: a node of the picture with its links, its
      parent `p` and exact parents below it. */
  ghost predicate Doomed(nodes: seq<Node>, x: Tree, p: int) {
    x.T? && Shaped(x, nodes) && Distinct(x) && ParentsExact(x, p, nodes) && ParentsInRange(nodes)
    && -1 <= p < |nodes| && 0 <= x.id < |nodes| && NodeInRange(|nodes|, nodes[x.id])
  }

  lemma HangFacts(nodes: seq<Node>, x: Tree, p: int, m: Slot, o: Tree, mv: Tree)
    requires Doomed(nodes, x, p) && m != Eq
    requires o == KidTree(x, Opposite(m)) && mv == KidTree(x, m) && o.T? && mv.T?
    ensures 0 <= nodes[x.id].lo < |nodes| && 0 <= nodes[x.id].hi < |nodes|
    ensures Kid(nodes[x.id], Opposite(m)) == o.id && Kid(nodes[x.id], m) == mv.id
    ensures Extreme(o, m) in Ids(o) && 0 <= Extreme(o, m) < |nodes| && 0 <= mv.id < |nodes|
    ensures Ids(o) !! Ids(mv) && x.id !in Ids(o) && x.id !in Ids(mv) && Distinct(o) && Distinct(mv)
    ensures Ids(o) <= Ids(x) && Ids(mv) <= Ids(x)
    ensures Changed(nodes, Hang(nodes, x.id, m), {Extreme(o, m), x.id}, {mv.id})
    ensures SameLinks(Hang(nodes, x.id, m)[Extreme(o, m)], SetKid(nodes[Extreme(o, m)], m, mv.id))
    ensures Hang(nodes, x.id, m)[mv.id].parent == Extreme(o, m) && ParentsInRange(Hang(nodes, x.id, m))
  {
    assert Ids(o) !! Ids(mv) && x.id !in Ids(o) && x.id !in Ids(mv) && Distinct(o) && Distinct(mv) by {
      if m == Hi { assert o == x.lo && mv == x.hi; } else { assert o == x.hi && mv == x.lo; }
    }
    SetKidIds(x, m, mv);
    SetKidIds(x, Opposite(m), o);
    ShapedKids(x, nodes);
    ShapedRoot(o, nodes);
    ShapedRoot(mv, nodes);
    SizeBound(o, nodes);
    ChainEndExtreme(nodes, o, m, |nodes|);
    ShapedIds(o, nodes);
    HangArena(nodes, x.id, m, Extreme(o, m), mv.id);
  }

  /** The three updates of the two-kid case, node by node. */
  lemma HangArena(nodes: seq<Node>, cur: int, m: Slot, e: int, mv: int)
    requires 0 <= cur < |nodes| && 0 <= e < |nodes| && 0 <= mv < |nodes| && e != cur && mv != e
    requires ParentsInRange(nodes)
    ensures
      var h := ClearSides(SetParent(SetLink(nodes, e, m, mv), mv, e), cur);
      Changed(nodes, h, {e, cur}, {mv}) && SameLinks(h[e], SetKid(nodes[e], m, mv))
      && h[mv].parent == e && ParentsInRange(h)
  {
    var n1 := SetLink(nodes, e, m, mv);
    ChangedSetLink(nodes, e, m, mv);
    ChangedRange(nodes, n1, {e});
    var n2 := SetParent(n1, mv, e);
    ChangedSetParent(n1, mv, e);
    var h := ClearSides(n2, cur);
    ChangedClearSides(n2, cur);
    ChangedRange(n2, h, {cur});
    ChangedTrans(nodes, n1, n2, {e}, {}, {}, {mv});
    ChangedTrans(nodes, n2, h, {e}, {mv}, {cur}, {});
    assert {e} + {} + {cur} == {e, cur} && {} + {mv} + {} == {mv};
  }

  lemma LiftTwo(nodes: seq<Node>, x: Tree, p: int)
    requires Doomed(nodes, x, p) && x.lo.T? && x.hi.T? && nodes[x.id].parent == p
    ensures LiftOk(nodes, Lifted(nodes, x.id), x, Replacement(nodes, x), p, Top(nodes, x.id))
  {
    ShapedKids(x, nodes);
    ShapedRoot(x.lo, nodes);
    ShapedRoot(x.hi, nodes);
    var m := MovingSlot(nodes, x.id);
    var o := KidTree(x, Opposite(m));
    var mv := KidTree(x, m);
    HangFacts(nodes, x, p, m, o, mv);
    var e := Extreme(o, m);
    var h := Hang(nodes, x.id, m);
    assert Top(nodes, x.id) == o.id;
    var lf := SetParent(h, o.id, p);
    assert Lifted(nodes, x.id) == lf;
    ChangedSetParent(h, o.id, p);
    ChangedTrans(nodes, h, lf, {e, x.id}, {mv.id}, {}, {o.id});
    assert {e, x.id} + {} == {e, x.id} && {mv.id} + {o.id} == {mv.id, o.id};
    LiftTwoShaped(nodes, lf, x, m, o, mv);
    LiftTwoParents(nodes, lf, x, p, m, o, mv);
    ChangedWiden(nodes, lf, {e, x.id}, {mv.id, o.id}, Ids(x), Ids(x));
  }

  lemma LiftTwoShaped(nodes: seq<Node>, lf: seq<Node>, x: Tree, m: Slot, o: Tree, mv: Tree)
    requires x.T? && Shaped(x, nodes) && o == KidTree(x, Opposite(m)) && mv == KidTree(x, m) && o.T? && mv.T?
    requires Ids(o) !! Ids(mv) && x.id !in Ids(o) && x.id !in Ids(mv) && Distinct(o) && Ids(o) <= Ids(x) && Ids(mv) <= Ids(x)
    requires Changed(nodes, lf, {Extreme(o, m), x.id}, {mv.id, o.id}) && 0 <= Extreme(o, m) < |nodes|
    requires SameLinks(lf[Extreme(o, m)], SetKid(nodes[Extreme(o, m)], m, mv.id))
    ensures Shaped(Attach(o, m, mv), lf)
  {
    var e := Extreme(o, m);
    ShapedKids(x, nodes);
    ChangedKept(nodes, lf, {e, x.id}, {mv.id, o.id}, x, Ids(mv));
    ShapedFrame(mv, nodes, lf);
    ChangedKept(nodes, lf, {e, x.id}, {mv.id, o.id}, x, Ids(o) - {e});
    AttachShaped(o, m, mv, nodes, lf);
  }

  lemma LiftTwoParents(nodes: seq<Node>, lf: seq<Node>, x: Tree, p: int, m: Slot, o: Tree, mv: Tree)
    requires x.T? && Shaped(x, nodes) && ParentsExact(x, p, nodes)
    requires o == KidTree(x, Opposite(m)) && mv == KidTree(x, m) && o.T? && mv.T?
    requires Ids(o) !! Ids(mv) && Distinct(o) && Distinct(mv) && Ids(o) <= Ids(x) && Ids(mv) <= Ids(x)
    requires Changed(nodes, lf, {Extreme(o, m), x.id}, {mv.id, o.id})
    requires 0 <= o.id < |lf| && lf[o.id].parent == p && 0 <= mv.id < |lf| && lf[mv.id].parent == Extreme(o, m)
    ensures ParentsExact(Attach(o, m, mv), p, lf)
  {
    ExactKid(x, Opposite(m), p, nodes);
    ExactKid(x, m, p, nodes);
    ChangedKept(nodes, lf, {Extreme(o, m), x.id}, {mv.id, o.id}, x, Ids(mv) - {mv.id});
    ExactReroot(mv, x.id, Extreme(o, m), nodes, lf);
    ChangedKept(nodes, lf, {Extreme(o, m), x.id}, {mv.id, o.id}, x, Ids(o) - {o.id});
    ExactReroot(o, x.id, p, nodes, lf);
    AttachParents(o, m, mv, p, lf);
  }

  lemma LiftOne(nodes: seq<Node>, x: Tree, p: int)
    requires Doomed(nodes, x, p) && (x.lo.Nil? != x.hi.Nil?) && nodes[x.id].parent == p
    ensures LiftOk(nodes, Lifted(nodes, x.id), x, Replacement(nodes, x), p, Top(nodes, x.id))
  {
    var j := if x.lo.T? then Lo else Hi;
    var k := KidTree(x, j);
    ShapedKids(x, nodes);
    ShapedRoot(k, nodes);
    assert Replacement(nodes, x) == k && Top(nodes, x.id) == k.id;
    DistinctKid(x, j);
    ExactKid(x, j, p, nodes);
    var lf := SetParent(nodes, k.id, p);
    assert Lifted(nodes, x.id) == lf;
    ChangedSetParent(nodes, k.id, p);
    SetKidIds(x, j, k);
    ChangedKept(nodes, lf, {}, {k.id}, x, Ids(k));
    ShapedFrame(k, nodes, lf);
    ChangedKept(nodes, lf, {}, {k.id}, x, Ids(k) - {k.id});
    ExactReroot(k, x.id, p, nodes, lf);
    ChangedWiden(nodes, lf, {}, {k.id}, Ids(x), Ids(x));
  }

  lemma LiftFacts(nodes: seq<Node>, t: Tree, x: int)
    requires ExactTrie(nodes, t) && x in Ids(t)
    ensures 0 <= x < |nodes| && NodeInRange(|nodes|, nodes[x]) && Shaped(Sub(t, x), nodes)
    ensures LiftOk(nodes, Lifted(nodes, x), Sub(t, x), Replacement(nodes, Sub(t, x)), nodes[x].parent, Top(nodes, x))
  {
    NodeFacts(t, nodes, x);
    var X := Sub(t, x);
    var p := nodes[x].parent;
    assert Doomed(nodes, X, p);
    if X.lo.T? && X.hi.T? {
      LiftTwo(nodes, X, p);
    } else if X.lo.T? || X.hi.T? {
      LiftOne(nodes, X, p);
    } else {
      assert Lifted(nodes, x) == nodes && Replacement(nodes, X) == Nil;
    }
  }

  /** With exact links, the parent's slot holding `x` is the one the
      picture hangs it from. */
  lemma SlotUnique(t: Tree, nodes: seq<Node>, k: Slot, x: int)
    requires t.T? && Distinct(t) && Shaped(t, nodes) && KidTree(t, k).T? && KidTree(t, k).id == x
    ensures ChildSlot(nodes[t.id], x) == Some(k)
  {
    ShapedKids(t, nodes);
    ShapedIds(t, nodes);
    assert x >= 0;
    SetKidIds(t, k, KidTree(t, k));
    forall k' | k' != k
      ensures Kid(nodes[t.id], k') != x
    {
      assert x !in Ids(KidTree(t, k'));
    }
  }

  /** The parent's slot set to the replacement's root: the picture with the
      subtree at `x` replaced, and every invariant back in place. */
  lemma AssembleInner(nodes: seq<Node>, lf: seq<Node>, t: Tree, x: int)
    requires ExactTrie(nodes, t) && x in Ids(t) && t.id != x && Shaped(Sub(t, x), nodes) && Sub(t, x).eq.Nil?
    requires LiftOk(nodes, lf, Sub(t, x), Replacement(nodes, Sub(t, x)), TreeParent(t, x, NIL), RootId(Replacement(nodes, Sub(t, x))))
    ensures TreeParent(t, x, NIL) in Ids(t) - {x} && 0 <= TreeParent(t, x, NIL) < |nodes|
    ensures ChildSlot(nodes[TreeParent(t, x, NIL)], x) == Some(ParentSlot(t, x))
    ensures
      var r := Replacement(nodes, Sub(t, x));
      ExactTrie(SetLink(lf, TreeParent(t, x, NIL), ParentSlot(t, x), RootId(r)), Replace(t, x, r))
  {
    var X := Sub(t, x);
    var r := Replacement(nodes, X);
    var p := TreeParent(t, x, NIL);
    var k := ParentSlot(t, x);
    TreeParentKid(t, x, NIL);
    var P := Sub(t, p);
    ShapedSub(t, nodes, p);
    DistinctSub(t, p);
    DistinctSub(t, x);
    ShapedIds(t, nodes);
    SetKidIds(P, k, X);
    assert p != x;
    SlotUnique(P, nodes, k, x);
    ReplacementIds(nodes, X);
    var n2 := SetLink(lf, p, k, RootId(r));
    ChangedSetLink(lf, p, k, RootId(r));
    ChangedTrans(nodes, lf, n2, Ids(X), Ids(X), {p}, {});
    ChangedRange(lf, n2, {p});
    AssembleShaped(nodes, lf, n2, t, x, p, k);
    AssembleParents(nodes, lf, n2, t, x, p, k);
    ReplaceAnyDistinct(t, x, r);
    OutsideIds(t, x);
  }

  lemma AssembleShaped(nodes: seq<Node>, lf: seq<Node>, n2: seq<Node>, t: Tree, x: int, p: int, k: Slot)
    requires Shaped(t, nodes) && Distinct(t) && x in Ids(t) && p in Ids(t) && p != x
    requires Shaped(Sub(t, x), nodes) && Sub(t, x).eq.Nil? && KidTree(Sub(t, p), k) == Sub(t, x)
    requires Shaped(Replacement(nodes, Sub(t, x)), lf) && Distinct(Sub(t, p))
    requires Changed(nodes, lf, Ids(Sub(t, x)), Ids(Sub(t, x)))
    requires 0 <= p < |lf| && n2 == SetLink(lf, p, k, RootId(Replacement(nodes, Sub(t, x))))
    ensures Shaped(Replace(t, x, Replacement(nodes, Sub(t, x))), n2)
  {
    var X := Sub(t, x);
    var r := Replacement(nodes, X);
    var P := Sub(t, p);
    ReplacementIds(nodes, X);
    ShapedSub(t, nodes, p);
    SetKidIds(P, k, X);
    ChangedSetLink(lf, p, k, RootId(r));
    ShapedIds(r, lf);
    ChangedKept(lf, n2, {p}, {}, r, Ids(r));
    ShapedFrame(r, lf, n2);
    ChangedTrans(nodes, lf, n2, Ids(X), Ids(X), {p}, {});
    ChangedKept(nodes, n2, Ids(X) + {p}, Ids(X), P, OtherIds(P, k));
    ShapedSetKid(P, k, r, nodes, n2);
    OutsideIds(t, p);
    ChangedKept(nodes, n2, Ids(X) + {p}, Ids(X), t, Outside(t, p));
    ReplaceShaped(t, p, SetKidTree(P, k, r), nodes, n2);
    ReplaceViaParent(t, p, k, x, r);
  }

  lemma AssembleParents(nodes: seq<Node>, lf: seq<Node>, n2: seq<Node>, t: Tree, x: int, p: int, k: Slot)
    requires Shaped(t, nodes) && Distinct(t) && ParentsExact(t, NIL, nodes) && x in Ids(t) && p in Ids(t) && p != x
    requires Shaped(Sub(t, x), nodes) && KidTree(Sub(t, p), k) == Sub(t, x) && TreeParent(t, x, NIL) == p
    requires ParentsExact(Replacement(nodes, Sub(t, x)), p, lf) && Distinct(Sub(t, p))
    requires Changed(nodes, lf, Ids(Sub(t, x)), Ids(Sub(t, x)))
    requires 0 <= p < |lf| && n2 == SetLink(lf, p, k, RootId(Replacement(nodes, Sub(t, x))))
    ensures ParentsExact(Replace(t, x, Replacement(nodes, Sub(t, x))), NIL, n2)
  {
    var X := Sub(t, x);
    var r := Replacement(nodes, X);
    var P := Sub(t, p);
    ShapedSub(t, nodes, p);
    SetKidIds(P, k, X);
    ChangedSetLink(lf, p, k, RootId(r));
    assert forall i :: 0 <= i < |lf| ==> n2[i].parent == lf[i].parent;
    ExactParentsFrame(r, p, lf, n2);
    ChangedTrans(nodes, lf, n2, Ids(X), Ids(X), {p}, {});
    ShapedIds(P, nodes);
    ExactSub(t, NIL, nodes, p);
    ChangedKept(nodes, n2, Ids(X) + {p}, Ids(X), P, {p} + OtherIds(P, k));
    ExactSetKidFrame(P, k, r, TreeParent(t, p, NIL), nodes, n2);
    OutsideIds(t, p);
    ChangedKept(nodes, n2, Ids(X) + {p}, Ids(X), t, Outside(t, p));
    OkWithoutDeadIsExact(t, NIL, nodes);
    OkWithoutDeadIsExact(SetKidTree(P, k, r), TreeParent(t, p, NIL), n2);
    ReplaceParents(t, p, SetKidTree(P, k, r), NIL, nodes, {}, n2, {});
    ReplaceViaParent(t, p, k, x, r);
    OkWithoutDeadIsExact(Replace(t, p, SetKidTree(P, k, r)), NIL, n2);
  }

  /** Exact parents survive changes that touch no parent link. */
  lemma ExactParentsFrame(t: Tree, pid: int, a: seq<Node>, b: seq<Node>)
    requires ParentsExact(t, pid, a) && |b| == |a|
    requires forall i :: 0 <= i < |a| ==> b[i].parent == a[i].parent
    ensures ParentsExact(t, pid, b)
  {
    match t
    case Nil =>
    case T(id, lo, eq, hi) =>
      ExactParentsFrame(lo, id, a, b);
      ExactParentsFrame(eq, id, a, b);
      ExactParentsFrame(hi, id, a, b);
  }

  lemma ExactSetKidFrame(t: Tree, s: Slot, x: Tree, pid: int, a: seq<Node>, b: seq<Node>)
    requires t.T? && ParentsExact(t, pid, a) && ParentsExact(x, t.id, b)
    requires ParentsKept(a, b, {t.id} + OtherIds(t, s))
    ensures ParentsExact(SetKidTree(t, s, x), pid, b)
  {
    match s
    case Lo =>
      ExactFrame(t.eq, t.id, a, b);
      ExactFrame(t.hi, t.id, a, b);
    case Eq =>
      ExactFrame(t.lo, t.id, a, b);
      ExactFrame(t.hi, t.id, a, b);
    case Hi =>
      ExactFrame(t.lo, t.id, a, b);
      ExactFrame(t.eq, t.id, a, b);
  }

  // ---------------------------------------------------------------------
  // The step keeps every other key
  // ---------------------------------------------------------------------

  /** Inside the replacement, a node's key relative to its top is what it
      was relative to the deleted node. */
  lemma RelReplacement(nodes: seq<Node>, x: Tree, n: seq<Node>, q: int)
    requires x.T? && Shaped(x, nodes) && Distinct(x) && x.eq.Nil? && q in Ids(Replacement(nodes, x))
    ensures q in Ids(x)
    ensures RelPrefix(Replacement(nodes, x), n, q) == RelPrefix(x, n, q)
  {
    ReplacementIds(nodes, x);
    if x.lo.T? && x.hi.T? {
      ShapedRoot(x.lo, nodes);
      ShapedRoot(x.hi, nodes);
      var m := MovingSlot(nodes, x.id);
      var o := KidTree(x, Opposite(m));
      var mv := KidTree(x, m);
      RelAttach(o, m, mv, n, q);
      if q in Ids(o) {
        RelKid(x, n, Opposite(m), q);
      } else {
        RelKid(x, n, m, q);
      }
    } else if x.lo.T? {
      RelKid(x, n, Lo, q);
    } else {
      RelKid(x, n, Hi, q);
    }
  }

  lemma KeyKept(nodes: seq<Node>, n: seq<Node>, t: Tree, x: int, q: int)
    requires Shaped(t, nodes) && Distinct(t) && x in Ids(t) && Sub(t, x).eq.Nil?
    requires SameContent(nodes, n) && q in Ids(Pruned(nodes, t, x))
    ensures q in Ids(t) && RelPrefix(Pruned(nodes, t, x), n, q) == RelPrefix(t, nodes, q)
  {
    var X := Sub(t, x);
    ShapedSub(t, nodes, x);
    DistinctSub(t, x);
    var r := Replacement(nodes, X);
    ReplacementIds(nodes, X);
    OutsideIds(t, x);
    ReplaceAnyIds(t, x, r);
    ReplaceAnyDistinct(t, x, r);
    if q in Ids(r) {
      RelInside(t, n, x, r, q);
      RelReplacement(nodes, X, n, q);
      RelSub(t, n, x, q);
    } else {
      RelOutside(t, n, x, r, q);
    }
    RelChars(t, nodes, n, q);
  }

  lemma DataKept(nodes: seq<Node>, n: seq<Node>, t: Tree, t': Tree, x: int)
    requires SameContent(nodes, n) && Ids(t') == Ids(t) - {x} && !HasData(nodes, x)
    ensures DataIds(t', n) == DataIds(t, nodes)
  {
    DataIdsIn(t, nodes);
    DataIdsIn(t', n);
    forall q
      ensures q in DataIds(t', n) <==> q in DataIds(t, nodes)
    {
      if 0 <= q < |nodes| {
        assert n[q].data == nodes[q].data;
      }
    }
  }

  // ---------------------------------------------------------------------
  // The step, all cases
  // ---------------------------------------------------------------------

  /** The picture after the step at `x`: unchanged when nothing is pruned. */
  ghost function PrunedShape(nodes: seq<Node>, t: Tree, x: int): Tree
    requires Shaped(t, nodes) && (x == NIL || x in Ids(t))
  {
    if x == NIL then t
    else
      ShapedIds(t, nodes);
      if !Prunable(nodes, x) then t else Pruned(nodes, t, x)
  }

  /** The corrected step keeps the invariant with exact parent links. When
      it prunes a node, that node and only it leaves the picture, the walk
      goes on at its parent, the data nodes stay the same and every node
      left keeps its key; when it prunes nothing, nothing changes and the
      walk stops. */
  lemma PruneStepKeeps(nodes: seq<Node>, t: Tree, x: int)
    requires ExactTrie(nodes, t) && (x == NIL || x in Ids(t))
    ensures -1 <= x < |nodes| && (x != NIL ==> NodeInRange(|nodes|, nodes[x]))
    ensures
      var r := PruneStep(nodes, RootId(t), x);
      var t' := PrunedShape(nodes, t, x);
      ExactTrie(r.nodes, t') && r.root == RootId(t') && SameContent(nodes, r.nodes)
      && (forall q :: q in Ids(t') ==> q in Ids(t) && PathKey(t', r.nodes, q) == PathKey(t, nodes, q))
    ensures x == NIL || !Prunable(nodes, x) ==>
      PruneStep(nodes, RootId(t), x) == Deleted(nodes, RootId(t), NIL) && PrunedShape(nodes, t, x) == t
    ensures x != NIL && Prunable(nodes, x) ==>
      var r := PruneStep(nodes, RootId(t), x);
      var t' := PrunedShape(nodes, t, x);
      Ids(t') == Ids(t) - {x} && DataIds(t', r.nodes) == DataIds(t, nodes)
      && r.next == TreeParent(t, x, NIL) && (r.next == NIL || r.next in Ids(t'))
  {
    if x != NIL {
      NodeFacts(t, nodes, x);
      if Prunable(nodes, x) {
        PruneArena(nodes, t, x);
        var r := PruneStep(nodes, RootId(t), x);
        PruneKeys(nodes, r.nodes, t, x);
      }
    }
  }

  lemma PruneArena(nodes: seq<Node>, t: Tree, x: int)
    requires ExactTrie(nodes, t) && x in Ids(t)
    requires 0 <= x < |nodes| && NodeInRange(|nodes|, nodes[x]) && Prunable(nodes, x)
    ensures
      var r := PruneStep(nodes, RootId(t), x);
      var t' := Pruned(nodes, t, x);
      ExactTrie(r.nodes, t') && r.root == RootId(t') && SameContent(nodes, r.nodes)
      && r.next == TreeParent(t, x, NIL) && (r.next == NIL || r.next in Ids(t) - {x})
  {
    NodeFacts(t, nodes, x);
    LiftFacts(nodes, t, x);
    var X := Sub(t, x);
    var R := Replacement(nodes, X);
    var lf := Lifted(nodes, x);
    var p := nodes[x].parent;
    ReplacementIds(nodes, X);
    var r := PruneStep(nodes, RootId(t), x);
    RootHasNoParent(t, nodes, x);
    ChangedContent(nodes, lf, Ids(X), Ids(X));
    if p == NIL {
      assert Pruned(nodes, t, x) == R;
      assert r == Deleted(lf, RootId(R), NIL);
    } else {
      AssembleInner(nodes, lf, t, x);
      assert r == Deleted(SetLink(lf, p, ParentSlot(t, x), RootId(R)), RootId(t), p);
      ChangedSetLink(lf, p, ParentSlot(t, x), RootId(R));
      ChangedContent(lf, r.nodes, {p}, {});
    }
  }

  lemma PruneKeys(nodes: seq<Node>, n: seq<Node>, t: Tree, x: int)
    requires ExactTrie(nodes, t) && x in Ids(t) && 0 <= x < |nodes| && Prunable(nodes, x)
    requires SameContent(nodes, n) && Shaped(Pruned(nodes, t, x), n)
    ensures
      var t' := Pruned(nodes, t, x);
      Ids(t') == Ids(t) - {x} && DataIds(t', n) == DataIds(t, nodes)
      && (forall q :: q in Ids(t') ==> q in Ids(t) && PathKey(t', n, q) == PathKey(t, nodes, q))
  {
    NodeFacts(t, nodes, x);
    var X := Sub(t, x);
    var t' := Pruned(nodes, t, x);
    ReplacementIds(nodes, X);
    OutsideIds(t, x);
    ReplaceAnyIds(t, x, Replacement(nodes, X));
    DataKept(nodes, n, t, t', x);
    forall q | q in Ids(t')
      ensures q in Ids(t) && PathKey(t', n, q) == PathKey(t, nodes, q)
    {
      KeyKept(nodes, n, t, x, q);
      ShapedIds(t', n);
      assert n[q].splitchar == nodes[q].splitchar;
    }
  }

  // ---------------------------------------------------------------------
  // For the trie's deletion methods
  // ---------------------------------------------------------------------

  /** The trie invariant without dead nodes is the exact one. */
  lemma ExactIsValid(nodes: seq<Node>, root: int, t: Tree)
    ensures TrieOk(nodes, root, t, {}) <==> ExactTrie(nodes, t) && RootId(t) == root
  {
    OkWithoutDeadIsExact(t, NIL, nodes);
  }

  /** Clearing the data of picture node `n` keeps the invariant and every
      key, and takes `n` out of the data nodes. */
  lemma ClearData(nodes: seq<Node>, t: Tree, n: int)
    requires ExactTrie(nodes, t) && n in Ids(t)
    ensures 0 <= n < |nodes|
    ensures
      var cleared := nodes[n := nodes[n].(data := None)];
      ExactTrie(cleared, t) && DataIds(t, cleared) == DataIds(t, nodes) - {n}
      && forall q :: q in Ids(t) ==> PathKey(t, cleared, q) == PathKey(t, nodes, q)
  {
    ShapedIds(t, nodes);
    var cleared := nodes[n := nodes[n].(data := None)];
    ShapedFrame(t, nodes, cleared);
    ExactFrame(t, NIL, nodes, cleared);
    DataIdsIn(t, nodes);
    DataIdsIn(t, cleared);
    forall q
      ensures q in DataIds(t, cleared) <==> q in DataIds(t, nodes) - {n}
    {
      assert HasData(cleared, q) <==> HasData(nodes, q) && q != n;
    }
    forall q | q in Ids(t)
      ensures PathKey(t, cleared, q) == PathKey(t, nodes, q)
    {
      RelChars(t, nodes, cleared, q);
    }
  }

  /** One step down a chain of the picture, as the arena shows it. */
  lemma ChainLink(c: Tree, m: Slot, nodes: seq<Node>)
    requires c.T? && Shaped(c, nodes)
    ensures 0 <= c.id < |nodes| && Kid(nodes[c.id], m) == RootId(KidTree(c, m))
    ensures KidTree(c, m).Nil? ==> Kid(nodes[c.id], m) == NIL && Extreme(c, m) == c.id
    ensures KidTree(c, m).T? ==>
      Kid(nodes[c.id], m) != NIL && Shaped(KidTree(c, m), nodes)
      && Size(KidTree(c, m)) < Size(c) && Extreme(c, m) == Extreme(KidTree(c, m), m)
  {
    ShapedKids(c, nodes);
    SetKidIds(c, m, KidTree(c, m));
    if KidTree(c, m).T? {
      ShapedRoot(KidTree(c, m), nodes);
    }
  }

  /** The walk down the moving chain of the two-kid case: the source's
      loop, ending where the picture's chain ends. */
  method FindChainEnd(nodes: seq<Node>, start: int, m: Slot, ghost c: Tree) returns (target: int)
    requires c.T? && c.id == start && Shaped(c, nodes) && Distinct(c)
    ensures target == Extreme(c, m) && target == ChainEnd(nodes, start, m, |nodes|)
  {
    ghost var chain := c;
    ChainLink(chain, m, nodes);
    target := start;
    while Kid(nodes[target], m) != NIL
      invariant chain.T? && target == chain.id && Shaped(chain, nodes) && Extreme(chain, m) == Extreme(c, m)
      decreases Size(chain)
    {
      ChainLink(chain, m, nodes);
      target := Kid(nodes[target], m);
      chain := KidTree(chain, m);
    }
    ChainLink(chain, m, nodes);
    SizeBound(c, nodes);
    ChainEndExtreme(nodes, c, m, |nodes|);
  }

  /** The two-kid case of `deleteNodeRecursion`, corrected: the updates
      `Hang` makes, in the source's order. */
  method HangKids(nodes: seq<Node>, cur: int, ghost x: Tree) returns (r: seq<Node>)
    requires x.T? && x.id == cur && Shaped(x, nodes) && Distinct(x) && x.lo.T? && x.hi.T?
    ensures 0 <= cur < |nodes| && 0 <= nodes[cur].lo < |nodes| && 0 <= nodes[cur].hi < |nodes|
    ensures r == Hang(nodes, cur, MovingSlot(nodes, cur))
  {
    ShapedKids(x, nodes);
    ShapedRoot(x.lo, nodes);
    ShapedRoot(x.hi, nodes);
    var m := MovingSlot(nodes, cur);
    var other := Kid(nodes[cur], Opposite(m));
    var mover := Kid(nodes[cur], m);
    ghost var o := KidTree(x, Opposite(m));
    assert o.T? && o.id == other && Distinct(o) by {
      if m == Hi { assert o == x.lo; } else { assert o == x.hi; }
    }
    var target := FindChainEnd(nodes, other, m, o);
    r := SetLink(nodes, target, m, mover);
    r := SetParent(r, mover, target);
    r := ClearSides(r, cur);
  }

  /** `deleteNodeRecursion`, corrected, as the sequence of updates the
      source makes, on the arena. */
  method DeleteStep(nodes: seq<Node>, root: int, cur: int, ghost t: Tree) returns (r: Deleted)
    requires ExactTrie(nodes, t) && RootId(t) == root && (cur == NIL || cur in Ids(t))
    ensures -1 <= cur < |nodes| && (cur != NIL ==> NodeInRange(|nodes|, nodes[cur]))
    ensures r == PruneStep(nodes, root, cur)
  {
    if cur == NIL {
      return Deleted(nodes, root, NIL);
    }
    NodeFacts(t, nodes, cur);
    if nodes[cur].eq != NIL || nodes[cur].data.Some? {
      return Deleted(nodes, root, NIL);
    }
    var p := nodes[cur].parent;
    var slot: Option<Slot> := None;
    if p != NIL {
      slot := ChildSlot(nodes[p], cur);
      if slot.None? {
        // the source drops the whole trie here; exact parents rule it out
        return Deleted(nodes, NIL, NIL);
      }
    }
    var arena := nodes;
    var top := Top(arena, cur);
    if arena[cur].lo != NIL && arena[cur].hi != NIL {
      arena := HangKids(arena, cur, Sub(t, cur));
    }
    if top != NIL {
      arena := SetParent(arena, top, p);
    }
    assert arena == Lifted(nodes, cur);
    if p == NIL {
      return Deleted(arena, top, NIL);
    }
    arena := SetLink(arena, p, slot.value, top);
    return Deleted(arena, root, p);
  }
}
