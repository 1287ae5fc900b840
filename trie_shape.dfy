/**
 * The node arena of the ternary search trie and the ghost tree that
 * describes which part of it is reachable from the root.
 *
 * Every node of the trie is an element of an arena `seq<Node>`; a reference
 * to a node is its index and `NIL` (-1) is the null reference. Each node
 * holds a split character, optional data and four relatives: the parent and
 * the lo, eq and hi kids.
 *
 * A `Tree` is a ghost picture of the nodes reachable from some node through
 * kid links. `Shaped(t, nodes)` says that the kid links of the arena agree
 * with the picture; since the pictures are finite trees, every walk down
 * kid links terminates. Parent links are NOT part of the picture: the
 * deletion code can leave them stale, and `ParentsOk` says how stale they
 * may be.
 */
module TrieShape {

  import opened Wrappers

  /** The null node reference. */
  const NIL: int := -1

  /** The kid slots of a node; the parent slot is the field `parent`. */
  datatype Slot = Lo | Eq | Hi

  /** A node of the trie: split character, data (`None` is null) and the
      indices of its relatives. */
  datatype Node = Node(splitchar: char, data: Option<int>, parent: int, lo: int, eq: int, hi: int)

  function Kid(n: Node, s: Slot): int {
    match s
    case Lo => n.lo
    case Eq => n.eq
    case Hi => n.hi
  }

  function SetKid(n: Node, s: Slot, k: int): (r: Node)
    ensures Kid(r, s) == k
    ensures forall s' :: s' != s ==> Kid(r, s') == Kid(n, s')
    ensures r.splitchar == n.splitchar && r.data == n.data && r.parent == n.parent
  {
    match s
    case Lo => n.(lo := k)
    case Eq => n.(eq := k)
    case Hi => n.(hi := k)
  }

  /** A fresh node as the node constructor creates it: no data, no kids. */
  function NewNode(c: char, parent: int): Node {
    Node(c, None, parent, NIL, NIL, NIL)
  }

  /** Two nodes with the same split character and the same kid links. */
  predicate SameLinks(a: Node, b: Node) {
    a.splitchar == b.splitchar && a.lo == b.lo && a.eq == b.eq && a.hi == b.hi
  }

  /** The nodes `ids` exist in both arenas with the same split characters
      and kid links. */
  ghost predicate LinksKept(nodes: seq<Node>, nodes': seq<Node>, ids: set<int>) {
    forall i :: i in ids ==> 0 <= i < |nodes| && i < |nodes'| && SameLinks(nodes[i], nodes'[i])
  }

  /** The nodes `ids` exist in both arenas with the same parent links. */
  ghost predicate ParentsKept(nodes: seq<Node>, nodes': seq<Node>, ids: set<int>) {
    forall i :: i in ids ==> 0 <= i < |nodes| && i < |nodes'| && nodes[i].parent == nodes'[i].parent
  }

  // ---------------------------------------------------------------------
  // Trees
  // ---------------------------------------------------------------------

  datatype Tree = Nil | T(id: int, lo: Tree, eq: Tree, hi: Tree)

  function Leaf(id: int): Tree {
    T(id, Nil, Nil, Nil)
  }

  function RootId(t: Tree): int {
    if t.Nil? then NIL else t.id
  }

  function KidTree(t: Tree, s: Slot): Tree
    requires t.T?
  {
    match s
    case Lo => t.lo
    case Eq => t.eq
    case Hi => t.hi
  }

  function SetKidTree(t: Tree, s: Slot, k: Tree): (r: Tree)
    requires t.T?
    ensures r.T? && r.id == t.id && KidTree(r, s) == k
    ensures forall s' :: s' != s ==> KidTree(r, s') == KidTree(t, s')
  {
    match s
    case Lo => t.(lo := k)
    case Eq => t.(eq := k)
    case Hi => t.(hi := k)
  }

  function Ids(t: Tree): set<int> {
    match t
    case Nil => {}
    case T(id, lo, eq, hi) => {id} + Ids(lo) + Ids(eq) + Ids(hi)
  }

  /** The number of nodes in the picture. */
  function Size(t: Tree): nat {
    match t
    case Nil => 0
    case T(_, lo, eq, hi) => Size(lo) + Size(eq) + Size(hi) + 1
  }

  /** No node occurs twice in the picture. */
  ghost predicate Distinct(t: Tree) {
    match t
    case Nil => true
    case T(id, lo, eq, hi) =>
      id !in Ids(lo) && id !in Ids(eq) && id !in Ids(hi)
      && Ids(lo) !! Ids(eq) && Ids(lo) !! Ids(hi) && Ids(eq) !! Ids(hi)
      && Distinct(lo) && Distinct(eq) && Distinct(hi)
  }

  /** The kid links of the arena agree with the picture. */
  ghost predicate Shaped(t: Tree, nodes: seq<Node>) {
    match t
    case Nil => true
    case T(id, lo, eq, hi) =>
      0 <= id < |nodes|
      && nodes[id].lo == RootId(lo) && nodes[id].eq == RootId(eq) && nodes[id].hi == RootId(hi)
      && Shaped(lo, nodes) && Shaped(eq, nodes) && Shaped(hi, nodes)
  }

  /** Every parent link in the picture names the node's parent in the
      picture or a node of `dead` (one that the deletion code unlinked). */
  ghost predicate ParentsOk(t: Tree, pid: int, nodes: seq<Node>, dead: set<int>) {
    match t
    case Nil => true
    case T(id, lo, eq, hi) =>
      0 <= id < |nodes| && (nodes[id].parent == pid || nodes[id].parent in dead)
      && ParentsOk(lo, id, nodes, dead) && ParentsOk(eq, id, nodes, dead) && ParentsOk(hi, id, nodes, dead)
  }

  /** Every parent link in the picture names the node's parent in the
      picture: nothing stale. */
  ghost predicate ParentsExact(t: Tree, pid: int, nodes: seq<Node>) {
    match t
    case Nil => true
    case T(id, lo, eq, hi) =>
      0 <= id < |nodes| && nodes[id].parent == pid
      && ParentsExact(lo, id, nodes) && ParentsExact(eq, id, nodes) && ParentsExact(hi, id, nodes)
  }

  lemma ShapedIds(t: Tree, nodes: seq<Node>)
    requires Shaped(t, nodes)
    ensures forall i :: i in Ids(t) ==> 0 <= i < |nodes|
  {
    match t
    case Nil =>
    case T(_, lo, eq, hi) =>
      ShapedIds(lo, nodes);
      ShapedIds(eq, nodes);
      ShapedIds(hi, nodes);
  }

  /** A picture is determined by the arena and its root. */
  lemma ShapedUnique(t1: Tree, t2: Tree, nodes: seq<Node>)
    requires Shaped(t1, nodes) && Shaped(t2, nodes) && RootId(t1) == RootId(t2)
    ensures t1 == t2
  {
    match t1
    case Nil =>
    case T(_, lo, eq, hi) =>
      ShapedUnique(lo, t2.lo, nodes);
      ShapedUnique(eq, t2.eq, nodes);
      ShapedUnique(hi, t2.hi, nodes);
  }

  /** The picture survives any change to nodes outside it, to data, and to
      parent links. */
  lemma ShapedFrame(t: Tree, nodes: seq<Node>, nodes': seq<Node>)
    requires Shaped(t, nodes)
    requires LinksKept(nodes, nodes', Ids(t))
    ensures Shaped(t, nodes')
  {
    match t
    case Nil =>
    case T(_, lo, eq, hi) =>
      ShapedFrame(lo, nodes, nodes');
      ShapedFrame(eq, nodes, nodes');
      ShapedFrame(hi, nodes, nodes');
  }

  lemma ParentsFrame(t: Tree, pid: int, nodes: seq<Node>, dead: set<int>, nodes': seq<Node>, dead': set<int>)
    requires ParentsOk(t, pid, nodes, dead)
    requires dead <= dead'
    requires ParentsKept(nodes, nodes', Ids(t))
    ensures ParentsOk(t, pid, nodes', dead')
  {
    match t
    case Nil =>
    case T(id, lo, eq, hi) =>
      ParentsFrame(lo, id, nodes, dead, nodes', dead');
      ParentsFrame(eq, id, nodes, dead, nodes', dead');
      ParentsFrame(hi, id, nodes, dead, nodes', dead');
  }

  lemma ExactFrame(t: Tree, pid: int, nodes: seq<Node>, nodes': seq<Node>)
    requires ParentsExact(t, pid, nodes)
    requires ParentsKept(nodes, nodes', Ids(t))
    ensures ParentsExact(t, pid, nodes')
  {
    match t
    case Nil =>
    case T(id, lo, eq, hi) =>
      ExactFrame(lo, id, nodes, nodes');
      ExactFrame(eq, id, nodes, nodes');
      ExactFrame(hi, id, nodes, nodes');
  }

  lemma ExactIsOk(t: Tree, pid: int, nodes: seq<Node>, dead: set<int>)
    requires ParentsExact(t, pid, nodes)
    ensures ParentsOk(t, pid, nodes, dead)
  {
    match t
    case Nil =>
    case T(id, lo, eq, hi) =>
      ExactIsOk(lo, id, nodes, dead);
      ExactIsOk(eq, id, nodes, dead);
      ExactIsOk(hi, id, nodes, dead);
  }

  lemma DistinctSize(t: Tree)
    requires Distinct(t)
    ensures |Ids(t)| == Size(t)
  {
    match t
    case Nil =>
    case T(id, lo, eq, hi) =>
      DistinctSize(lo);
      DistinctSize(eq);
      DistinctSize(hi);
      NodeCard(id, Ids(lo), Ids(eq), Ids(hi));
  }

  lemma NodeCard(id: int, a: set<int>, b: set<int>, c: set<int>)
    requires id !in a && id !in b && id !in c && a !! b && a !! c && b !! c
    ensures |{id} + a + b + c| == |a| + |b| + |c| + 1
  {
    DisjointUnion({id}, a);
    DisjointUnion({id} + a, b);
    DisjointUnion({id} + a + b, c);
  }

  lemma DisjointUnion(a: set<int>, b: set<int>)
    requires a !! b
    ensures |a + b| == |a| + |b|
  {
    assert a * b == {};
  }

  lemma LinksKeptSubset(nodes: seq<Node>, nodes': seq<Node>, a: set<int>, b: set<int>)
    requires LinksKept(nodes, nodes', a) && b <= a
    ensures LinksKept(nodes, nodes', b)
  {
  }

  // ---------------------------------------------------------------------
  // Subtrees and their replacement
  // ---------------------------------------------------------------------

  /** The subtree rooted at node `x`. */
  function Sub(t: Tree, x: int): (r: Tree)
    requires x in Ids(t)
    ensures r.T? && r.id == x && Ids(r) <= Ids(t)
  {
    if t.id == x then t
    else if x in Ids(t.lo) then Sub(t.lo, x)
    else if x in Ids(t.eq) then Sub(t.eq, x)
    else Sub(t.hi, x)
  }

  /** The picture with the subtree at `x` replaced by `s`. */
  function Replace(t: Tree, x: int, s: Tree): Tree {
    match t
    case Nil => Nil
    case T(id, lo, eq, hi) =>
      if id == x then s
      else T(id, Replace(lo, x, s), Replace(eq, x, s), Replace(hi, x, s))
  }

  /** The nodes of `t` outside the subtree at `x`. */
  function Outside(t: Tree, x: int): set<int>
    requires x in Ids(t)
  {
    Ids(t) - Ids(Sub(t, x))
  }

  /** The parent of `x` in the picture, `pid` being the parent of its root. */
  function TreeParent(t: Tree, x: int, pid: int): int
    requires x in Ids(t)
  {
    if t.id == x then pid
    else if x in Ids(t.lo) then TreeParent(t.lo, x, t.id)
    else if x in Ids(t.eq) then TreeParent(t.eq, x, t.id)
    else TreeParent(t.hi, x, t.id)
  }

  /** Where `x` lies below the kid `k` of the root. */
  lemma OutsideKid(t: Tree, x: int, k: Slot)
    requires Distinct(t) && t.T? && x in Ids(KidTree(t, k))
    ensures Sub(t, x) == Sub(KidTree(t, k), x)
    ensures Outside(KidTree(t, k), x) <= Outside(t, x)
    ensures t.id in Outside(t, x)
    ensures forall k' :: k' != k ==> Ids(KidTree(t, k')) <= Outside(t, x)
    ensures forall pid :: TreeParent(t, x, pid) == TreeParent(KidTree(t, k), x, t.id)
  {
  }

  lemma ReplaceAbsent(t: Tree, x: int, s: Tree)
    requires x !in Ids(t)
    ensures Replace(t, x, s) == t
  {
    match t
    case Nil =>
    case T(_, lo, eq, hi) =>
      ReplaceAbsent(lo, x, s);
      ReplaceAbsent(eq, x, s);
      ReplaceAbsent(hi, x, s);
  }

  lemma OutsideIds(t: Tree, x: int)
    requires Distinct(t) && x in Ids(t)
    ensures Ids(t) == Outside(t, x) + Ids(Sub(t, x))
    ensures Outside(t, x) !! Ids(Sub(t, x))
  {
  }

  /** Replacing the subtree at `x` by a picture `s` rooted at `x` itself. */
  lemma ReplaceIds(t: Tree, x: int, s: Tree)
    requires Distinct(t) && x in Ids(t) && s.T? && s.id == x
    ensures Ids(Replace(t, x, s)) == Outside(t, x) + Ids(s)
  {
    if t.id != x {
      var k := if x in Ids(t.lo) then Lo else if x in Ids(t.eq) then Eq else Hi;
      OutsideKid(t, x, k);
      ReplaceIds(KidTree(t, k), x, s);
      ReplaceAbsentKids(t, x, s, k);
    }
  }

  /** Below the root, only the kid holding `x` is touched. */
  lemma ReplaceAbsentKids(t: Tree, x: int, s: Tree, k: Slot)
    requires Distinct(t) && t.T? && t.id != x && x in Ids(KidTree(t, k))
    ensures forall k' :: k' != k ==> Replace(KidTree(t, k'), x, s) == KidTree(t, k')
    ensures Replace(t, x, s) == SetKidTree(t, k, Replace(KidTree(t, k), x, s))
  {
    forall k' | k' != k
      ensures Replace(KidTree(t, k'), x, s) == KidTree(t, k')
    {
      ReplaceAbsent(KidTree(t, k'), x, s);
    }
    assert Replace(t, x, s) == T(t.id, Replace(t.lo, x, s), Replace(t.eq, x, s), Replace(t.hi, x, s));
    match k
    case Lo =>
      assert Replace(KidTree(t, Eq), x, s) == t.eq && Replace(KidTree(t, Hi), x, s) == t.hi;
    case Eq =>
      assert Replace(KidTree(t, Lo), x, s) == t.lo && Replace(KidTree(t, Hi), x, s) == t.hi;
    case Hi =>
      assert Replace(KidTree(t, Lo), x, s) == t.lo && Replace(KidTree(t, Eq), x, s) == t.eq;
  }

  lemma ReplaceDistinct(t: Tree, x: int, s: Tree)
    requires Distinct(t) && x in Ids(t) && s.T? && s.id == x
    requires Distinct(s) && Ids(s) !! Outside(t, x)
    ensures Distinct(Replace(t, x, s))
  {
    if t.id != x {
      if x in Ids(t.lo) {
        ReplaceDistinct(t.lo, x, s);
        ReplaceIds(t.lo, x, s);
        ReplaceAbsent(t.eq, x, s);
        ReplaceAbsent(t.hi, x, s);
      } else if x in Ids(t.eq) {
        ReplaceDistinct(t.eq, x, s);
        ReplaceIds(t.eq, x, s);
        ReplaceAbsent(t.lo, x, s);
        ReplaceAbsent(t.hi, x, s);
      } else {
        ReplaceDistinct(t.hi, x, s);
        ReplaceIds(t.hi, x, s);
        ReplaceAbsent(t.lo, x, s);
        ReplaceAbsent(t.eq, x, s);
      }
    }
  }

  /** The shape of a node picture, assembled from the shapes of its kids. */
  lemma ShapedNode(t: Tree, nodes: seq<Node>)
    requires t.T? && 0 <= t.id < |nodes|
    requires forall k :: Kid(nodes[t.id], k) == RootId(KidTree(t, k)) && Shaped(KidTree(t, k), nodes)
    ensures Shaped(t, nodes)
  {
    assert KidTree(t, Lo) == t.lo && KidTree(t, Eq) == t.eq && KidTree(t, Hi) == t.hi;
    assert Kid(nodes[t.id], Lo) == nodes[t.id].lo && Kid(nodes[t.id], Eq) == nodes[t.id].eq;
    assert Kid(nodes[t.id], Hi) == nodes[t.id].hi;
  }

  lemma ShapedKids(t: Tree, nodes: seq<Node>)
    requires t.T? && Shaped(t, nodes)
    ensures forall k :: Kid(nodes[t.id], k) == RootId(KidTree(t, k)) && Shaped(KidTree(t, k), nodes)
  {
    forall k ensures Kid(nodes[t.id], k) == RootId(KidTree(t, k)) && Shaped(KidTree(t, k), nodes) {
      match k
      case Lo =>
      case Eq =>
      case Hi =>
    }
  }

  lemma ReplaceShaped(t: Tree, x: int, s: Tree, nodes: seq<Node>, nodes': seq<Node>)
    requires Distinct(t) && Shaped(t, nodes) && x in Ids(t) && s.T? && s.id == x
    requires Shaped(s, nodes')
    requires LinksKept(nodes, nodes', Outside(t, x))
    ensures Shaped(Replace(t, x, s), nodes')
  {
    if t.id != x {
      var k := if x in Ids(t.lo) then Lo else if x in Ids(t.eq) then Eq else Hi;
      OutsideKid(t, x, k);
      ReplaceAbsentKids(t, x, s, k);
      ShapedKids(t, nodes);
      LinksKeptSubset(nodes, nodes', Outside(t, x), Outside(KidTree(t, k), x));
      ReplaceShaped(KidTree(t, k), x, s, nodes, nodes');
      OtherKidsShaped(t, x, k, nodes, nodes');
      var r := SetKidTree(t, k, Replace(KidTree(t, k), x, s));
      assert SameLinks(nodes[t.id], nodes'[t.id]);
      assert forall k' :: Kid(nodes'[t.id], k') == Kid(nodes[t.id], k');
      ShapedNode(r, nodes');
    }
  }

  lemma OtherKidsShaped(t: Tree, x: int, k: Slot, nodes: seq<Node>, nodes': seq<Node>)
    requires Distinct(t) && t.T? && x in Ids(KidTree(t, k))
    requires forall k' :: Shaped(KidTree(t, k'), nodes)
    requires LinksKept(nodes, nodes', Outside(t, x))
    ensures forall k' :: k' != k ==> Shaped(KidTree(t, k'), nodes')
  {
    OutsideKid(t, x, k);
    forall k' | k' != k
      ensures Shaped(KidTree(t, k'), nodes')
    {
      LinksKeptSubset(nodes, nodes', Outside(t, x), Ids(KidTree(t, k')));
      ShapedFrame(KidTree(t, k'), nodes, nodes');
    }
  }

  lemma ParentsKeptSubset(nodes: seq<Node>, nodes': seq<Node>, a: set<int>, b: set<int>)
    requires ParentsKept(nodes, nodes', a) && b <= a
    ensures ParentsKept(nodes, nodes', b)
  {
  }

  /** The parent links of a node picture, assembled from those of its kids. */
  lemma ParentsNode(t: Tree, pid: int, nodes: seq<Node>, dead: set<int>)
    requires t.T? && 0 <= t.id < |nodes| && (nodes[t.id].parent == pid || nodes[t.id].parent in dead)
    requires forall k :: ParentsOk(KidTree(t, k), t.id, nodes, dead)
    ensures ParentsOk(t, pid, nodes, dead)
  {
    assert KidTree(t, Lo) == t.lo && KidTree(t, Eq) == t.eq && KidTree(t, Hi) == t.hi;
  }

  lemma ParentsKids(t: Tree, pid: int, nodes: seq<Node>, dead: set<int>)
    requires t.T? && ParentsOk(t, pid, nodes, dead)
    ensures forall k :: ParentsOk(KidTree(t, k), t.id, nodes, dead)
  {
    forall k ensures ParentsOk(KidTree(t, k), t.id, nodes, dead) {
      match k
      case Lo =>
      case Eq =>
      case Hi =>
    }
  }

  lemma ReplaceParents(t: Tree, x: int, s: Tree, pid: int, nodes: seq<Node>, dead: set<int>, nodes': seq<Node>, dead': set<int>)
    requires Distinct(t) && x in Ids(t) && s.T? && s.id == x
    requires ParentsOk(t, pid, nodes, dead) && dead <= dead'
    requires ParentsKept(nodes, nodes', Outside(t, x))
    requires ParentsOk(s, TreeParent(t, x, pid), nodes', dead')
    ensures ParentsOk(Replace(t, x, s), pid, nodes', dead')
  {
    if t.id != x {
      var k := if x in Ids(t.lo) then Lo else if x in Ids(t.eq) then Eq else Hi;
      OutsideKid(t, x, k);
      ReplaceAbsentKids(t, x, s, k);
      ParentsKids(t, pid, nodes, dead);
      ParentsKeptSubset(nodes, nodes', Outside(t, x), Outside(KidTree(t, k), x));
      ReplaceParents(KidTree(t, k), x, s, t.id, nodes, dead, nodes', dead');
      OtherKidsParents(t, x, k, nodes, dead, nodes', dead');
      var r := SetKidTree(t, k, Replace(KidTree(t, k), x, s));
      ParentsNode(r, pid, nodes', dead');
    }
  }

  lemma OtherKidsParents(t: Tree, x: int, k: Slot, nodes: seq<Node>, dead: set<int>, nodes': seq<Node>, dead': set<int>)
    requires Distinct(t) && t.T? && x in Ids(KidTree(t, k)) && dead <= dead'
    requires forall k' :: ParentsOk(KidTree(t, k'), t.id, nodes, dead)
    requires ParentsKept(nodes, nodes', Outside(t, x))
    ensures forall k' :: k' != k ==> ParentsOk(KidTree(t, k'), t.id, nodes', dead')
  {
    OutsideKid(t, x, k);
    forall k' | k' != k
      ensures ParentsOk(KidTree(t, k'), t.id, nodes', dead')
    {
      ParentsKeptSubset(nodes, nodes', Outside(t, x), Ids(KidTree(t, k')));
      ParentsFrame(KidTree(t, k'), t.id, nodes, dead, nodes', dead');
    }
  }

  // ---------------------------------------------------------------------
  // Changing one kid of a picture
  // ---------------------------------------------------------------------

  /** The nodes under the two kids other than `s`. */
  function OtherIds(t: Tree, s: Slot): set<int>
    requires t.T?
  {
    match s
    case Lo => Ids(t.eq) + Ids(t.hi)
    case Eq => Ids(t.lo) + Ids(t.hi)
    case Hi => Ids(t.lo) + Ids(t.eq)
  }

  lemma SetKidIds(t: Tree, s: Slot, x: Tree)
    requires t.T?
    ensures Ids(t) == {t.id} + Ids(KidTree(t, s)) + OtherIds(t, s)
    ensures Ids(SetKidTree(t, s, x)) == {t.id} + Ids(x) + OtherIds(t, s)
    ensures Size(SetKidTree(t, s, x)) == Size(t) - Size(KidTree(t, s)) + Size(x)
    ensures Distinct(t) ==> t.id !in OtherIds(t, s) && Ids(KidTree(t, s)) !! OtherIds(t, s)
    ensures forall k :: k != s ==> Ids(KidTree(t, k)) <= OtherIds(t, s)
  {
  }

  lemma DistinctSetKid(t: Tree, s: Slot, x: Tree)
    requires t.T? && Distinct(t) && Distinct(x)
    requires t.id !in Ids(x) && Ids(x) !! OtherIds(t, s)
    ensures Distinct(SetKidTree(t, s, x))
  {
  }

  lemma SetKidSame(t: Tree, s: Slot)
    requires t.T?
    ensures SetKidTree(t, s, KidTree(t, s)) == t
  {
  }

  /** With no dead nodes, the two parent predicates agree. */
  lemma OkWithoutDeadIsExact(t: Tree, pid: int, nodes: seq<Node>)
    ensures ParentsOk(t, pid, nodes, {}) <==> ParentsExact(t, pid, nodes)
  {
  }
}
