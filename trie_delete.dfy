/**
 * Deletion in the ternary search trie as the source writes it: `deleteNode`
 * clears the node's data and then calls `deleteNodeRecursion` on the node
 * and on each node it returns, pruning nodes that no longer carry a key.
 *
 * The functions here work on any arena whose links stay inside it, and the
 * lemmas at the end run them on small tries to exhibit three defects of
 * the two-kid and root cases. The corrected deletion the trie uses is in
 * `TriePrune`.
 */
module TrieDelete {

  import opened Wrappers
  import opened TrieShape
  import opened TrieSpec
  import opened TrieRead

  /** Every link of `v` is NIL or a node of an arena of `count` nodes. */
  predicate NodeInRange(count: int, v: Node) {
    -1 <= v.parent < count && -1 <= v.lo < count && -1 <= v.eq < count && -1 <= v.hi < count
  }

  /** Every link of every node stays inside the arena. */
  ghost predicate LinksInRange(nodes: seq<Node>) {
    forall i :: 0 <= i < |nodes| ==> NodeInRange(|nodes|, nodes[i])
  }

  /** The kid slot of parent `p` that holds `x`, looked at in the order
      lower, equal, higher; None when no slot holds it. */
  function ChildSlot(p: Node, x: int): (r: Option<Slot>)
    ensures r.Some? ==> Kid(p, r.value) == x
    ensures r.None? ==> p.lo != x && p.eq != x && p.hi != x
  {
    if p.lo == x then Some(Lo)
    else if p.eq == x then Some(Eq)
    else if p.hi == x then Some(Hi)
    else None
  }

  /** The kid that moves when a node with two kids is deleted: the higher
      one when its split character is farther from the node's than the
      lower one's is; a tie is broken by the seeded generator, whose first
      draw raises the higher distance. Characters are compared as numbers,
      without `fold`. */
  function MovingSlot(nodes: seq<Node>, x: int): (r: Slot)
    requires 0 <= x < |nodes| && 0 <= nodes[x].lo < |nodes| && 0 <= nodes[x].hi < |nodes|
    ensures r == Lo || r == Hi
    ensures r == Hi <==>
      nodes[nodes[x].hi].splitchar as int - nodes[x].splitchar as int
      >= nodes[x].splitchar as int - nodes[nodes[x].lo].splitchar as int
  {
    var deltaHi := nodes[nodes[x].hi].splitchar as int - nodes[x].splitchar as int;
    var deltaLo := nodes[x].splitchar as int - nodes[nodes[x].lo].splitchar as int;
    var deltaHi' := if deltaHi == deltaLo then deltaHi + 1 else deltaHi;
    if deltaHi' > deltaLo then Hi else Lo
  }

  /** The node reached from `n` by following the `s` links until the next
      one is null, taking at most `fuel` steps; a link off the arena counts
      as null. */
  function ChainEnd(nodes: seq<Node>, n: int, s: Slot, fuel: nat): (r: int)
    requires 0 <= n < |nodes|
    ensures 0 <= r < |nodes|
    ensures fuel > 0 && 0 <= Kid(nodes[n], s) < |nodes| ==> r == ChainEnd(nodes, Kid(nodes[n], s), s, fuel - 1)
    decreases fuel
  {
    var k := Kid(nodes[n], s);
    if fuel == 0 || !(0 <= k < |nodes|) then n else ChainEnd(nodes, k, s, fuel - 1)
  }

  // ---------------------------------------------------------------------
  // The source's deletion
  // ---------------------------------------------------------------------

  /** The outcome of a deletion step: the new arena and root and the node
      to visit next, or the null dereference that ends the operation. */
  datatype Deleted = Deleted(nodes: seq<Node>, root: int, next: int) | NullDereference

  /** Sets kid slot `s` of node `n` to `k`. */
  function SetLink(nodes: seq<Node>, n: int, s: Slot, k: int): (r: seq<Node>)
    requires 0 <= n < |nodes|
    ensures |r| == |nodes|
    ensures LinksInRange(nodes) && -1 <= k < |nodes| ==> LinksInRange(r)
  {
    UpdateInRangeIf(nodes, n, SetKid(nodes[n], s, k));
    nodes[n := SetKid(nodes[n], s, k)]
  }

  /** Sets the parent link of node `n` to `p`. */
  function SetParent(nodes: seq<Node>, n: int, p: int): (r: seq<Node>)
    requires 0 <= n < |nodes|
    ensures |r| == |nodes|
    ensures LinksInRange(nodes) && -1 <= p < |nodes| ==> LinksInRange(r)
  {
    UpdateInRangeIf(nodes, n, nodes[n].(parent := p));
    nodes[n := nodes[n].(parent := p)]
  }

  /** Clears the lower and higher kid links of node `n`. */
  function ClearSides(nodes: seq<Node>, n: int): (r: seq<Node>)
    requires 0 <= n < |nodes|
    ensures |r| == |nodes|
    ensures LinksInRange(nodes) ==> LinksInRange(r)
  {
    UpdateInRangeIf(nodes, n, nodes[n].(lo := NIL, hi := NIL));
    nodes[n := nodes[n].(lo := NIL, hi := NIL)]
  }

  lemma UpdateInRangeIf(nodes: seq<Node>, i: int, v: Node)
    requires 0 <= i < |nodes|
    ensures LinksInRange(nodes) && NodeInRange(|nodes|, v) ==> LinksInRange(nodes[i := v])
  {
  }

  /** `deleteNodeRecursion` as written. A node with an eq kid or data is
      kept. Otherwise its parent's slot holding it is found; with no such
      slot the whole trie is dropped, and a null parent is dereferenced.
      A node without kids is unlinked, one with one kid is replaced by that
      kid. With two kids the moving kid is hung at the end of the moving
      chain of the other kid, and that end node, not the other kid, is put
      in the parent's slot; the moving kid keeps its old parent link. */
  function DeleteNodeRecursionAsWritten(nodes: seq<Node>, root: int, cur: int): (r: Deleted)
    requires LinksInRange(nodes) && -1 <= cur < |nodes|
    ensures r.Deleted? ==> LinksInRange(r.nodes) && |r.nodes| == |nodes| && -1 <= r.next < |nodes|
  {
    if cur == NIL || nodes[cur].eq != NIL || nodes[cur].data.Some? then Deleted(nodes, root, NIL)
    else
      var p := nodes[cur].parent;
      if p == NIL then NullDereference
      else
        var slot := ChildSlot(nodes[p], cur);
        if slot.None? then Deleted(nodes, NIL, NIL)
        else
          var lo, hi := nodes[cur].lo, nodes[cur].hi;
          if lo == NIL && hi == NIL then Deleted(SetLink(nodes, p, slot.value, NIL), root, p)
          else if lo == NIL || hi == NIL then
            var kid := if lo == NIL then hi else lo;
            Deleted(SetParent(SetLink(nodes, p, slot.value, kid), kid, p), root, p)
          else
            var m := MovingSlot(nodes, cur);
            var target := ChainEnd(nodes, if m == Hi then lo else hi, m, |nodes|);
            var n1 := SetLink(nodes, target, m, Kid(nodes[cur], m));
            var n2 := SetLink(n1, p, slot.value, target);
            Deleted(ClearSides(SetParent(n2, target, p), cur), root, p)
  }

  /** The loop of `deleteNode`: steps until the step returns null, at most
      `fuel` times. */
  function DeleteLoopAsWritten(nodes: seq<Node>, root: int, cur: int, fuel: nat): (r: Deleted)
    requires LinksInRange(nodes) && -1 <= cur < |nodes|
    ensures r.Deleted? ==> LinksInRange(r.nodes) && |r.nodes| == |nodes|
    decreases fuel
  {
    if cur == NIL || fuel == 0 then Deleted(nodes, root, cur)
    else
      match DeleteNodeRecursionAsWritten(nodes, root, cur)
      case NullDereference => NullDereference
      case Deleted(nodes', root', next) => DeleteLoopAsWritten(nodes', root', next, fuel - 1)
  }

  /** `deleteNode` as written: clears the node's data, then prunes. The
      loop is given one step per arena node and one more. */
  function DeleteNodeAsWritten(nodes: seq<Node>, root: int, node: int): (r: Deleted)
    requires LinksInRange(nodes) && -1 <= node < |nodes|
    ensures r.Deleted? ==> LinksInRange(r.nodes) && |r.nodes| == |nodes|
  {
    if node == NIL then Deleted(nodes, root, NIL)
    else
      UpdateInRangeIf(nodes, node, nodes[node].(data := None));
      DeleteLoopAsWritten(nodes[node := nodes[node].(data := None)], root, node, |nodes| + 1)
  }

  // ---------------------------------------------------------------------
  // Three tries the source deletes wrongly
  // ---------------------------------------------------------------------

  /** The trie `Put` builds from the keys "xm", "xa", "xc", "xz" (each with
      data 1, in that order): x -eq-> m; m -lo-> a -hi-> c; m -hi-> z. */
  function FourKeys(): seq<Node> {
    [ Node('x', None, NIL, NIL, 1, NIL),
      Node('m', Some(1), 0, 2, NIL, 4),
      Node('a', Some(1), 1, NIL, NIL, 3),
      Node('c', Some(1), 2, NIL, NIL, NIL),
      Node('z', Some(1), 1, NIL, NIL, NIL) ]
  }

  function FourKeysTree(): Tree {
    T(0, Nil, T(1, T(2, Nil, Nil, Leaf(3)), Nil, Leaf(4)), Nil)
  }

  /** `FourKeys` after the source removes "xm": "xc" has taken the place
      of "xm" and carries "xz" as its higher kid. */
  function FourKeysAfter(): seq<Node> {
    [ Node('x', None, NIL, NIL, 3, NIL),
      Node('m', None, 0, NIL, NIL, NIL),
      Node('a', Some(1), 1, NIL, NIL, 3),
      Node('c', Some(1), 0, NIL, NIL, 4),
      Node('z', Some(1), 1, NIL, NIL, NIL) ]
  }

  /** Removing "xm" from `FourKeys`: 'z' is 13 above 'm' and 'a' 12 below,
      so the higher kid moves and hangs below "xc", the end of the higher
      chain of "xa"; "xc" then takes the place of "xm", and no link leads to
      node "xa" any more, though it still holds data. */
  lemma GraftDropsKey()
    ensures ExactTrie(FourKeys(), FourKeysTree()) && LinksInRange(FourKeys())
    ensures PathKey(FourKeysTree(), FourKeys(), 2) == "xa" && HasData(FourKeys(), 2)
    ensures DeleteNodeAsWritten(FourKeys(), 0, 1) == Deleted(FourKeysAfter(), 0, NIL)
    ensures HasData(FourKeysAfter(), 2)
    ensures forall i :: 0 <= i < |FourKeysAfter()| ==>
      FourKeysAfter()[i].lo != 2 && FourKeysAfter()[i].eq != 2 && FourKeysAfter()[i].hi != 2
  {
    var nodes, t, e := FourKeys(), FourKeysTree(), FourKeysAfter();
    assert Shaped(t.eq.lo, nodes);
    assert Shaped(t, nodes);
    assert ExactTrie(nodes, t);
    assert RelPrefix(t, nodes, 2) == "x";
    var n0 := nodes[1 := nodes[1].(data := None)];
    assert LinksInRange(n0);
    assert MovingSlot(n0, 1) == Hi;
    assert ChainEnd(n0, 3, Hi, 4) == 3;
    assert ChainEnd(n0, 2, Hi, 5) == 3;
    var n1 := SetLink(n0, 3, Hi, 4);
    var n2 := SetLink(n1, 0, Eq, 3);
    assert ClearSides(SetParent(n2, 3, 0), 1) == e;
    assert DeleteNodeRecursionAsWritten(n0, 0, 1) == Deleted(e, 0, 0);
    assert LinksInRange(e);
    assert DeleteNodeRecursionAsWritten(e, 0, 0) == Deleted(e, 0, NIL);
    assert DeleteLoopAsWritten(e, 0, 0, 5) == Deleted(e, 0, NIL);
  }

  /** The trie `Put` builds from "xm", "xa", "xz": x -eq-> m; m -lo-> a;
      m -hi-> z. */
  function ThreeKeys(): seq<Node> {
    [ Node('x', None, NIL, NIL, 1, NIL),
      Node('m', Some(1), 0, 2, NIL, 3),
      Node('a', Some(1), 1, NIL, NIL, NIL),
      Node('z', Some(1), 1, NIL, NIL, NIL) ]
  }

  function ThreeKeysTree(): Tree {
    T(0, Nil, T(1, Leaf(2), Nil, Leaf(3)), Nil)
  }

  /** `ThreeKeys` after the source removes "xm": "xa" has taken the place
      of "xm" and carries "xz" as its higher kid, whose parent link still
      names the removed node. */
  function ThreeKeysAfter(): seq<Node> {
    [ Node('x', None, NIL, NIL, 2, NIL),
      Node('m', None, 0, NIL, NIL, NIL),
      Node('a', Some(1), 0, NIL, NIL, 3),
      Node('z', Some(1), 1, NIL, NIL, NIL) ]
  }

  /** Removing "xm" from `ThreeKeys` hangs "xz" below "xa" but leaves its
      parent link on the removed node, so reading its key back by parent
      links gives "z". */
  lemma GraftStaleParent()
    ensures ExactTrie(ThreeKeys(), ThreeKeysTree()) && LinksInRange(ThreeKeys())
    ensures KeyOf(ThreeKeys(), 3) == "xz"
    ensures DeleteNodeAsWritten(ThreeKeys(), 0, 1) == Deleted(ThreeKeysAfter(), 0, NIL)
    ensures ParentsInRange(ThreeKeysAfter()) && KeyOf(ThreeKeysAfter(), 3) == "z"
  {
    var nodes, t, e := ThreeKeys(), ThreeKeysTree(), ThreeKeysAfter();
    assert Shaped(t, nodes);
    assert ExactTrie(nodes, t);
    var n0 := nodes[1 := nodes[1].(data := None)];
    assert LinksInRange(n0);
    assert MovingSlot(n0, 1) == Hi;
    assert ChainEnd(n0, 2, Hi, 4) == 2;
    var n1 := SetLink(n0, 2, Hi, 3);
    var n2 := SetLink(n1, 0, Eq, 2);
    assert ClearSides(SetParent(n2, 2, 0), 1) == e;
    assert DeleteNodeRecursionAsWritten(n0, 0, 1) == Deleted(e, 0, 0);
    assert LinksInRange(e);
    assert DeleteNodeRecursionAsWritten(e, 0, 0) == Deleted(e, 0, NIL);
    assert DeleteLoopAsWritten(e, 0, 0, 4) == Deleted(e, 0, NIL);
    assert Up(e, 0, 1, 3) == [];
    assert Up(e, 1, 3, 4) == [];
    assert Up(nodes, 0, 1, 3) == "x";
    assert Up(nodes, 1, 3, 4) == "x";
  }

  /** Removing the only key of a trie holding just "a": the node is the
      root, its parent is null, and the source dereferences it. */
  lemma RootRemovalCrashes()
    ensures DeleteNodeAsWritten([Node('a', Some(1), NIL, NIL, NIL, NIL)], 0, 0) == NullDereference
  {
  }
}
