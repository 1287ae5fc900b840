/**
 * What the operations of the ternary search trie compute, as functions of
 * the arena. The trie's methods are proved to agree with these functions;
 * the lemmas here state what the functions mean.
 *
 * Characters are compared through `fold`, the lower-casing the trie applies
 * to both sides of every comparison; it is a parameter because it belongs
 * to the platform's culture tables.
 */
module TrieSpec {

  import opened Wrappers
  import opened TrieShape

  /** The character comparison: negative, zero or positive as the folded
      key character sorts before, equal to or after the folded split
      character. */
  function Compare(fold: char -> char, c: char, splitchar: char): (r: int)
    ensures r == 0 <==> fold(c) == fold(splitchar)
    ensures r < 0 <==> fold(c) < fold(splitchar)
  {
    fold(c) as int - fold(splitchar) as int
  }

  /** The slot the walk follows from a node after comparing. */
  function Direction(cmp: int): Slot {
    if cmp == 0 then Eq else if cmp < 0 then Lo else Hi
  }

  // ---------------------------------------------------------------------
  // The read-only walk
  // ---------------------------------------------------------------------

  /** The node the walk for `key[i..]` lands on from `cur`, or NIL. */
  function Walk(nodes: seq<Node>, fold: char -> char, key: string, i: nat, cur: int, ghost t: Tree): (r: int)
    requires Shaped(t, nodes) && RootId(t) == cur && i < |key|
    ensures r == NIL || r in Ids(t)
    decreases t
  {
    if cur == NIL then NIL
    else
      var cmp := Compare(fold, key[i], nodes[cur].splitchar);
      if cmp == 0 then
        if i + 1 == |key| then cur
        else Walk(nodes, fold, key, i + 1, nodes[cur].eq, t.eq)
      else if cmp < 0 then Walk(nodes, fold, key, i, nodes[cur].lo, t.lo)
      else Walk(nodes, fold, key, i, nodes[cur].hi, t.hi)
  }

  /** The walk only reads split characters and kid links. */
  lemma WalkFrame(nodes: seq<Node>, nodes': seq<Node>, fold: char -> char, key: string, i: nat, cur: int, t: Tree)
    requires Shaped(t, nodes) && RootId(t) == cur && i < |key|
    requires LinksKept(nodes, nodes', Ids(t))
    ensures Shaped(t, nodes')
    ensures Walk(nodes', fold, key, i, cur, t) == Walk(nodes, fold, key, i, cur, t)
    decreases t
  {
    ShapedFrame(t, nodes, nodes');
    if cur != NIL {
      LinksKeptSubset(nodes, nodes', Ids(t), Ids(t.lo));
      LinksKeptSubset(nodes, nodes', Ids(t), Ids(t.eq));
      LinksKeptSubset(nodes, nodes', Ids(t), Ids(t.hi));
      var cmp := Compare(fold, key[i], nodes[cur].splitchar);
      if cmp == 0 {
        if i + 1 < |key| {
          WalkFrame(nodes, nodes', fold, key, i + 1, nodes[cur].eq, t.eq);
        }
      } else if cmp < 0 {
        WalkFrame(nodes, nodes', fold, key, i, nodes[cur].lo, t.lo);
      } else {
        WalkFrame(nodes, nodes', fold, key, i, nodes[cur].hi, t.hi);
      }
    }
  }

  // ---------------------------------------------------------------------
  // Walk-and-create insertion
  // ---------------------------------------------------------------------

  /** The result of an insertion: the new arena, the landing node and the
      new picture of the subtree the insertion started from. */
  datatype Inserted = Inserted(nodes: seq<Node>, landing: int, ghost tree: Tree)

  /** From a node just created with split character `key[i]`: the walk
      matches it at once, so the rest of the key becomes a chain of eq
      kids, each created with the next key character. */
  ghost function Chain(nodes: seq<Node>, key: string, i: nat, n: int): Inserted
    requires 0 <= n < |nodes| && i < |key|
    decreases |key| - i
  {
    if i + 1 == |key| then Inserted(nodes, n, Leaf(n))
    else
      var m := |nodes|;
      var nodes1 := nodes[n := nodes[n].(eq := m)] + [NewNode(key[i + 1], n)];
      var rest := Chain(nodes1, key, i + 1, m);
      Inserted(rest.nodes, rest.landing, T(n, Nil, rest.tree, Nil))
  }

  /** Insertion of `key[i..]` from the existing node `cur`: the walk of
      `Walk`, where a missing kid is created with the unconsumed key
      character and `cur` as its parent. */
  ghost function InsertFrom(nodes: seq<Node>, fold: char -> char, key: string, i: nat, cur: int, t: Tree): Inserted
    requires Shaped(t, nodes) && RootId(t) == cur && cur != NIL && i < |key|
    decreases |key| - i, t
  {
    var cmp := Compare(fold, key[i], nodes[cur].splitchar);
    var s := Direction(cmp);
    var j := if cmp == 0 then i + 1 else i;
    if cmp == 0 && i + 1 == |key| then Inserted(nodes, cur, t)
    else if Kid(nodes[cur], s) != NIL then
      var rest := InsertFrom(nodes, fold, key, j, Kid(nodes[cur], s), KidTree(t, s));
      Inserted(rest.nodes, rest.landing, SetKidTree(t, s, rest.tree))
    else
      var m := |nodes|;
      var nodes1 := nodes[cur := SetKid(nodes[cur], s, m)] + [NewNode(key[j], cur)];
      var rest := Chain(nodes1, key, j, m);
      Inserted(rest.nodes, rest.landing, SetKidTree(t, s, rest.tree))
  }

  /** `GetOrCreateNode` on a non-empty key: a missing root is created with
      the first key character first. */
  ghost function Insert(nodes: seq<Node>, root: int, fold: char -> char, key: string, t: Tree): (r: Inserted)
    requires Shaped(t, nodes) && RootId(t) == root && |key| > 0 && Distinct(t)
    ensures 0 <= r.landing < |r.nodes|
  {
    if root == NIL then
      ChainProps(nodes + [NewNode(key[0], NIL)], fold, key, 0, |nodes|);
      ShapedIds(Chain(nodes + [NewNode(key[0], NIL)], key, 0, |nodes|).tree,
                Chain(nodes + [NewNode(key[0], NIL)], key, 0, |nodes|).nodes);
      Chain(nodes + [NewNode(key[0], NIL)], key, 0, |nodes|)
    else
      InsertFromPicture(nodes, fold, key, 0, root, t);
      ShapedIds(InsertFrom(nodes, fold, key, 0, root, t).tree, InsertFrom(nodes, fold, key, 0, root, t).nodes);
      InsertFrom(nodes, fold, key, 0, root, t)
  }

  /** Node `x` keeps its character, data and parent link. */
  ghost predicate SameAt(nodes: seq<Node>, nodes': seq<Node>, x: int) {
    0 <= x < |nodes| && x < |nodes'|
    && nodes'[x].splitchar == nodes[x].splitchar && nodes'[x].data == nodes[x].data
    && nodes'[x].parent == nodes[x].parent
  }

  /** One step of the walk from a node that does not end it. */
  lemma WalkStep(nodes: seq<Node>, fold: char -> char, key: string, i: nat, cur: int, t: Tree)
    requires Shaped(t, nodes) && RootId(t) == cur && cur != NIL && i < |key|
    requires Compare(fold, key[i], nodes[cur].splitchar) != 0 || i + 1 < |key|
    ensures
      var cmp := Compare(fold, key[i], nodes[cur].splitchar);
      var s := Direction(cmp);
      var j := if cmp == 0 then i + 1 else i;
      Shaped(KidTree(t, s), nodes) && RootId(KidTree(t, s)) == Kid(nodes[cur], s) && j < |key|
      && Walk(nodes, fold, key, i, cur, t) == Walk(nodes, fold, key, j, Kid(nodes[cur], s), KidTree(t, s))
  {
  }

  /** The new-node chain: it appends one node per remaining key character,
      each the only (eq) kid of the one before, and walking the key from
      its first node lands on its last. */
  lemma {:induction false} ChainProps(nodes: seq<Node>, fold: char -> char, key: string, i: nat, n: int)
    requires 0 <= n < |nodes| && i < |key|
    requires nodes[n].lo == NIL && nodes[n].eq == NIL && nodes[n].hi == NIL
    requires nodes[n].splitchar == key[i]
    ensures
      var r := Chain(nodes, key, i, n);
      |r.nodes| == |nodes| + (|key| - i - 1)
      && (forall j :: 0 <= j < |nodes| && j != n ==> r.nodes[j] == nodes[j])
      && r.nodes[n].splitchar == nodes[n].splitchar && r.nodes[n].data == nodes[n].data
      && r.nodes[n].parent == nodes[n].parent
      && Shaped(r.tree, r.nodes) && RootId(r.tree) == n && Distinct(r.tree)
      && (forall j :: j in Ids(r.tree) <==> j == n || |nodes| <= j < |r.nodes|)
      && Size(r.tree) == |key| - i
      && (forall j :: |nodes| <= j < |r.nodes| ==> r.nodes[j].data == None)
      && ParentsExact(r.tree, nodes[n].parent, r.nodes)
      && r.landing in Ids(r.tree)
      && Walk(r.nodes, fold, key, i, n, r.tree) == r.landing
    decreases |key| - i
  {
    var r := Chain(nodes, key, i, n);
    if i + 1 < |key| {
      var m := |nodes|;
      var nodes1 := nodes[n := nodes[n].(eq := m)] + [NewNode(key[i + 1], n)];
      ChainProps(nodes1, fold, key, i + 1, m);
      var rest := Chain(nodes1, key, i + 1, m);
      assert r.nodes == rest.nodes && r.tree == T(n, Nil, rest.tree, Nil);
      assert r.nodes[n] == nodes1[n];
      assert Shaped(r.tree, r.nodes);
      assert ParentsExact(r.tree, nodes[n].parent, r.nodes);
      WalkStep(r.nodes, fold, key, i, n, r.tree);
    }
  }

  /** What an insertion from `cur` does to the arena itself: old nodes
      outside the subtree are untouched, nodes inside keep their character,
      data and parent link, and the appended nodes carry no data. */
  ghost predicate ArenaGrown(nodes: seq<Node>, t: Tree, nodes': seq<Node>) {
    |nodes'| >= |nodes|
    && (forall q :: 0 <= q < |nodes| && q !in Ids(t) ==> nodes'[q] == nodes[q])
    && (forall q :: q in Ids(t) ==> SameAt(nodes, nodes', q))
    && (forall q :: |nodes| <= q < |nodes'| ==> nodes'[q].data == None)
  }

  /** The new picture: it keeps the old subtree's nodes, adds only appended
      ones, and grows by exactly the number appended. */
  ghost predicate PictureGrown(nodes: seq<Node>, t: Tree, cur: int, r: Inserted) {
    Shaped(r.tree, r.nodes) && RootId(r.tree) == cur && Distinct(r.tree)
    && Ids(t) <= Ids(r.tree)
    && (forall q :: q in Ids(r.tree) ==> q in Ids(t) || q >= |nodes|)
    && (forall q :: |nodes| <= q < |r.nodes| ==> q in Ids(r.tree))
    && Size(r.tree) == Size(t) + (|r.nodes| - |nodes|)
    && r.landing in Ids(r.tree)
  }

  lemma {:induction false} InsertFromArena(nodes: seq<Node>, fold: char -> char, key: string, i: nat, cur: int, t: Tree)
    requires Shaped(t, nodes) && RootId(t) == cur && cur != NIL && i < |key|
    ensures ArenaGrown(nodes, t, InsertFrom(nodes, fold, key, i, cur, t).nodes)
    decreases |key| - i, t
  {
    var r := InsertFrom(nodes, fold, key, i, cur, t);
    var cmp := Compare(fold, key[i], nodes[cur].splitchar);
    var s := Direction(cmp);
    var j := if cmp == 0 then i + 1 else i;
    ShapedIds(t, nodes);
    ShapedKids(t, nodes);
    if cmp == 0 && i + 1 == |key| {
    } else if Kid(nodes[cur], s) != NIL {
      InsertFromArena(nodes, fold, key, j, Kid(nodes[cur], s), KidTree(t, s));
      SetKidIds(t, s, Nil);
    } else {
      var m := |nodes|;
      var base := nodes[cur := SetKid(nodes[cur], s, m)] + [NewNode(key[j], cur)];
      ChainProps(base, fold, key, j, m);
      CreatedArena(nodes, base, t, Chain(base, key, j, m).nodes);
    }
  }

  /** The arena after a kid of the root of `t` was created and a chain
      grown from it. */
  lemma CreatedArena(nodes: seq<Node>, base: seq<Node>, t: Tree, R: seq<Node>)
    requires t.T? && forall q :: q in Ids(t) ==> 0 <= q < |nodes|
    requires |base| == |nodes| + 1 && base[|nodes|].data == None
    requires forall q :: 0 <= q < |nodes| && q != t.id ==> base[q] == nodes[q]
    requires SameAt(nodes, base, t.id)
    requires |R| >= |base| && forall q :: 0 <= q < |base| && q != |nodes| ==> R[q] == base[q]
    requires SameAt(base, R, |nodes|)
    requires forall q :: |base| <= q < |R| ==> R[q].data == None
    ensures ArenaGrown(nodes, t, R)
  {
  }

  lemma {:induction false} InsertFromPicture(nodes: seq<Node>, fold: char -> char, key: string, i: nat, cur: int, t: Tree)
    requires Shaped(t, nodes) && RootId(t) == cur && cur != NIL && i < |key| && Distinct(t)
    ensures PictureGrown(nodes, t, cur, InsertFrom(nodes, fold, key, i, cur, t))
    decreases |key| - i, t
  {
    var r := InsertFrom(nodes, fold, key, i, cur, t);
    var cmp := Compare(fold, key[i], nodes[cur].splitchar);
    var s := Direction(cmp);
    var j := if cmp == 0 then i + 1 else i;
    ShapedKids(t, nodes);
    if cmp == 0 && i + 1 == |key| {
    } else {
      var kt := KidTree(t, s);
      var rest: Inserted;
      var base: seq<Node>;
      if Kid(nodes[cur], s) != NIL {
        InsertFromPicture(nodes, fold, key, j, Kid(nodes[cur], s), kt);
        InsertFromArena(nodes, fold, key, j, Kid(nodes[cur], s), kt);
        rest := InsertFrom(nodes, fold, key, j, Kid(nodes[cur], s), kt);
        base := nodes;
      } else {
        var m := |nodes|;
        base := nodes[cur := SetKid(nodes[cur], s, m)] + [NewNode(key[j], cur)];
        ChainProps(base, fold, key, j, m);
        rest := Chain(base, key, j, m);
        assert kt == Nil;
      }
      assert r.nodes == rest.nodes && r.tree == SetKidTree(t, s, rest.tree);
      StitchShaped(nodes, base, t, s, rest);
    }
  }

  /** The picture stitched back under `cur` after the recursive step. */
  lemma StitchShaped(nodes: seq<Node>, base: seq<Node>, t: Tree, s: Slot, rest: Inserted)
    requires t.T? && Distinct(t) && Shaped(t, nodes)
    requires |base| >= |nodes| && forall q :: 0 <= q < |nodes| && q != t.id ==> base[q] == nodes[q]
    requires forall k :: k != s ==> Kid(base[t.id], k) == Kid(nodes[t.id], k)
    requires Kid(base[t.id], s) == RootId(rest.tree)
    requires |rest.nodes| >= |base|
    requires forall q :: 0 <= q < |base| && q !in Ids(rest.tree) ==> rest.nodes[q] == base[q]
    requires Shaped(rest.tree, rest.nodes) && Distinct(rest.tree)
    requires Ids(KidTree(t, s)) <= Ids(rest.tree)
    requires forall q :: q in Ids(rest.tree) ==> q in Ids(KidTree(t, s)) || q >= |nodes|
    requires forall q :: |nodes| <= q < |rest.nodes| ==> q in Ids(rest.tree)
    requires Size(rest.tree) == Size(KidTree(t, s)) + (|rest.nodes| - |nodes|)
    requires rest.landing in Ids(rest.tree)
    ensures PictureGrown(nodes, t, t.id, Inserted(rest.nodes, rest.landing, SetKidTree(t, s, rest.tree)))
  {
    ShapedIds(t, nodes);
    StitchLinks(nodes, base, t, s, rest.tree, rest.nodes);
    StitchSets(t, s, rest.tree, |nodes|, |rest.nodes|);
  }

  lemma StitchLinks(nodes: seq<Node>, base: seq<Node>, t: Tree, s: Slot, x: Tree, R: seq<Node>)
    requires t.T? && Distinct(t) && Shaped(t, nodes)
    requires forall q :: q in Ids(t) ==> 0 <= q < |nodes|
    requires |base| >= |nodes| && forall q :: 0 <= q < |nodes| && q != t.id ==> base[q] == nodes[q]
    requires forall k :: k != s ==> Kid(base[t.id], k) == Kid(nodes[t.id], k)
    requires Kid(base[t.id], s) == RootId(x)
    requires |R| >= |base| && forall q :: 0 <= q < |base| && q !in Ids(x) ==> R[q] == base[q]
    requires Shaped(x, R)
    requires forall q :: q in Ids(x) ==> q in Ids(KidTree(t, s)) || q >= |nodes|
    ensures Shaped(SetKidTree(t, s, x), R)
  {
    var t' := SetKidTree(t, s, x);
    ShapedKids(t, nodes);
    SetKidIds(t, s, x);
    assert R[t.id] == base[t.id];
    forall k | k != s
      ensures Shaped(KidTree(t', k), R)
    {
      assert LinksKept(nodes, R, Ids(KidTree(t, k)));
      ShapedFrame(KidTree(t, k), nodes, R);
    }
    ShapedNode(t', R);
  }

  lemma StitchSets(t: Tree, s: Slot, x: Tree, n: int, n': int)
    requires t.T? && Distinct(t) && Distinct(x)
    requires forall q :: q in Ids(t) ==> 0 <= q < n
    requires Ids(KidTree(t, s)) <= Ids(x)
    requires forall q :: q in Ids(x) ==> q in Ids(KidTree(t, s)) || q >= n
    requires forall q :: n <= q < n' ==> q in Ids(x)
    requires Size(x) == Size(KidTree(t, s)) + (n' - n)
    ensures Distinct(SetKidTree(t, s, x))
    ensures Ids(t) <= Ids(SetKidTree(t, s, x))
    ensures forall q :: q in Ids(SetKidTree(t, s, x)) ==> q in Ids(t) || q >= n
    ensures forall q :: n <= q < n' ==> q in Ids(SetKidTree(t, s, x))
    ensures Size(SetKidTree(t, s, x)) == Size(t) + (n' - n)
  {
    SetKidIds(t, s, x);
    forall q | q in Ids(x)
      ensures q != t.id && q !in OtherIds(t, s)
    {
      if q !in Ids(KidTree(t, s)) {
        assert q >= n;
      }
    }
    DistinctSetKid(t, s, x);
  }

  lemma {:induction false} InsertFromWalk(nodes: seq<Node>, fold: char -> char, key: string, i: nat, cur: int, t: Tree)
    requires Shaped(t, nodes) && RootId(t) == cur && cur != NIL && i < |key| && Distinct(t)
    ensures
      var r := InsertFrom(nodes, fold, key, i, cur, t);
      Shaped(r.tree, r.nodes) && Walk(r.nodes, fold, key, i, cur, r.tree) == r.landing
    decreases |key| - i, t
  {
    var r := InsertFrom(nodes, fold, key, i, cur, t);
    var cmp := Compare(fold, key[i], nodes[cur].splitchar);
    var s := Direction(cmp);
    var j := if cmp == 0 then i + 1 else i;
    InsertFromArena(nodes, fold, key, i, cur, t);
    InsertFromPicture(nodes, fold, key, i, cur, t);
    ShapedKids(t, nodes);
    if cmp == 0 && i + 1 == |key| {
    } else {
      if Kid(nodes[cur], s) != NIL {
        InsertFromWalk(nodes, fold, key, j, Kid(nodes[cur], s), KidTree(t, s));
      } else {
        var m := |nodes|;
        var base := nodes[cur := SetKid(nodes[cur], s, m)] + [NewNode(key[j], cur)];
        ChainProps(base, fold, key, j, m);
      }
      assert r.nodes[cur].splitchar == nodes[cur].splitchar;
      WalkStep(r.nodes, fold, key, i, cur, r.tree);
    }
  }

  /** When the key is already there, insertion changes nothing. */
  lemma {:induction false} InsertFromFound(nodes: seq<Node>, fold: char -> char, key: string, i: nat, cur: int, t: Tree)
    requires Shaped(t, nodes) && RootId(t) == cur && cur != NIL && i < |key|
    requires Walk(nodes, fold, key, i, cur, t) != NIL
    ensures InsertFrom(nodes, fold, key, i, cur, t) == Inserted(nodes, Walk(nodes, fold, key, i, cur, t), t)
    decreases |key| - i, t
  {
    var cmp := Compare(fold, key[i], nodes[cur].splitchar);
    var s := Direction(cmp);
    var j := if cmp == 0 then i + 1 else i;
    if !(cmp == 0 && i + 1 == |key|) {
      WalkStep(nodes, fold, key, i, cur, t);
      InsertFromFound(nodes, fold, key, j, Kid(nodes[cur], s), KidTree(t, s));
      SetKidSame(t, s);
    }
  }

  /** Insertion keeps every parent link right: the new nodes name their
      parent in the new picture, and old links are not touched. */
  lemma {:induction false} InsertFromParents(nodes: seq<Node>, fold: char -> char, key: string, i: nat, cur: int, t: Tree,
                                             pid: int, dead: set<int>)
    requires Shaped(t, nodes) && RootId(t) == cur && cur != NIL && i < |key| && Distinct(t)
    requires ParentsOk(t, pid, nodes, dead)
    ensures
      var r := InsertFrom(nodes, fold, key, i, cur, t);
      ParentsOk(r.tree, pid, r.nodes, dead)
    decreases |key| - i, t
  {
    var r := InsertFrom(nodes, fold, key, i, cur, t);
    var cmp := Compare(fold, key[i], nodes[cur].splitchar);
    var s := Direction(cmp);
    var j := if cmp == 0 then i + 1 else i;
    if !(cmp == 0 && i + 1 == |key|) {
      InsertFromArena(nodes, fold, key, i, cur, t);
      ShapedIds(t, nodes);
      ShapedKids(t, nodes);
      ParentsKids(t, pid, nodes, dead);
      if Kid(nodes[cur], s) != NIL {
        InsertFromParents(nodes, fold, key, j, Kid(nodes[cur], s), KidTree(t, s), cur, dead);
      } else {
        var m := |nodes|;
        var base := nodes[cur := SetKid(nodes[cur], s, m)] + [NewNode(key[j], cur)];
        ChainProps(base, fold, key, j, m);
        ExactIsOk(Chain(base, key, j, m).tree, cur, r.nodes, dead);
      }
      SetKidIds(t, s, Nil);
      forall k | k != s
        ensures ParentsOk(KidTree(r.tree, k), cur, r.nodes, dead)
      {
        assert ParentsKept(nodes, r.nodes, Ids(KidTree(t, k)));
        ParentsFrame(KidTree(t, k), cur, nodes, dead, r.nodes, dead);
      }
      assert SameAt(nodes, r.nodes, cur);
      ParentsNode(r.tree, pid, r.nodes, dead);
    }
  }

  /** `GetOrCreateNode` on the whole trie: the arena only grows, the new
      picture holds the old one's nodes and the appended ones, the walk of
      the key lands on the returned node, parent links stay right, and a
      key already present changes nothing. */
  lemma InsertProps(nodes: seq<Node>, root: int, fold: char -> char, key: string, t: Tree, dead: set<int>)
    requires Shaped(t, nodes) && RootId(t) == root && |key| > 0 && Distinct(t)
    requires ParentsOk(t, NIL, nodes, dead)
    ensures
      var r := Insert(nodes, root, fold, key, t);
      ArenaGrown(nodes, t, r.nodes)
      && Shaped(r.tree, r.nodes) && Distinct(r.tree)
      && RootId(r.tree) == (if root == NIL then |nodes| else root)
      && Ids(t) <= Ids(r.tree) && (forall q :: q in Ids(r.tree) ==> q in Ids(t) || q >= |nodes|)
      && (forall q :: |nodes| <= q < |r.nodes| ==> q in Ids(r.tree))
      && Size(r.tree) == Size(t) + (|r.nodes| - |nodes|)
      && r.landing in Ids(r.tree)
      && Walk(r.nodes, fold, key, 0, RootId(r.tree), r.tree) == r.landing
      && ParentsOk(r.tree, NIL, r.nodes, dead)
    ensures root != NIL && Walk(nodes, fold, key, 0, root, t) != NIL ==>
      Insert(nodes, root, fold, key, t) == Inserted(nodes, Walk(nodes, fold, key, 0, root, t), t)
  {
    var r := Insert(nodes, root, fold, key, t);
    if root == NIL {
      var base := nodes + [NewNode(key[0], NIL)];
      ChainProps(base, fold, key, 0, |nodes|);
      ExactIsOk(r.tree, NIL, r.nodes, dead);
    } else {
      InsertFromArena(nodes, fold, key, 0, root, t);
      InsertFromPicture(nodes, fold, key, 0, root, t);
      InsertFromWalk(nodes, fold, key, 0, root, t);
      InsertFromParents(nodes, fold, key, 0, root, t, NIL, dead);
      if Walk(nodes, fold, key, 0, root, t) != NIL {
        InsertFromFound(nodes, fold, key, 0, root, t);
      }
    }
  }

  // ---------------------------------------------------------------------
  // The whole trie
  // ---------------------------------------------------------------------

  /** Every parent link names a node of the arena or NIL. */
  ghost predicate ParentsInRange(nodes: seq<Node>) {
    forall q :: 0 <= q < |nodes| ==> -1 <= nodes[q].parent < |nodes|
  }

  /** The nodes a two-child deletion unlinked: in the arena, out of the
      picture, and without kids. */
  ghost predicate DeadOk(nodes: seq<Node>, t: Tree, dead: set<int>) {
    forall d :: d in dead ==>
      0 <= d < |nodes| && d !in Ids(t) && nodes[d].lo == NIL && nodes[d].eq == NIL && nodes[d].hi == NIL
  }

  /** The arena invariant of the trie. */
  ghost predicate TrieOk(nodes: seq<Node>, root: int, t: Tree, dead: set<int>) {
    Shaped(t, nodes) && RootId(t) == root && Distinct(t)
    && ParentsOk(t, NIL, nodes, dead) && DeadOk(nodes, t, dead) && ParentsInRange(nodes)
  }

  lemma ParentsOkRange(t: Tree, pid: int, nodes: seq<Node>, dead: set<int>)
    requires ParentsOk(t, pid, nodes, dead) && Shaped(t, nodes) && -1 <= pid < |nodes|
    requires forall d :: d in dead ==> 0 <= d < |nodes|
    ensures forall q :: q in Ids(t) ==> 0 <= q < |nodes| && -1 <= nodes[q].parent < |nodes|
  {
    ShapedIds(t, nodes);
    if t.T? {
      ParentsOkRange(t.lo, t.id, nodes, dead);
      ParentsOkRange(t.eq, t.id, nodes, dead);
      ParentsOkRange(t.hi, t.id, nodes, dead);
    }
  }

  /** Insertion keeps the arena invariant. */
  lemma InsertKeepsTrie(nodes: seq<Node>, root: int, fold: char -> char, key: string, t: Tree, dead: set<int>)
    requires TrieOk(nodes, root, t, dead) && |key| > 0
    ensures
      var r := Insert(nodes, root, fold, key, t);
      TrieOk(r.nodes, RootId(r.tree), r.tree, dead)
  {
    var r := Insert(nodes, root, fold, key, t);
    InsertProps(nodes, root, fold, key, t, dead);
    ParentsOkRange(r.tree, NIL, r.nodes, dead);
    forall q | 0 <= q < |r.nodes|
      ensures -1 <= r.nodes[q].parent < |r.nodes|
    {
      if q !in Ids(r.tree) {
        assert r.nodes[q] == nodes[q];
      }
    }
  }

  /** The loop of `GetOrCreateNode` on the arena: the walk of `Walk`,
      creating each missing node with the unconsumed key character (and a
      missing root with the first one). It computes `Insert`. */
  method CreatePath(nodes: seq<Node>, root: int, fold: char -> char, key: string, ghost t: Tree)
    returns (arena: seq<Node>, top: int, cur: int)
    requires Shaped(t, nodes) && RootId(t) == root && |key| > 0 && Distinct(t)
    ensures
      var ins := Insert(nodes, root, fold, key, t);
      arena == ins.nodes && cur == ins.landing && top == RootId(ins.tree)
  {
      ghost var spec := Insert(nodes, root, fold, key, t);
      arena := nodes;
      ghost var created := false;
      ghost var sub := t;
      top := root;
      if top == NIL {
        arena := arena + [NewNode(key[0], NIL)];
        top := |arena| - 1;
        created := true;
        sub := Leaf(top);
      }
      cur := top;
      var i := 0;
      while i < |key|
        invariant 0 <= i <= |key| && 0 <= cur < |arena|
        invariant i == |key| ==> spec.nodes == arena && spec.landing == cur
        invariant i < |key| && created ==>
          arena[cur].eq == NIL && arena[cur].splitchar == key[i]
          && spec.nodes == Chain(arena, key, i, cur).nodes && spec.landing == Chain(arena, key, i, cur).landing
        invariant i < |key| && !created ==>
          Shaped(sub, arena) && RootId(sub) == cur
          && spec.nodes == InsertFrom(arena, fold, key, i, cur, sub).nodes
          && spec.landing == InsertFrom(arena, fold, key, i, cur, sub).landing
        invariant top == RootId(spec.tree)
        decreases |key| - i, if created then 0 else Size(sub) + 1
      {
        var charComp := Compare(fold, key[i], arena[cur].splitchar);
        if created {
          ChainStep(arena, fold, key, i, cur);
        } else {
          InsertFromStep(arena, fold, key, i, cur, sub);
        }
        if charComp == 0 {
          i := i + 1;
          if i == |key| {
            break;
          }
          if arena[cur].eq == NIL {
            arena := arena[cur := arena[cur].(eq := |arena|)] + [NewNode(key[i], cur)];
            created := true;
          } else {
            sub := sub.eq;
          }
          cur := arena[cur].eq;
        } else if charComp < 0 {
          if arena[cur].lo == NIL {
            arena := arena[cur := arena[cur].(lo := |arena|)] + [NewNode(key[i], cur)];
            created := true;
          } else {
            sub := sub.lo;
          }
          cur := arena[cur].lo;
        } else {
          if arena[cur].hi == NIL {
            arena := arena[cur := arena[cur].(hi := |arena|)] + [NewNode(key[i], cur)];
            created := true;
          } else {
            sub := sub.hi;
          }
          cur := arena[cur].hi;
        }
      }
  }

  /** One step of `InsertFrom`, in the terms of the loop that computes it. */
  lemma InsertFromStep(nodes: seq<Node>, fold: char -> char, key: string, i: nat, cur: int, t: Tree)
    requires Shaped(t, nodes) && RootId(t) == cur && cur != NIL && i < |key|
    ensures
      var cmp := Compare(fold, key[i], nodes[cur].splitchar);
      var s := Direction(cmp);
      var j := if cmp == 0 then i + 1 else i;
      var r := InsertFrom(nodes, fold, key, i, cur, t);
      var m := |nodes|;
      (cmp == 0 && i + 1 == |key| ==> r.nodes == nodes && r.landing == cur)
      && (!(cmp == 0 && i + 1 == |key|) && Kid(nodes[cur], s) != NIL ==>
            j < |key| && Shaped(KidTree(t, s), nodes) && RootId(KidTree(t, s)) == Kid(nodes[cur], s)
            && r.nodes == InsertFrom(nodes, fold, key, j, Kid(nodes[cur], s), KidTree(t, s)).nodes
            && r.landing == InsertFrom(nodes, fold, key, j, Kid(nodes[cur], s), KidTree(t, s)).landing)
      && (!(cmp == 0 && i + 1 == |key|) && Kid(nodes[cur], s) == NIL ==>
            j < |key|
            && r.nodes == Chain(nodes[cur := SetKid(nodes[cur], s, m)] + [NewNode(key[j], cur)], key, j, m).nodes
            && r.landing == Chain(nodes[cur := SetKid(nodes[cur], s, m)] + [NewNode(key[j], cur)], key, j, m).landing)
  {
    ShapedKids(t, nodes);
  }

  /** One step of `Chain`: a new node is matched at once. */
  lemma ChainStep(nodes: seq<Node>, fold: char -> char, key: string, i: nat, n: int)
    requires 0 <= n < |nodes| && i < |key| && nodes[n].splitchar == key[i]
    ensures Compare(fold, key[i], nodes[n].splitchar) == 0
    ensures
      var r := Chain(nodes, key, i, n);
      var m := |nodes|;
      (i + 1 == |key| ==> r.nodes == nodes && r.landing == n)
      && (i + 1 < |key| ==>
            r.nodes == Chain(nodes[n := nodes[n].(eq := m)] + [NewNode(key[i + 1], n)], key, i + 1, m).nodes
            && r.landing == Chain(nodes[n := nodes[n].(eq := m)] + [NewNode(key[i + 1], n)], key, i + 1, m).landing)
  {
  }

  /** Changing one node's data leaves the arena invariant and every walk
      as they were. */
  lemma SetDataKeepsTrie(nodes: seq<Node>, root: int, t: Tree, dead: set<int>, n: int, v: Option<int>)
    requires TrieOk(nodes, root, t, dead) && 0 <= n < |nodes|
    ensures TrieOk(nodes[n := nodes[n].(data := v)], root, t, dead)
    ensures LinksKept(nodes, nodes[n := nodes[n].(data := v)], Ids(t))
  {
    var nodes' := nodes[n := nodes[n].(data := v)];
    ShapedIds(t, nodes);
    ShapedFrame(t, nodes, nodes');
    ParentsFrame(t, NIL, nodes, dead, nodes', dead);
  }

  /** The cap a result list is given: a negative request means no cap. */
  function ReturnCap(numReturnValues: int): (r: int)
    ensures r == -1 || r >= 0
    ensures numReturnValues >= 0 ==> r == numReturnValues
    ensures numReturnValues < 0 ==> r == -1
  {
    if numReturnValues < 0 then -1 else numReturnValues
  }

  /** The number of mismatches `MatchAlmost` accepts, clamped to 0..3. */
  function ClampDiff(diff: int): (r: int)
    ensures 0 <= r <= 3
    ensures 0 <= diff <= 3 ==> r == diff
    ensures diff < 0 ==> r == 0
    ensures diff > 3 ==> r == 3
  {
    if diff < 0 then 0 else if diff > 3 then 3 else diff
  }
}
