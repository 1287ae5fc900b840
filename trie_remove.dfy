/**
 * The loop of `deleteNode`: pruning steps from a node upwards until a step
 * keeps its node. What it removes is the lower end of the path from the
 * root down to the start node, and the path node just above the removed
 * ones is one the pruning step keeps.
 */
module TrieRemove {

  import opened Wrappers
  import opened TrieShape
  import opened TrieSpec
  import opened TrieRead
  import opened TrieDelete
  import opened TriePrune
  import opened TrieOrder

  // ---------------------------------------------------------------------
  // Paths from the root
  // ---------------------------------------------------------------------

  /** The nodes from the root of `t` down to `x`, the root first. */
  function PathTo(t: Tree, x: int): (r: seq<int>)
    requires x in Ids(t)
    ensures |r| >= 1 && r[0] == t.id && r[|r| - 1] == x
    ensures forall i :: 0 <= i < |r| ==> r[i] in Ids(t)
  {
    if t.id == x then [x]
    else if x in Ids(t.lo) then [t.id] + PathTo(t.lo, x)
    else if x in Ids(t.eq) then [t.id] + PathTo(t.eq, x)
    else [t.id] + PathTo(t.hi, x)
  }

  /** The path to a node below a kid of the root goes through that kid. */
  lemma PathToKid(t: Tree, k: Slot, q: int)
    requires Distinct(t) && t.T? && q in Ids(KidTree(t, k))
    ensures q in Ids(t) && PathTo(t, q) == [t.id] + PathTo(KidTree(t, k), q)
  {
    DistinctKid(t, k);
    match k
    case Lo =>
    case Eq =>
      assert q !in Ids(t.lo);
    case Hi =>
      assert q !in Ids(t.lo) && q !in Ids(t.eq);
  }

  /** Dropping the last node of a path that starts with `a`. */
  lemma DropLast(a: int, P: seq<int>)
    requires |P| >= 1
    ensures ([a] + P)[..|[a] + P| - 1] == [a] + P[..|P| - 1]
  {
  }

  /** The parent of a node below the root is the node before it on its
      path, and its own path is that path without the node. */
  lemma {:induction false} PathOfParent(t: Tree, x: int, pid: int)
    requires Distinct(t) && x in Ids(t) && x != t.id
    ensures TreeParent(t, x, pid) in Ids(t)
    ensures |PathTo(t, x)| >= 2
    ensures PathTo(t, TreeParent(t, x, pid)) == PathTo(t, x)[..|PathTo(t, x)| - 1]
    decreases t
  {
    var j := if x in Ids(t.lo) then Lo else if x in Ids(t.eq) then Eq else Hi;
    var kid := KidTree(t, j);
    DistinctKid(t, j);
    OutsideKid(t, x, j);
    PathToKid(t, j, x);
    assert TreeParent(t, x, pid) == TreeParent(kid, x, t.id);
    DropLast(t.id, PathTo(kid, x));
    if kid.id != x {
      PathOfParent(kid, x, t.id);
      var p := TreeParent(kid, x, t.id);
      PathToKid(t, j, p);
    } else {
      assert TreeParent(kid, x, t.id) == t.id;
      assert PathTo(kid, x) == [x];
    }
  }

  /** Every node of the subtree at `x` lies at least as deep as `x`. */
  lemma {:induction false} PathThroughSub(t: Tree, x: int, q: int)
    requires Distinct(t) && x in Ids(t) && q in Ids(Sub(t, x))
    ensures q in Ids(t) && |PathTo(t, x)| <= |PathTo(t, q)|
    decreases t
  {
    if t.id != x {
      var j := if x in Ids(t.lo) then Lo else if x in Ids(t.eq) then Eq else Hi;
      var kid := KidTree(t, j);
      DistinctKid(t, j);
      OutsideKid(t, x, j);
      PathThroughSub(kid, x, q);
      PathToKid(t, j, x);
      PathToKid(t, j, q);
    }
  }

  /** A node that is neither in the subtree at `x` nor in the new subtree
      is in the picture after the replacement exactly when it was before. */
  lemma ReplaceMembership(k: Tree, x: int, R: Tree, q: int)
    requires Distinct(k) && q !in Ids(R) && (x in Ids(k) ==> q !in Ids(Sub(k, x)))
    ensures q in Ids(Replace(k, x, R)) <==> q in Ids(k)
  {
    if x in Ids(k) {
      ReplaceAnyIds(k, x, R);
    } else {
      ReplaceAbsent(k, x, R);
    }
  }

  /** A tree with the same root whose kids hold `q` exactly where the
      kids of `t` do reaches `q` through the same kid. */
  lemma PathAlong(t: Tree, u: Tree, j: Slot, q: int)
    requires Distinct(t) && t.T? && u.T? && t.id == u.id && q != t.id
    requires q in Ids(KidTree(t, j))
    requires forall k :: q in Ids(KidTree(u, k)) <==> q in Ids(KidTree(t, k))
    ensures q in Ids(u) && PathTo(u, q) == [u.id] + PathTo(KidTree(u, j), q)
  {
    DistinctKid(t, j);
    assert q in Ids(KidTree(u, j));
    assert q in Ids(KidTree(u, Lo)) <==> q in Ids(KidTree(t, Lo));
    assert q in Ids(KidTree(u, Eq)) <==> q in Ids(KidTree(t, Eq));
    match j
    case Lo =>
    case Eq =>
      assert q !in Ids(t.lo);
    case Hi =>
      assert q !in Ids(t.lo) && q !in Ids(t.eq);
  }

  /** The path to a node outside the replaced subtree stays the same. */
  lemma {:induction false} PathReplace(t: Tree, x: int, R: Tree, q: int)
    requires Distinct(t) && x in Ids(t) && q in Outside(t, x) && q !in Ids(R)
    ensures q in Ids(Replace(t, x, R)) && PathTo(Replace(t, x, R), q) == PathTo(t, q)
    decreases t
  {
    assert t.id != x;
    var t' := Replace(t, x, R);
    assert t' == T(t.id, Replace(t.lo, x, R), Replace(t.eq, x, R), Replace(t.hi, x, R));
    if t.id != q {
      var j := if q in Ids(t.lo) then Lo else if q in Ids(t.eq) then Eq else Hi;
      var kid := KidTree(t, j);
      var xj := if x in Ids(t.lo) then Lo else if x in Ids(t.eq) then Eq else Hi;
      OutsideKid(t, x, xj);
      forall k
        ensures q in Ids(KidTree(t', k)) <==> q in Ids(KidTree(t, k))
      {
        assert KidTree(t', k) == Replace(KidTree(t, k), x, R);
        DistinctKid(t, k);
        if x in Ids(KidTree(t, k)) {
          OutsideKid(t, x, k);
        }
        ReplaceMembership(KidTree(t, k), x, R, q);
      }
      assert KidTree(t', j) == Replace(kid, x, R);
      DistinctKid(t, j);
      if x in Ids(kid) {
        OutsideKid(t, x, j);
        PathReplace(kid, x, R, q);
      } else {
        ReplaceAbsent(kid, x, R);
      }
      PathToKid(t, j, q);
      PathAlong(t, t', j, q);
    }
  }

  // ---------------------------------------------------------------------
  // The pruning loop
  // ---------------------------------------------------------------------

  /** The nodes of the path `P` from position `k` down. */
  function Lower(P: seq<int>, k: nat): set<int>
    decreases |P| - k
  {
    if k >= |P| then {} else {P[k]} + Lower(P, k + 1)
  }

  /** The pruning promise along the path `P` from the root to the start
      node: the nodes that left are exactly those from position `kept`
      down, and the path node just above them is still there and not one
      the step prunes. */
  ghost predicate PrunedAlong(P: seq<int>, before: set<int>, after: Tree, nodes: seq<Node>, kept: nat) {
    kept <= |P|
    && before - Ids(after) == Lower(P, kept)
    && (0 < kept ==> P[kept - 1] in Ids(after) && 0 <= P[kept - 1] < |nodes| && !Prunable(nodes, P[kept - 1]))
  }

  /** What a step that prunes the path node `kept - 1` leaves: the nodes
      gone from `start` are the path from position `kept - 1` down, and the
      walk goes on at the path node above with the same path, or stops at
      the root. */
  ghost predicate StepFacts(P: seq<int>, start: set<int>, t': Tree, next: int, kept: nat) {
    1 <= kept <= |P| && start - Ids(t') == Lower(P, kept - 1)
    && (next == NIL ==> kept == 1)
    && (next != NIL ==> 2 <= kept && next == P[kept - 2] && next in Ids(t') && PathTo(t', next) == P[..kept - 1])
  }

  /** One pruning step at the node of path position `kept - 1`, whose own
      path is the first `kept` nodes of `P`: the walk goes on at the path
      node above it, with the same path, or stops at the root. */
  lemma PruneStepPath(nodes: seq<Node>, t: Tree, x: int, P: seq<int>, kept: nat, start: set<int>)
    requires ExactTrie(nodes, t) && x in Ids(t) && 1 <= kept <= |P| && P[kept - 1] == x
    requires PathTo(t, x) == P[..kept] && x in start && start - Ids(t) == Lower(P, kept)
    ensures 0 <= x < |nodes| && NodeInRange(|nodes|, nodes[x])
    ensures Prunable(nodes, x) ==>
      StepFacts(P, start, PrunedShape(nodes, t, x), PruneStep(nodes, RootId(t), x).next, kept)
  {
    PrunedNext(nodes, t, x);
    if Prunable(nodes, x) {
      PrunedIds(nodes, t, x);
      RemovedStep(P, start, Ids(t), Ids(PrunedShape(nodes, t, x)), kept);
      if x == t.id {
        assert TreeParent(t, x, NIL) == NIL;
        assert |PathTo(t, x)| == 1;
        assert kept == 1;
      } else {
        ParentOnPath(nodes, t, x, P, kept);
      }
    }
  }

  /** The parent of a pruned node below the root is the path node above
      it, and it keeps its path in the picture after the step. */
  lemma ParentOnPath(nodes: seq<Node>, t: Tree, x: int, P: seq<int>, kept: nat)
    requires ExactTrie(nodes, t) && x in Ids(t) && x != t.id && 0 <= x < |nodes| && Prunable(nodes, x)
    requires 1 <= kept <= |P| && PathTo(t, x) == P[..kept]
    ensures 2 <= kept && TreeParent(t, x, NIL) == P[kept - 2] && TreeParent(t, x, NIL) != NIL
    ensures TreeParent(t, x, NIL) in Ids(Pruned(nodes, t, x))
    ensures PathTo(Pruned(nodes, t, x), TreeParent(t, x, NIL)) == P[..kept - 1]
  {
    PathOfParent(t, x, NIL);
    ParentStays(nodes, t, x);
    var p := TreeParent(t, x, NIL);
    ParentIndex(P, PathTo(t, x), PathTo(t, p), p, kept);
    IdInArena(t, nodes, p);
  }

  /** A node of a shaped picture is an index of the arena. */
  lemma IdInArena(t: Tree, nodes: seq<Node>, i: int)
    requires Shaped(t, nodes) && i in Ids(t)
    ensures 0 <= i < |nodes|
  {
    ShapedIds(t, nodes);
  }

  /** Dropping the last node of a path prefix. */
  lemma ParentIndex(P: seq<int>, A: seq<int>, B: seq<int>, p: int, kept: nat)
    requires kept <= |P| && A == P[..kept] && |A| >= 2 && B == A[..|A| - 1] && B[|B| - 1] == p
    ensures 2 <= kept && B == P[..kept - 1] && p == P[kept - 2]
  {
  }

  /** A step that prunes `x` goes on at the parent of `x`, and the picture
      after it is `Pruned`. */
  lemma PrunedNext(nodes: seq<Node>, t: Tree, x: int)
    requires ExactTrie(nodes, t) && x in Ids(t)
    ensures 0 <= x < |nodes| && NodeInRange(|nodes|, nodes[x])
    ensures Prunable(nodes, x) ==>
      PruneStep(nodes, RootId(t), x).next == TreeParent(t, x, NIL) && PrunedShape(nodes, t, x) == Pruned(nodes, t, x)
  {
    ShapedIds(t, nodes);
    PruneStepKeeps(nodes, t, x);
  }

  /** The parent of a pruned node stays in the picture, on the same path. */
  lemma ParentStays(nodes: seq<Node>, t: Tree, x: int)
    requires ExactTrie(nodes, t) && x in Ids(t) && x != t.id && 0 <= x < |nodes| && Prunable(nodes, x)
    ensures TreeParent(t, x, NIL) in Ids(t) && TreeParent(t, x, NIL) in Ids(Pruned(nodes, t, x))
    ensures PathTo(Pruned(nodes, t, x), TreeParent(t, x, NIL)) == PathTo(t, TreeParent(t, x, NIL))
  {
    PathOfParent(t, x, NIL);
    var p := TreeParent(t, x, NIL);
    NodeFacts(t, nodes, x);
    var X := Sub(t, x);
    ReplacementIds(nodes, X);
    assert p !in Ids(X) by {
      if p in Ids(X) {
        PathThroughSub(t, x, p);
      }
    }
    PathReplace(t, x, Replacement(nodes, X), p);
  }


  /** The nodes left after one more pruned node of the path. */
  lemma RemovedStep(P: seq<int>, before: set<int>, mid: set<int>, after: set<int>, kept: nat)
    requires 1 <= kept <= |P| && P[kept - 1] in mid && P[kept - 1] in before && after == mid - {P[kept - 1]}
    requires before - mid == Lower(P, kept)
    ensures before - after == Lower(P, kept - 1)
  {
    assert Lower(P, kept - 1) == {P[kept - 1]} + Lower(P, kept);
  }

  /** The pruning promise after `kept` nodes of the path `P` stay and the
      walk is at `next`: the nodes gone from `start` are the lower end of
      the path, the walk is at the last path node left when it goes on,
      and that node is kept when it stops. */
  ghost predicate AlongAt(P: seq<int>, start: set<int>, n': seq<Node>, t': Tree, next: int, kept: nat) {
    kept <= |P| && start - Ids(t') == Lower(P, kept)
    && (next != NIL ==> 1 <= kept && next == P[kept - 1] && next in Ids(t') && PathTo(t', next) == P[..kept])
    && (next == NIL && 0 < kept ==> P[kept - 1] in Ids(t') && 0 <= P[kept - 1] < |n'| && !Prunable(n', P[kept - 1]))
  }

  /** One step of the pruning loop keeps the pruning promise along the
      path `P`: `kept'` counts the path nodes left after it. */
  lemma PruneStepAlong(nodes: seq<Node>, t: Tree, x: int, P: seq<int>, kept: nat, start: set<int>) returns (kept': nat)
    requires ExactTrie(nodes, t) && x in Ids(t) && x in start
    requires 1 <= kept <= |P| && x == P[kept - 1] && PathTo(t, x) == P[..kept]
    requires start - Ids(t) == Lower(P, kept)
    ensures 0 <= x < |nodes| && NodeInRange(|nodes|, nodes[x])
    ensures
      var r := PruneStep(nodes, RootId(t), x);
      AlongAt(P, start, r.nodes, PrunedShape(nodes, t, x), r.next, kept')
      && kept' + (if r.next == NIL then 0 else 1) <= kept
  {
    StepRange(nodes, t, x);
    if Prunable(nodes, x) {
      kept' := AlongPruned(nodes, t, x, P, kept, start);
    } else {
      kept' := AlongKept(nodes, t, x, P, kept, start);
    }
  }

  /** `PruneStepAlong` for a step that keeps its node. */
  lemma AlongKept(nodes: seq<Node>, t: Tree, x: int, P: seq<int>, kept: nat, start: set<int>) returns (kept': nat)
    requires Shaped(t, nodes) && x in Ids(t)
    requires 1 <= kept <= |P| && x == P[kept - 1]
    requires start - Ids(t) == Lower(P, kept)
    requires 0 <= x < |nodes| && NodeInRange(|nodes|, nodes[x]) && !Prunable(nodes, x)
    ensures kept' == kept
    ensures
      var r := PruneStep(nodes, RootId(t), x);
      AlongAt(P, start, r.nodes, PrunedShape(nodes, t, x), r.next, kept') && r.next == NIL
  {
    kept' := kept;
    assert PruneStep(nodes, RootId(t), x) == Deleted(nodes, RootId(t), NIL);
    assert PrunedShape(nodes, t, x) == t;
  }

  /** `PruneStepAlong` for a step that prunes its node. */
  lemma AlongPruned(nodes: seq<Node>, t: Tree, x: int, P: seq<int>, kept: nat, start: set<int>) returns (kept': nat)
    requires ExactTrie(nodes, t) && x in Ids(t) && x in start
    requires 1 <= kept <= |P| && x == P[kept - 1] && PathTo(t, x) == P[..kept]
    requires start - Ids(t) == Lower(P, kept)
    requires 0 <= x < |nodes| && NodeInRange(|nodes|, nodes[x]) && Prunable(nodes, x)
    ensures kept' == kept - 1
    ensures
      var r := PruneStep(nodes, RootId(t), x);
      AlongAt(P, start, r.nodes, PrunedShape(nodes, t, x), r.next, kept')
  {
    PruneStepPath(nodes, t, x, P, kept, start);
    var r := PruneStep(nodes, RootId(t), x);
    AlongFrom(P, start, r.nodes, PrunedShape(nodes, t, x), r.next, kept);
    kept' := kept - 1;
  }

  /** The pruning promise after a step that pruned the path node
      `kept - 1`, from what that step leaves. */
  lemma AlongFrom(P: seq<int>, start: set<int>, n': seq<Node>, t': Tree, next: int, kept: nat)
    requires StepFacts(P, start, t', next, kept)
    ensures AlongAt(P, start, n', t', next, kept - 1)
  {
  }

  /** A step that prunes its node takes only that node out of the picture. */
  lemma PrunedIds(nodes: seq<Node>, t: Tree, x: int)
    requires ExactTrie(nodes, t) && x in Ids(t) && 0 <= x < |nodes| && Prunable(nodes, x)
    ensures Ids(PrunedShape(nodes, t, x)) == Ids(t) - {x}
  {
    PruneStepKeeps(nodes, t, x);
  }

  /** Two steps that each keep the keys of the nodes left keep them
      together. */
  lemma KeysChain(mid: Tree, midNodes: seq<Node>, last: Tree, lastNodes: seq<Node>, first: Tree, firstNodes: seq<Node>)
    requires Shaped(first, firstNodes) && Shaped(mid, midNodes) && Shaped(last, lastNodes)
    requires forall q :: q in Ids(last) ==> q in Ids(mid) && PathKey(last, lastNodes, q) == PathKey(mid, midNodes, q)
    requires forall q :: q in Ids(mid) ==> q in Ids(first) && PathKey(mid, midNodes, q) == PathKey(first, firstNodes, q)
    ensures forall q :: q in Ids(last) ==> q in Ids(first) && PathKey(last, lastNodes, q) == PathKey(first, firstNodes, q)
  {
  }

  /** Clearing the data of `x` and pruning leaves every key indexing what
      it did, except a key whose node was `x`, which indexes nothing. */
  lemma RemoveLookup(fold: char -> char, nodes: seq<Node>, t: Tree, x: int, n2: seq<Node>, t2: Tree,
                     k: string, wa: int, wb: int)
    requires Shaped(t, nodes) && (x == NIL || x in Ids(t)) && Ids(t2) <= Ids(t)
    requires x != NIL ==> 0 <= x < |nodes|
    requires x != NIL ==>
      var cleared := nodes[x := nodes[x].(data := None)];
      DataIds(t2, n2) == DataIds(t, cleared) && SameContent(cleared, n2)
    requires x == NIL ==> DataIds(t2, n2) == DataIds(t, nodes) && SameContent(nodes, n2)
    requires Shaped(t2, n2) && forall q :: q in Ids(t2) ==> PathKey(t2, n2, q) == PathKey(t, nodes, q)
    requires KeyedBy(fold, t, nodes, k, wa) && KeyedBy(fold, t2, n2, k, wb)
    ensures DataAt(n2, wb) == if wa == x then None else DataAt(nodes, wa)
  {
    ShapedIds(t, nodes);
    ShapedIds(t2, n2);
    var cleared := if x == NIL then nodes else nodes[x := nodes[x].(data := None)];
    DataIdsIn(t, cleared);
    DataIdsIn(t2, n2);
    if wa == x {
      assert wb != NIL ==> wb == wa;
    } else {
      assert forall q :: q in Ids(t) && q !in Ids(t2) && q != x ==> DataAt(nodes, q) == None by {
        forall q | q in Ids(t) && q !in Ids(t2) && q != x
          ensures DataAt(nodes, q) == None
        {
          assert q !in DataIds(t, cleared);
        }
      }
      LookupFrame(fold, t, nodes, wa, t2, n2, wb, k, x);
    }
  }

  /** What the pruning loop keeps of the trie it started from (`nodes`,
      `t`) in the trie it has reached (`n'`, `t'`): the invariant with exact
      parent links and the order, the characters and data of the arena,
      the data nodes, and the key of every node left. */
  ghost predicate PruneFrame(fold: char -> char, nodes: seq<Node>, t: Tree, n': seq<Node>, t': Tree) {
    Shaped(t, nodes) && ExactTrie(n', t') && Ordered(fold, t', n') && SameContent(nodes, n')
    && Ids(t') <= Ids(t) && DataIds(t', n') == DataIds(t, nodes)
    && forall q :: q in Ids(t') ==> q in Ids(t) && PathKey(t', n', q) == PathKey(t, nodes, q)
  }

  /** Before any step the frame holds trivially. */
  lemma FrameStart(fold: char -> char, nodes: seq<Node>, t: Tree)
    requires ExactTrie(nodes, t) && Ordered(fold, t, nodes)
    ensures PruneFrame(fold, nodes, t, nodes, t)
  {
  }

  /** The node a pruning step looks at is in the arena with its links. */
  lemma StepRange(nodes: seq<Node>, t: Tree, x: int)
    requires ExactTrie(nodes, t) && x in Ids(t)
    ensures 0 <= x < |nodes| && NodeInRange(|nodes|, nodes[x])
  {
    ShapedIds(t, nodes);
    PruneStepKeeps(nodes, t, x);
  }

  /** `PruneStepKeeps` for both outcomes of the step at once. */
  lemma StepFrame(n1: seq<Node>, t1: Tree, x: int)
    requires ExactTrie(n1, t1) && x in Ids(t1)
    ensures 0 <= x < |n1| && NodeInRange(|n1|, n1[x])
    ensures
      var r := PruneStep(n1, RootId(t1), x);
      var t' := PrunedShape(n1, t1, x);
      ExactTrie(r.nodes, t') && r.root == RootId(t') && SameContent(n1, r.nodes)
      && Ids(t') <= Ids(t1) && DataIds(t', r.nodes) == DataIds(t1, n1)
      && (forall q :: q in Ids(t') ==> q in Ids(t1) && PathKey(t', r.nodes, q) == PathKey(t1, n1, q))
  {
    ShapedIds(t1, n1);
    PruneStepKeeps(n1, t1, x);
  }

  /** One pruning step keeps `PruneFrame`. */
  lemma FrameStep(fold: char -> char, nodes: seq<Node>, t: Tree, n1: seq<Node>, t1: Tree, x: int)
    requires PruneFrame(fold, nodes, t, n1, t1) && x in Ids(t1)
    ensures 0 <= x < |n1| && NodeInRange(|n1|, n1[x])
    ensures
      var r := PruneStep(n1, RootId(t1), x);
      PruneFrame(fold, nodes, t, r.nodes, PrunedShape(n1, t1, x)) && r.root == RootId(PrunedShape(n1, t1, x))
  {
    StepFrame(n1, t1, x);
    PrunedOrdered(fold, n1, t1, x);
    var r := PruneStep(n1, RootId(t1), x);
    KeysChain(t1, n1, PrunedShape(n1, t1, x), r.nodes, t, nodes);
  }

  /** The loop of `deleteNode`: pruning steps from `cur` upwards until a
      step keeps its node. Nodes only leave the picture, the arena keeps
      every node's character and data, the order and every key left stay,
      and what leaves is the lower end of the path to `cur`, up to a path
      node the step keeps (`kept` counts the path nodes that stay). */
  method PruneFrom(nodes: seq<Node>, root: int, cur: int, ghost fold: char -> char, ghost t: Tree)
    returns (nodes': seq<Node>, root': int, ghost t': Tree, ghost kept: nat)
    requires ExactTrie(nodes, t) && RootId(t) == root && (cur == NIL || cur in Ids(t))
    requires Ordered(fold, t, nodes)
    ensures PruneFrame(fold, nodes, t, nodes', t') && RootId(t') == root'
    ensures cur == NIL ==> nodes' == nodes && root' == root && t' == t
    ensures cur != NIL ==> PrunedAlong(PathTo(t, cur), Ids(t), t', nodes', kept)
  {
    nodes', root', t' := nodes, root, t;
    if cur == NIL {
      kept := 0;
      return;
    }
    ghost var P := PathTo(t, cur);
    kept := |P|;
    var next := cur;
    assert Ids(t) - Ids(t) == Lower(P, |P|);
    assert P[..|P|] == P;
    FrameStart(fold, nodes, t);
    while next != NIL
      invariant PruneFrame(fold, nodes, t, nodes', t') && RootId(t') == root'
      invariant AlongAt(P, Ids(t), nodes', t', next, kept)
      decreases kept + (if next == NIL then 0 else 1)
    {
      FrameStep(fold, nodes, t, nodes', t', next);
      kept := PruneStepAlong(nodes', t', next, P, kept, Ids(t));
      ghost var after := PrunedShape(nodes', t', next);
      var r := DeleteStep(nodes', root', next, t');
      nodes', root', next, t' := r.nodes, r.root, r.next, after;
    }
  }

  /** Clearing the data of `x` keeps the invariant and the order. */
  lemma ClearOrdered(fold: char -> char, nodes: seq<Node>, t: Tree, x: int)
    requires ExactTrie(nodes, t) && x in Ids(t) && Ordered(fold, t, nodes)
    ensures 0 <= x < |nodes|
    ensures ExactTrie(nodes[x := nodes[x].(data := None)], t)
    ensures Ordered(fold, t, nodes[x := nodes[x].(data := None)])
  {
    ClearData(nodes, t, x);
    ShapedIds(t, nodes);
    OrderedFrame(fold, t, nodes, nodes[x := nodes[x].(data := None)]);
  }

  /** What clearing the data of `x` and pruning from it, as PruneFrom
      describes it, means in terms of the arena before the clearing. */
  lemma ClearedPruned(fold: char -> char, nodes: seq<Node>, t: Tree, x: int, n2: seq<Node>, t2: Tree)
    requires ExactTrie(nodes, t) && x in Ids(t) && 0 <= x < |nodes|
    requires PruneFrame(fold, nodes[x := nodes[x].(data := None)], t, n2, t2)
    ensures 0 <= x < |nodes| && |n2| == |nodes|
    ensures DataIds(t2, n2) == DataIds(t, nodes) - {x}
    ensures forall q :: q in Ids(t2) ==> q in Ids(t) && PathKey(t2, n2, q) == PathKey(t, nodes, q)
    ensures forall q :: 0 <= q < |n2| && q != x ==> n2[q].data == nodes[q].data
    ensures forall q :: 0 <= q < |n2| ==> n2[q].splitchar == nodes[q].splitchar
    ensures n2[x].data == None
  {
    ClearData(nodes, t, x);
  }
}
