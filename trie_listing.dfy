/**
 * What the listings of the ternary search trie promise beyond soundness:
 * `sortKeys` and `matchPrefix` list their keys in alphabetical order (the
 * order of the folded characters, a key before its extensions), and
 * without a cap `matchPrefix` and `matchAlmost` list every key of the trie
 * that qualifies. Both rest on the search-tree order of the picture.
 */
module TrieListing {

  import opened TrieShape
  import opened TrieSpec
  import opened TrieRead
  import opened TriePrune
  import opened TrieOrder
  import opened TrieAlmost

  // ---------------------------------------------------------------------
  // The alphabetical order of keys
  // ---------------------------------------------------------------------

  /** `a` sorts strictly before `b`: at the first position where their
      folded characters differ `a` has the smaller one, or `a` is a proper
      prefix of `b` up to `fold`. */
  ghost predicate KeyLess(fold: char -> char, a: string, b: string)
    decreases |a|
  {
    0 < |b|
    && (|a| == 0 || fold(a[0]) < fold(b[0])
        || (fold(a[0]) == fold(b[0]) && KeyLess(fold, a[1..], b[1..])))
  }

  /** A list of keys in strictly increasing alphabetical order. */
  ghost predicate Sorted(fold: char -> char, ks: seq<string>) {
    forall i, j :: 0 <= i < j < |ks| ==> KeyLess(fold, ks[i], ks[j])
  }

  /** No key sorts before a key equal to it up to `fold`. */
  lemma {:induction false} KeyLessIrreflexive(fold: char -> char, a: string, b: string)
    requires FoldEq(fold, a, b)
    ensures !KeyLess(fold, a, b)
    decreases |a|
  {
    if |a| > 0 {
      assert fold(a[0]) == fold(b[0]);
      assert FoldEq(fold, a[1..], b[1..]) by {
        forall k | 0 <= k < |a| - 1
          ensures fold(a[1..][k]) == fold(b[1..][k])
        {
          assert a[1..][k] == a[k + 1] && b[1..][k] == b[k + 1];
        }
      }
      KeyLessIrreflexive(fold, a[1..], b[1..]);
    }
  }

  /** The order is transitive. */
  lemma {:induction false} KeyLessTrans(fold: char -> char, a: string, b: string, c: string)
    requires KeyLess(fold, a, b) && KeyLess(fold, b, c)
    ensures KeyLess(fold, a, c)
    decreases |a|
  {
    if |a| > 0 && fold(a[0]) == fold(b[0]) && fold(b[0]) == fold(c[0]) {
      KeyLessTrans(fold, a[1..], b[1..], c[1..]);
    }
  }

  /** A sorted list holds no two keys that are equal up to `fold`. */
  lemma SortedDistinct(fold: char -> char, ks: seq<string>, i: int, j: int)
    requires Sorted(fold, ks) && 0 <= i < |ks| && 0 <= j < |ks| && i != j
    ensures !FoldEq(fold, ks[i], ks[j])
  {
    if FoldEq(fold, ks[i], ks[j]) {
      if i < j {
        KeyLessIrreflexive(fold, ks[i], ks[j]);
      } else {
        assert FoldEq(fold, ks[j], ks[i]);
        KeyLessIrreflexive(fold, ks[j], ks[i]);
      }
    }
  }

  /** Prefixes equal up to `fold` do not change the order. */
  lemma {:induction false} KeyLessPrefix(fold: char -> char, p: string, p': string, x: string, y: string)
    requires FoldEq(fold, p, p')
    ensures KeyLess(fold, p + x, p' + y) <==> KeyLess(fold, x, y)
    decreases |p|
  {
    if |p| == 0 {
      assert p + x == x && p' + y == y;
    } else {
      assert (p + x)[0] == p[0] && (p' + y)[0] == p'[0];
      assert (p + x)[1..] == p[1..] + x && (p' + y)[1..] == p'[1..] + y;
      assert FoldEq(fold, p[1..], p'[1..]) by {
        forall k | 0 <= k < |p| - 1
          ensures fold(p[1..][k]) == fold(p'[1..][k])
        {
          assert p[1..][k] == p[k + 1] && p'[1..][k] == p'[k + 1];
        }
      }
      KeyLessPrefix(fold, p[1..], p'[1..], x, y);
    }
  }

  // ---------------------------------------------------------------------
  // Node lists sorted by key
  // ---------------------------------------------------------------------

  /** The ids `ids` are nodes of `t` whose keys, read from the root of
      `t`, strictly increase along the list. */
  ghost predicate KeySorted(fold: char -> char, t: Tree, nodes: seq<Node>, ids: seq<int>) {
    Shaped(t, nodes)
    && (forall q :: q in ids ==> q in Ids(t))
    && forall i, j :: 0 <= i < j < |ids| ==> KeyLess(fold, PathKey(t, nodes, ids[i]), PathKey(t, nodes, ids[j]))
  }

  /** A stretch of a sorted list is sorted. */
  lemma KeySortedSlice(fold: char -> char, t: Tree, nodes: seq<Node>, ids: seq<int>, a: int, b: int)
    requires KeySorted(fold, t, nodes, ids) && 0 <= a <= b <= |ids|
    ensures KeySorted(fold, t, nodes, ids[a..b])
  {
    var s := ids[a..b];
    forall i, j | 0 <= i < j < |s|
      ensures KeyLess(fold, PathKey(t, nodes, s[i]), PathKey(t, nodes, s[j]))
    {
      assert s[i] == ids[a + i] && s[j] == ids[a + j];
    }
  }

  /** Two sorted lists, every key of the first before every key of the
      second, make a sorted list. */
  lemma KeySortedConcat(fold: char -> char, t: Tree, nodes: seq<Node>, x: seq<int>, y: seq<int>)
    requires KeySorted(fold, t, nodes, x) && KeySorted(fold, t, nodes, y)
    requires forall a, b :: a in x && b in y ==> KeyLess(fold, PathKey(t, nodes, a), PathKey(t, nodes, b))
    ensures KeySorted(fold, t, nodes, x + y)
  {
    var s := x + y;
    forall i, j | 0 <= i < j < |s|
      ensures KeyLess(fold, PathKey(t, nodes, s[i]), PathKey(t, nodes, s[j]))
    {
      if j < |x| {
        assert s[i] == x[i] && s[j] == x[j];
      } else if i >= |x| {
        assert s[i] == y[i - |x|] && s[j] == y[j - |x|];
      } else {
        assert s[i] == x[i] && s[j] == y[j - |x|];
        assert x[i] in x && y[j - |x|] in y;
      }
    }
  }

  /** The key of a node below `s` is the key above `s` followed by its key
      read from `s`. */
  lemma SubKey(t: Tree, nodes: seq<Node>, s: int, q: int)
    requires Shaped(t, nodes) && Distinct(t) && s in Ids(t) && q in Ids(Sub(t, s))
    ensures Shaped(Sub(t, s), nodes) && q in Ids(t)
    ensures PathKey(t, nodes, q) == RelPrefix(t, nodes, s) + PathKey(Sub(t, s), nodes, q)
  {
    ShapedSub(t, nodes, s);
    RelSub(t, nodes, s, q);
    ShapedIds(t, nodes);
  }

  /** A list sorted within the subtree at `s` is sorted in the whole
      picture. */
  lemma KeySortedSub(fold: char -> char, t: Tree, nodes: seq<Node>, s: int, ids: seq<int>)
    requires Shaped(t, nodes) && Distinct(t) && s in Ids(t)
    requires KeySorted(fold, Sub(t, s), nodes, ids)
    ensures KeySorted(fold, t, nodes, ids)
  {
    var p := RelPrefix(t, nodes, s);
    forall q | q in ids
      ensures q in Ids(t)
    {
      SubKey(t, nodes, s, q);
    }
    forall i, j | 0 <= i < j < |ids|
      ensures KeyLess(fold, PathKey(t, nodes, ids[i]), PathKey(t, nodes, ids[j]))
    {
      assert ids[i] in ids && ids[j] in ids;
      SubKey(t, nodes, s, ids[i]);
      SubKey(t, nodes, s, ids[j]);
      KeyLessPrefix(fold, p, p, PathKey(Sub(t, s), nodes, ids[i]), PathKey(Sub(t, s), nodes, ids[j]));
    }
  }

  /** The kid of the root is the subtree at its own root. */
  lemma SubOfKid(t: Tree, j: Slot)
    requires t.T? && Distinct(t) && KidTree(t, j).T?
    ensures Sub(t, KidTree(t, j).id) == KidTree(t, j)
  {
    SubKid(t, j, KidTree(t, j).id);
  }

  /** Where the key of a node falls against the root's split character
      `c`: below `c` in the lower subtrie, `c` itself at the root, `c`
      and more in the eq subtrie, after `c` in the higher subtrie. */
  lemma KeyBand(fold: char -> char, t: Tree, nodes: seq<Node>, q: int)
    requires Shaped(t, nodes) && Distinct(t) && Ordered(fold, t, nodes) && t.T? && q in Ids(t)
    ensures 0 <= t.id < |nodes| && 0 < |PathKey(t, nodes, q)|
    ensures q in Ids(t.lo) ==> fold(PathKey(t, nodes, q)[0]) < fold(nodes[t.id].splitchar)
    ensures q == t.id ==> PathKey(t, nodes, q) == [nodes[t.id].splitchar]
    ensures q in Ids(t.eq) ==> 1 < |PathKey(t, nodes, q)| && PathKey(t, nodes, q)[0] == nodes[t.id].splitchar
    ensures q in Ids(t.hi) ==> fold(PathKey(t, nodes, q)[0]) > fold(nodes[t.id].splitchar)
  {
    ShapedIds(t, nodes);
    LeadChar(t, nodes, q);
    if q in Ids(t.eq) {
      assert q != t.id && q !in Ids(t.lo);
      assert RelPrefix(t, nodes, q) == [nodes[t.id].splitchar] + RelPrefix(t.eq, nodes, q);
    } else if q in Ids(t.hi) {
      assert q != t.id && q !in Ids(t.lo) && q !in Ids(t.eq);
    }
  }

  /** Keys in earlier bands sort first. */
  lemma BandLess(fold: char -> char, t: Tree, nodes: seq<Node>, a: int, b: int)
    requires Shaped(t, nodes) && Distinct(t) && Ordered(fold, t, nodes) && t.T? && a in Ids(t) && b in Ids(t)
    requires (a in Ids(t.lo) && b !in Ids(t.lo)) || (a == t.id && b in Ids(t.eq))
             || (a !in Ids(t.hi) && b in Ids(t.hi))
    ensures KeyLess(fold, PathKey(t, nodes, a), PathKey(t, nodes, b))
  {
    KeyBand(fold, t, nodes, a);
    KeyBand(fold, t, nodes, b);
    var ka, kb := PathKey(t, nodes, a), PathKey(t, nodes, b);
    if a == t.id && b in Ids(t.eq) {
      assert ka[1..] == [] && |kb[1..]| > 0;
      assert KeyLess(fold, ka[1..], kb[1..]);
    }
  }

  /** A list sorted within a kid of the root is sorted from the root. */
  lemma LiftKid(fold: char -> char, t: Tree, nodes: seq<Node>, j: Slot, ids: seq<int>)
    requires Shaped(t, nodes) && Distinct(t) && t.T? && KidTree(t, j).T?
    requires KeySorted(fold, KidTree(t, j), nodes, ids)
    ensures KeySorted(fold, t, nodes, ids)
  {
    SubOfKid(t, j);
    assert KidTree(t, j).id in Ids(t);
    KeySortedSub(fold, t, nodes, KidTree(t, j).id, ids);
  }

  /** The listing of the root's node, then its eq subtrie, then its higher
      subtrie, is sorted when each part is. */
  lemma JoinUpper(fold: char -> char, t: Tree, nodes: seq<Node>, m: seq<int>, E: seq<int>, H: seq<int>)
    requires Shaped(t, nodes) && Distinct(t) && Ordered(fold, t, nodes) && t.T?
    requires m == Own(nodes, t.id)
    requires KeySorted(fold, t, nodes, E) && forall q :: q in E ==> q in Ids(t.eq)
    requires KeySorted(fold, t, nodes, H) && forall q :: q in H ==> q in Ids(t.hi)
    ensures KeySorted(fold, t, nodes, m + E + H)
  {
    ShapedIds(t, nodes);
    assert KeySorted(fold, t, nodes, m);
    forall a, b | a in m && b in E
      ensures KeyLess(fold, PathKey(t, nodes, a), PathKey(t, nodes, b))
    {
      BandLess(fold, t, nodes, a, b);
    }
    KeySortedConcat(fold, t, nodes, m, E);
    forall a, b | a in m + E && b in H
      ensures KeyLess(fold, PathKey(t, nodes, a), PathKey(t, nodes, b))
    {
      BandLess(fold, t, nodes, a, b);
    }
    KeySortedConcat(fold, t, nodes, m + E, H);
  }

  /** Every key of the lower subtrie sorts before every other key. */
  lemma CrossLower(fold: char -> char, t: Tree, nodes: seq<Node>, L: seq<int>, X: seq<int>)
    requires Shaped(t, nodes) && Distinct(t) && Ordered(fold, t, nodes) && t.T?
    requires forall a :: a in L ==> a in Ids(t.lo)
    requires forall b :: b in X ==> b in Ids(t) && b !in Ids(t.lo)
    ensures forall a, b :: a in L && b in X ==> KeyLess(fold, PathKey(t, nodes, a), PathKey(t, nodes, b))
  {
    forall a, b | a in L && b in X
      ensures KeyLess(fold, PathKey(t, nodes, a), PathKey(t, nodes, b))
    {
      BandLess(fold, t, nodes, a, b);
    }
  }

  /** The in-order listing of the root is sorted when the listings of its
      kids are. */
  lemma InOrderJoin(fold: char -> char, t: Tree, nodes: seq<Node>)
    requires Shaped(t, nodes) && Distinct(t) && Ordered(fold, t, nodes) && t.T?
    requires KeySorted(fold, t.lo, nodes, InOrder(t.lo, nodes))
    requires KeySorted(fold, t.eq, nodes, InOrder(t.eq, nodes))
    requires KeySorted(fold, t.hi, nodes, InOrder(t.hi, nodes))
    ensures KeySorted(fold, t, nodes, InOrder(t, nodes))
  {
    var L, m, E, H := InOrder(t.lo, nodes), Own(nodes, t.id), InOrder(t.eq, nodes), InOrder(t.hi, nodes);
    if t.lo.T? { LiftKid(fold, t, nodes, Lo, L); }
    if t.eq.T? { LiftKid(fold, t, nodes, Eq, E); }
    if t.hi.T? { LiftKid(fold, t, nodes, Hi, H); }
    JoinUpper(fold, t, nodes, m, E, H);
    var X := m + E + H;
    assert forall b :: b in X ==> b in Ids(t) && b !in Ids(t.lo);
    CrossLower(fold, t, nodes, L, X);
    KeySortedConcat(fold, t, nodes, L, X);
    assert InOrder(t, nodes) == L + m + E + H;
    Regroup3(L, m, E, H);
  }

  lemma Regroup3(a: seq<int>, b: seq<int>, c: seq<int>, d: seq<int>)
    ensures a + b + c + d == a + (b + c + d)
  {
  }

  /** The in-order listing of an ordered picture is sorted by key. */
  lemma {:induction false} InOrderSorted(fold: char -> char, t: Tree, nodes: seq<Node>)
    requires Shaped(t, nodes) && Distinct(t) && Ordered(fold, t, nodes)
    ensures KeySorted(fold, t, nodes, InOrder(t, nodes))
    decreases t
  {
    if t.T? {
      InOrderSorted(fold, t.lo, nodes);
      InOrderSorted(fold, t.eq, nodes);
      InOrderSorted(fold, t.hi, nodes);
      InOrderJoin(fold, t, nodes);
    }
  }

  /** Cutting a listing to its first `k` entries keeps it sorted. */
  lemma TakeSorted(fold: char -> char, t: Tree, nodes: seq<Node>, ids: seq<int>, k: int)
    requires KeySorted(fold, t, nodes, ids)
    ensures KeySorted(fold, t, nodes, Take(ids, k))
  {
    if 0 < k < |ids| {
      KeySortedSlice(fold, t, nodes, ids, 0, k);
    } else if k <= 0 {
      KeySortedSlice(fold, t, nodes, ids, 0, 0);
    }
  }

  /** With exact parent links the keys `getKey` reads for a sorted list
      come out in alphabetical order. */
  lemma KeysSorted(fold: char -> char, nodes: seq<Node>, whole: Tree, ids: seq<int>)
    requires ExactTrie(nodes, whole) && KeySorted(fold, whole, nodes, ids)
    ensures Sorted(fold, Keys(nodes, ids))
  {
    var ks := Keys(nodes, ids);
    forall i, j | 0 <= i < j < |ks|
      ensures KeyLess(fold, ks[i], ks[j])
    {
      assert ids[i] in ids && ids[j] in ids;
      KeyOfPath(nodes, whole, ids[i]);
      KeyOfPath(nodes, whole, ids[j]);
      KeysAt(nodes, ids, i);
      KeysAt(nodes, ids, j);
    }
  }

  // ---------------------------------------------------------------------
  // The listings are sorted
  // ---------------------------------------------------------------------

  /** `sortKeys` from `start` lists the data nodes below it in
      alphabetical order of their keys, with or without a cap. */
  lemma SortKeysSorted(fold: char -> char, nodes: seq<Node>, whole: Tree, start: int, cap: int)
    requires ExactTrie(nodes, whole) && Ordered(fold, whole, nodes)
    requires (start == NIL || start in Ids(whole)) && (cap == -1 || cap >= 0)
    ensures Sorted(fold, Keys(nodes, SortIds(nodes, SubAt(whole, start), cap, [])))
  {
    var t := SubAt(whole, start);
    SortListing(nodes, t, cap);
    if start == NIL {
      assert KeySorted(fold, whole, nodes, []);
      KeysSorted(fold, nodes, whole, []);
    } else {
      ShapedSub(whole, nodes, start);
      DistinctSub(whole, start);
      OrderedSub(fold, whole, nodes, start);
      InOrderSorted(fold, t, nodes);
      TakeSorted(fold, t, nodes, InOrder(t, nodes), cap);
      var ids := SortIds(nodes, t, cap, []);
      KeySortedSub(fold, whole, nodes, start, ids);
      KeysSorted(fold, nodes, whole, ids);
    }
  }

  /** `matchPrefix` lists its keys in alphabetical order, with or without
      a cap. */
  lemma PrefixSorted(fold: char -> char, nodes: seq<Node>, whole: Tree, s: int, cap: int)
    requires ExactTrie(nodes, whole) && Ordered(fold, whole, nodes)
    requires s in Ids(whole) && (cap == -1 || cap >= 0)
    ensures Sorted(fold, Keys(nodes, PrefixIds(nodes, Sub(whole, s), cap)))
  {
    var ts := Sub(whole, s);
    ShapedSub(whole, nodes, s);
    DistinctSub(whole, s);
    OrderedSub(fold, whole, nodes, s);
    PrefixListing(nodes, ts, cap);
    var m := Own(nodes, ts.id);
    var k := if cap == -1 then |InOrder(ts.eq, nodes)| else cap - |m|;
    var E := Take(InOrder(ts.eq, nodes), k);
    assert PrefixIds(nodes, ts, cap) == m + E;
    InOrderSorted(fold, ts.eq, nodes);
    TakeSorted(fold, ts.eq, nodes, InOrder(ts.eq, nodes), k);
    if ts.eq.T? {
      SubOfKid(ts, Eq);
      KeySortedSub(fold, ts, nodes, ts.eq.id, E);
    }
    assert KeySorted(fold, ts, nodes, m);
    forall a, b | a in m && b in E
      ensures KeyLess(fold, PathKey(ts, nodes, a), PathKey(ts, nodes, b))
    {
      BandLess(fold, ts, nodes, a, b);
    }
    KeySortedConcat(fold, ts, nodes, m, E);
    KeySortedSub(fold, whole, nodes, s, m + E);
    KeysSorted(fold, nodes, whole, m + E);
  }

  // ---------------------------------------------------------------------
  // The prefix search finds every key with the prefix
  // ---------------------------------------------------------------------

  /** Each nonempty prefix of a node's key is the key of a node on the way
      down to it: the node itself or one whose eq subtree holds it. */
  lemma {:induction false} PrefixNode(t: Tree, nodes: seq<Node>, q: int, n: nat) returns (s: int)
    requires Shaped(t, nodes) && Distinct(t) && q in Ids(t) && n < |PathKey(t, nodes, q)|
    ensures s in Ids(t) && PathKey(t, nodes, s) == PathKey(t, nodes, q)[..n + 1]
    ensures s == q || q in Ids(Sub(t, s).eq)
    decreases t
  {
    ShapedIds(t, nodes);
    var c := nodes[t.id].splitchar;
    if q == t.id {
      s := q;
    } else if q in Ids(t.lo) {
      s := PrefixNode(t.lo, nodes, q, n);
      assert PathKey(t, nodes, q) == PathKey(t.lo, nodes, q);
      assert s != t.id && PathKey(t, nodes, s) == PathKey(t.lo, nodes, s);
      SubKid(t, Lo, s);
    } else if q in Ids(t.eq) {
      assert q !in Ids(t.lo);
      assert PathKey(t, nodes, q) == [c] + PathKey(t.eq, nodes, q);
      if n == 0 {
        s := t.id;
        assert PathKey(t, nodes, s) == [c];
      } else {
        s := PrefixNode(t.eq, nodes, q, n - 1);
        assert s != t.id && s !in Ids(t.lo);
        assert PathKey(t, nodes, s) == [c] + PathKey(t.eq, nodes, s);
        assert ([c] + PathKey(t.eq, nodes, q))[..n + 1] == [c] + PathKey(t.eq, nodes, q)[..n];
        SubKid(t, Eq, s);
      }
    } else {
      assert q !in Ids(t.lo) && q !in Ids(t.eq);
      s := PrefixNode(t.hi, nodes, q, n);
      assert PathKey(t, nodes, q) == PathKey(t.hi, nodes, q);
      assert s != t.id && s !in Ids(t.lo) && s !in Ids(t.eq);
      assert PathKey(t, nodes, s) == PathKey(t.hi, nodes, s);
      SubKid(t, Hi, s);
    }
  }

  /** Without a cap, every data node whose key begins with the prefix (up
      to `fold`) is found by the walk for the prefix and listed. */
  lemma PrefixComplete(nodes: seq<Node>, fold: char -> char, prefix: string, t: Tree, q: int)
    requires Shaped(t, nodes) && Distinct(t) && Ordered(fold, t, nodes) && 0 < |prefix|
    requires q in Ids(t) && HasData(nodes, q)
    requires |prefix| <= |PathKey(t, nodes, q)| && FoldEq(fold, PathKey(t, nodes, q)[..|prefix|], prefix)
    ensures t.T? && Walk(nodes, fold, prefix, 0, t.id, t) != NIL
    ensures q in PrefixIds(nodes, Sub(t, Walk(nodes, fold, prefix, 0, t.id, t)), -1)
  {
    var s := PrefixNode(t, nodes, q, |prefix| - 1);
    assert prefix[0..] == prefix;
    WalkFinds(nodes, fold, prefix, 0, t, s);
    ShapedIds(t, nodes);
    assert RootId(t) == t.id && s != NIL;
    assert Walk(nodes, fold, prefix, 0, t.id, t) == s;
    var ts := Sub(t, s);
    PrefixListing(nodes, ts, -1);
    if q != s {
      DataIdsIn(ts.eq, nodes);
      InOrderIsData(ts.eq, nodes);
      assert q in InOrder(ts.eq, nodes);
    } else {
      assert q in Own(nodes, ts.id);
    }
  }

  // ---------------------------------------------------------------------
  // The near-miss search finds every key with the right mismatch count
  // ---------------------------------------------------------------------

  /** A key matched from the root of `t` is not behind a branch the
      search skips: with no mismatch left the search leaves out only the
      lower subtrie when the target character is not below the split
      character, and the higher one when it is not above it. */
  lemma MatchedSide(nodes: seq<Node>, fold: char -> char, t: Tree, q: int, key: string, i: int, d: int, upTo: bool)
    requires Shaped(t, nodes) && Distinct(t) && Ordered(fold, t, nodes) && t.T? && 0 <= i <= |key|
    requires Matched(nodes, fold, t, q, key, i, d, upTo) && d <= 0
    ensures i < |key| && 0 <= t.id < |nodes|
    ensures q in Ids(t.lo) ==> Compare(fold, key[i], nodes[t.id].splitchar) < 0
    ensures q in Ids(t.hi) ==> Compare(fold, key[i], nodes[t.id].splitchar) > 0
  {
    KeyBand(fold, t, nodes, q);
    var k := PathKey(t, nodes, q);
    assert key[i..][0] == key[i];
    assert Mismatches(fold, k, key[i..]) >= (if fold(k[0]) != fold(key[i]) then 1 else 0);
  }

  /** Matching from the root of `t` is matching in the kid the node lies in. */
  lemma MatchedKid(nodes: seq<Node>, fold: char -> char, t: Tree, q: int, key: string, i: int, d: int, upTo: bool)
    requires Shaped(t, nodes) && Distinct(t) && t.T? && 0 <= i <= |key|
    requires Matched(nodes, fold, t, q, key, i, d, upTo)
    ensures i < |key| && 0 <= t.id < |nodes|
    ensures q in Ids(t.lo) ==> Matched(nodes, fold, t.lo, q, key, i, d, upTo)
    ensures q in Ids(t.hi) ==> Matched(nodes, fold, t.hi, q, key, i, d, upTo)
    ensures q in Ids(t.eq) ==>
      var nextD := if Compare(fold, key[i], nodes[t.id].splitchar) == 0 then d else d - 1;
      i + 1 <= |key| && Matched(nodes, fold, t.eq, q, key, i + 1, nextD, upTo)
  {
    ShapedIds(t, nodes);
    var c := nodes[t.id].splitchar;
    if q in Ids(t.lo) {
      assert PathKey(t, nodes, q) == PathKey(t.lo, nodes, q);
    } else if q in Ids(t.hi) {
      assert q != t.id && q !in Ids(t.lo) && q !in Ids(t.eq);
      assert PathKey(t, nodes, q) == PathKey(t.hi, nodes, q);
    } else if q in Ids(t.eq) {
      assert q != t.id && q !in Ids(t.lo);
      var k := PathKey(t.eq, nodes, q);
      assert PathKey(t, nodes, q) == [c] + k;
      assert key[i..] == [key[i]] + key[i + 1..];
      MismatchesCons(fold, c, k, key[i], key[i + 1..]);
    }
  }

  /** A matched node leaves a target character to compare and a
      mismatch count that is not negative. */
  lemma MatchedStart(nodes: seq<Node>, fold: char -> char, t: Tree, q: int, key: string, i: int, d: int, upTo: bool)
    requires Shaped(t, nodes) && 0 <= i <= |key|
    requires Matched(nodes, fold, t, q, key, i, d, upTo)
    ensures t.T? && i < |key| && 0 <= d && 0 <= t.id < |nodes|
  {
    assert Mismatches(fold, PathKey(t, nodes, q), key[i..]) >= 0;
  }

  /** The root `t`: matched exactly when the search appends it. */
  lemma MatchedRoot(nodes: seq<Node>, fold: char -> char, t: Tree, key: string, i: int, d: int, upTo: bool)
    requires Shaped(t, nodes) && t.T? && 0 <= i <= |key|
    requires Matched(nodes, fold, t, t.id, key, i, d, upTo)
    ensures |key| == i + 1 && HasData(nodes, t.id)
    ensures var nextD := if Compare(fold, key[i], nodes[t.id].splitchar) == 0 then d else d - 1;
      if upTo then nextD >= 0 else nextD == 0
  {
    var sc := nodes[t.id].splitchar;
    assert PathKey(t, nodes, t.id) == [sc];
    assert key[i..] == [key[i]];
    MismatchesCons(fold, sc, [], key[i], []);
  }

  /** One step of the uncapped search from the root of `t`: the lists
      after the lower subtrie, the root and the eq subtrie, each growing
      the one before. */
  lemma AlmostSplit(nodes: seq<Node>, fold: char -> char, t: Tree, i: int, d: int, key: string,
                    acc: seq<int>, upTo: bool, recheck: bool, cmp: int, nextD: int) returns (a: seq<int>, b: seq<int>, c: seq<int>)
    requires Shaped(t, nodes) && t.T? && 0 <= i < |key| && 0 <= d
    requires cmp == Compare(fold, key[i], nodes[t.id].splitchar) && nextD == (if cmp == 0 then d else d - 1)
    ensures a == if d > 0 || cmp < 0 then AlmostWalk(nodes, fold, t.lo, i, d, key, -1, acc, upTo, recheck) else acc
    ensures b == if |key| == i + 1 && (if upTo then nextD >= 0 else nextD == 0) && HasData(nodes, t.id) then a + [t.id] else a
    ensures c == AlmostWalk(nodes, fold, t.eq, i + 1, nextD, key, -1, b, upTo, recheck)
    ensures AlmostWalk(nodes, fold, t, i, d, key, -1, acc, upTo, recheck)
      == if d > 0 || cmp > 0 then AlmostWalk(nodes, fold, t.hi, i, d, key, -1, c, upTo, recheck) else c
    ensures acc <= a <= b <= c <= AlmostWalk(nodes, fold, t, i, d, key, -1, acc, upTo, recheck)
  {
    a := if d > 0 || cmp < 0 then AlmostWalk(nodes, fold, t.lo, i, d, key, -1, acc, upTo, recheck) else acc;
    b := if |key| == i + 1 && (if upTo then nextD >= 0 else nextD == 0) && HasData(nodes, t.id) then a + [t.id] else a;
    c := AlmostWalk(nodes, fold, t.eq, i + 1, nextD, key, -1, b, upTo, recheck);
    if d > 0 || cmp < 0 {
      AlmostGrows(nodes, fold, t.lo, i, d, key, -1, acc, upTo, recheck);
    }
    AlmostGrows(nodes, fold, t.eq, i + 1, nextD, key, -1, b, upTo, recheck);
    if d > 0 || cmp > 0 {
      AlmostGrows(nodes, fold, t.hi, i, d, key, -1, c, upTo, recheck);
    }
  }

  /** Without a cap the search appends every data node whose key has the
      length of the target and the sought number of mismatches. */
  lemma {:induction false} AlmostComplete(nodes: seq<Node>, fold: char -> char, t: Tree, i: int, d: int, key: string,
                                          acc: seq<int>, upTo: bool, recheck: bool, q: int)
    requires Shaped(t, nodes) && Distinct(t) && Ordered(fold, t, nodes) && 0 <= i <= |key|
    requires Matched(nodes, fold, t, q, key, i, d, upTo)
    ensures q in AlmostWalk(nodes, fold, t, i, d, key, -1, acc, upTo, recheck)
    decreases t
  {
    MatchedStart(nodes, fold, t, q, key, i, d, upTo);
    var cmp := Compare(fold, key[i], nodes[t.id].splitchar);
    var nextD := if cmp == 0 then d else d - 1;
    var a, b, c := AlmostSplit(nodes, fold, t, i, d, key, acc, upTo, recheck, cmp, nextD);
    if q in Ids(t.lo) {
      MatchedKid(nodes, fold, t, q, key, i, d, upTo);
      if d <= 0 {
        MatchedSide(nodes, fold, t, q, key, i, d, upTo);
      }
      AlmostComplete(nodes, fold, t.lo, i, d, key, acc, upTo, recheck, q);
      assert q in a;
    } else if q == t.id {
      MatchedRoot(nodes, fold, t, key, i, d, upTo);
      assert q in b;
    } else if q in Ids(t.eq) {
      MatchedKid(nodes, fold, t, q, key, i, d, upTo);
      AlmostComplete(nodes, fold, t.eq, i + 1, nextD, key, b, upTo, recheck, q);
      assert q in c;
    } else {
      MatchedKid(nodes, fold, t, q, key, i, d, upTo);
      if d <= 0 {
        MatchedSide(nodes, fold, t, q, key, i, d, upTo);
      }
      AlmostComplete(nodes, fold, t.hi, i, d, key, c, upTo, recheck, q);
    }
  }

  /** `matchAlmost` without a cap: every data node whose key has the length
      of the target and differs from it in exactly `d` positions, up to
      `fold`, is listed. */
  lemma AlmostFindsAll(nodes: seq<Node>, fold: char -> char, t: Tree, d: int, key: string, q: int)
    requires Shaped(t, nodes) && Distinct(t) && Ordered(fold, t, nodes)
    requires q in Ids(t) && HasData(nodes, q) && |PathKey(t, nodes, q)| == |key|
    requires Mismatches(fold, PathKey(t, nodes, q), key) == d
    ensures q in AlmostIds(nodes, fold, t, d, key, -1)
  {
    assert key[0..] == key;
    AlmostComplete(nodes, fold, t, 0, d, key, [], false, true, q);
  }

  // ---------------------------------------------------------------------
  // Completeness of the listings, over keys
  // ---------------------------------------------------------------------

  /** The key `getKey` reads for a listed node is in the listing of keys. */
  lemma ListedKey(nodes: seq<Node>, whole: Tree, ids: seq<int>, q: int)
    requires ExactTrie(nodes, whole) && q in ids && q in Ids(whole)
    requires forall p :: p in ids ==> 0 <= p < |nodes|
    ensures PathKey(whole, nodes, q) in Keys(nodes, ids)
  {
    var j :| 0 <= j < |ids| && ids[j] == q;
    KeysAt(nodes, ids, j);
    KeyOfPath(nodes, whole, q);
  }

  /** Node `q` of `whole` holds data and its key begins with `prefix`, up
      to `fold`. */
  ghost predicate PrefixKey(fold: char -> char, whole: Tree, nodes: seq<Node>, q: int, prefix: string) {
    Shaped(whole, nodes) && q in Ids(whole) && HasData(nodes, q)
    && |prefix| <= |PathKey(whole, nodes, q)| && FoldEq(fold, PathKey(whole, nodes, q)[..|prefix|], prefix)
  }

  /** Node `q` of `whole` holds data and its key has the length of `key`
      and differs from it in exactly `d` positions, up to `fold`. */
  ghost predicate AlmostKey(fold: char -> char, whole: Tree, nodes: seq<Node>, q: int, key: string, d: int) {
    Shaped(whole, nodes) && q in Ids(whole) && HasData(nodes, q)
    && |PathKey(whole, nodes, q)| == |key| && Mismatches(fold, PathKey(whole, nodes, q), key) == d
  }

  /** Without a cap `matchPrefix` lists the key of every data node that
      begins with a nonempty prefix, up to `fold`; in particular the walk
      for the prefix finds a node when there is such a key. */
  lemma PrefixKeysAll(nodes: seq<Node>, fold: char -> char, prefix: string, whole: Tree)
    requires ExactTrie(nodes, whole) && Ordered(fold, whole, nodes) && 0 < |prefix|
    ensures forall q :: PrefixKey(fold, whole, nodes, q, prefix) ==>
      whole.T? && Walk(nodes, fold, prefix, 0, whole.id, whole) != NIL
      && PathKey(whole, nodes, q) in Keys(nodes, PrefixIds(nodes, Sub(whole, Walk(nodes, fold, prefix, 0, whole.id, whole)), -1))
  {
    forall q | PrefixKey(fold, whole, nodes, q, prefix)
      ensures whole.T? && Walk(nodes, fold, prefix, 0, whole.id, whole) != NIL
      ensures PathKey(whole, nodes, q) in Keys(nodes, PrefixIds(nodes, Sub(whole, Walk(nodes, fold, prefix, 0, whole.id, whole)), -1))
    {
      PrefixComplete(nodes, fold, prefix, whole, q);
      var s := Walk(nodes, fold, prefix, 0, whole.id, whole);
      var ids := PrefixIds(nodes, Sub(whole, s), -1);
      ShapedIds(whole, nodes);
      SortMembers(nodes, Sub(whole, s).eq, -1, Own(nodes, s));
      DataIdsSub(Sub(whole, s).eq, nodes);
      ListedKey(nodes, whole, ids, q);
    }
  }

  /** Without a cap `matchAlmost` lists the key of every data node that has
      the length of the target and differs from it in exactly `d`
      positions, up to `fold`. */
  lemma AlmostKeysAll(nodes: seq<Node>, fold: char -> char, whole: Tree, d: int, key: string)
    requires ExactTrie(nodes, whole) && Ordered(fold, whole, nodes)
    ensures forall q :: AlmostKey(fold, whole, nodes, q, key, d) ==>
      PathKey(whole, nodes, q) in Keys(nodes, AlmostIds(nodes, fold, whole, d, key, -1))
  {
    forall q | AlmostKey(fold, whole, nodes, q, key, d)
      ensures PathKey(whole, nodes, q) in Keys(nodes, AlmostIds(nodes, fold, whole, d, key, -1))
    {
      AlmostFindsAll(nodes, fold, whole, d, key, q);
      var ids := AlmostIds(nodes, fold, whole, d, key, -1);
      assert key[0..] == key;
      AlmostSound(nodes, fold, whole, 0, d, key, -1, [], false, true);
      ShapedIds(whole, nodes);
      ListedKey(nodes, whole, ids, q);
    }
  }
}
