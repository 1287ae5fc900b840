/**
 * The near-miss search of the ternary search trie (`matchAlmost`): the
 * data nodes whose keys have the length of the target key and differ from
 * it, up to `fold`, in exactly (or at most) a given number of positions.
 *
 * The search is stated on the picture of the trie as the list of node ids
 * it appends to its result; the class turns each id into its key.
 */
module TrieAlmost {

  import opened Wrappers
  import opened TrieShape
  import opened TrieSpec
  import opened TrieRead

  /** The number of positions where two strings of equal length differ,
      up to `fold`. */
  ghost function Mismatches(fold: char -> char, a: string, b: string): (r: nat)
    requires |a| == |b|
    ensures r <= |a|
  {
    if |a| == 0 then 0
    else (if fold(a[0]) != fold(b[0]) then 1 else 0) + Mismatches(fold, a[1..], b[1..])
  }

  lemma MismatchesCons(fold: char -> char, c: char, a: string, e: char, b: string)
    requires |a| == |b|
    ensures Mismatches(fold, [c] + a, [e] + b)
      == (if fold(c) != fold(e) then 1 else 0) + Mismatches(fold, a, b)
  {
    assert ([c] + a)[1..] == a;
    assert ([e] + b)[1..] == b;
  }

  /** The ids `matchAlmostRecursion` appends to the list `acc`, searching
      the subtrie `t` for the characters of `key` from index `i` on with `d`
      mismatches left, under the cap `cap` (-1 for none). With `upTo` a key
      may use fewer mismatches. The source checks the cap only on entry;
      `recheck` adds the check before a key is appended. */
  ghost function AlmostWalk(nodes: seq<Node>, fold: char -> char, t: Tree, i: int, d: int, key: string,
                            cap: int, acc: seq<int>, upTo: bool, recheck: bool): seq<int>
    requires Shaped(t, nodes) && 0 <= i
  {
    if t.Nil? || (cap != -1 && |acc| >= cap) || d < 0 || i >= |key| then acc
    else
      var cmp := Compare(fold, key[i], nodes[t.id].splitchar);
      var a := if d > 0 || cmp < 0 then AlmostWalk(nodes, fold, t.lo, i, d, key, cap, acc, upTo, recheck) else acc;
      var nextD := if cmp == 0 then d else d - 1;
      var cond := if upTo then nextD >= 0 else nextD == 0;
      var room := !recheck || cap == -1 || |a| < cap;
      var b := if |key| == i + 1 && cond && HasData(nodes, t.id) && room then a + [t.id] else a;
      var c := AlmostWalk(nodes, fold, t.eq, i + 1, nextD, key, cap, b, upTo, recheck);
      if d > 0 || cmp > 0 then AlmostWalk(nodes, fold, t.hi, i, d, key, cap, c, upTo, recheck) else c
  }

  /** The search as the source writes it. */
  ghost function AlmostAsWritten(nodes: seq<Node>, fold: char -> char, t: Tree, d: int, key: string, cap: int): seq<int>
    requires Shaped(t, nodes)
  {
    AlmostWalk(nodes, fold, t, 0, d, key, cap, [], false, false)
  }

  /** The search with the cap checked before each key is appended. */
  ghost function AlmostIds(nodes: seq<Node>, fold: char -> char, t: Tree, d: int, key: string, cap: int): seq<int>
    requires Shaped(t, nodes)
  {
    AlmostWalk(nodes, fold, t, 0, d, key, cap, [], false, true)
  }

  /** Node `q` of `t` holds data and its key relative to the root of `t`
      spells `key[i..]` with `d` mismatches (at most `d` with `upTo`). */
  ghost predicate Matched(nodes: seq<Node>, fold: char -> char, t: Tree, q: int, key: string, i: int, d: int, upTo: bool)
    requires Shaped(t, nodes) && 0 <= i <= |key|
  {
    q in Ids(t) && HasData(nodes, q) && |PathKey(t, nodes, q)| == |key| - i
    && (if upTo then Mismatches(fold, PathKey(t, nodes, q), key[i..]) <= d
        else Mismatches(fold, PathKey(t, nodes, q), key[i..]) == d)
  }

  /** The search only appends to its list. */
  lemma {:induction false} AlmostGrows(nodes: seq<Node>, fold: char -> char, t: Tree, i: int, d: int, key: string,
                                       cap: int, acc: seq<int>, upTo: bool, recheck: bool)
    requires Shaped(t, nodes) && 0 <= i
    ensures acc <= AlmostWalk(nodes, fold, t, i, d, key, cap, acc, upTo, recheck)
    decreases t
  {
    if t.Nil? || (cap != -1 && |acc| >= cap) || d < 0 || i >= |key| {
    } else {
      var cmp := Compare(fold, key[i], nodes[t.id].splitchar);
      var a := if d > 0 || cmp < 0 then AlmostWalk(nodes, fold, t.lo, i, d, key, cap, acc, upTo, recheck) else acc;
      if d > 0 || cmp < 0 {
        AlmostGrows(nodes, fold, t.lo, i, d, key, cap, acc, upTo, recheck);
      }
      var nextD := if cmp == 0 then d else d - 1;
      var cond := if upTo then nextD >= 0 else nextD == 0;
      var room := !recheck || cap == -1 || |a| < cap;
      var b := if |key| == i + 1 && cond && HasData(nodes, t.id) && room then a + [t.id] else a;
      var c := AlmostWalk(nodes, fold, t.eq, i + 1, nextD, key, cap, b, upTo, recheck);
      AlmostGrows(nodes, fold, t.eq, i + 1, nextD, key, cap, b, upTo, recheck);
      if d > 0 || cmp > 0 {
        AlmostGrows(nodes, fold, t.hi, i, d, key, cap, c, upTo, recheck);
      }
    }
  }

  /** The search only appends, and everything it appends is a data node
      whose key matches the target with the required number of mismatches. */
  lemma {:induction false} AlmostSound(nodes: seq<Node>, fold: char -> char, t: Tree, i: int, d: int, key: string,
                                       cap: int, acc: seq<int>, upTo: bool, recheck: bool)
    requires Shaped(t, nodes) && Distinct(t) && 0 <= i <= |key|
    ensures acc <= AlmostWalk(nodes, fold, t, i, d, key, cap, acc, upTo, recheck)
    ensures forall q :: q in AlmostWalk(nodes, fold, t, i, d, key, cap, acc, upTo, recheck) ==>
      q in acc || Matched(nodes, fold, t, q, key, i, d, upTo)
    decreases t
  {
    AlmostGrows(nodes, fold, t, i, d, key, cap, acc, upTo, recheck);
    if t.Nil? || (cap != -1 && |acc| >= cap) || d < 0 || i >= |key| {
    } else {
      var cmp := Compare(fold, key[i], nodes[t.id].splitchar);
      var a := if d > 0 || cmp < 0 then AlmostWalk(nodes, fold, t.lo, i, d, key, cap, acc, upTo, recheck) else acc;
      if d > 0 || cmp < 0 {
        AlmostSound(nodes, fold, t.lo, i, d, key, cap, acc, upTo, recheck);
        MatchedLo(nodes, fold, t, key, i, d, upTo);
      }
      var nextD := if cmp == 0 then d else d - 1;
      var cond := if upTo then nextD >= 0 else nextD == 0;
      var room := !recheck || cap == -1 || |a| < cap;
      var b := if |key| == i + 1 && cond && HasData(nodes, t.id) && room then a + [t.id] else a;
      if |key| == i + 1 && cond && HasData(nodes, t.id) && room {
        MatchedSelf(nodes, fold, t, key, i, d, upTo);
      }
      var c := AlmostWalk(nodes, fold, t.eq, i + 1, nextD, key, cap, b, upTo, recheck);
      AlmostSound(nodes, fold, t.eq, i + 1, nextD, key, cap, b, upTo, recheck);
      MatchedEq(nodes, fold, t, key, i, d, upTo);
      if d > 0 || cmp > 0 {
        AlmostSound(nodes, fold, t.hi, i, d, key, cap, c, upTo, recheck);
        MatchedHi(nodes, fold, t, key, i, d, upTo);
      }
    }
  }

  /** A match in the lower subtrie is a match of the whole. */
  lemma MatchedLo(nodes: seq<Node>, fold: char -> char, t: Tree, key: string, i: int, d: int, upTo: bool)
    requires Shaped(t, nodes) && Distinct(t) && t.T? && 0 <= i <= |key|
    ensures forall q :: Matched(nodes, fold, t.lo, q, key, i, d, upTo) ==> Matched(nodes, fold, t, q, key, i, d, upTo)
  {
    forall q | Matched(nodes, fold, t.lo, q, key, i, d, upTo)
      ensures Matched(nodes, fold, t, q, key, i, d, upTo)
    {
      assert q != t.id;
      assert PathKey(t, nodes, q) == PathKey(t.lo, nodes, q);
    }
  }

  /** A match in the higher subtrie is a match of the whole. */
  lemma MatchedHi(nodes: seq<Node>, fold: char -> char, t: Tree, key: string, i: int, d: int, upTo: bool)
    requires Shaped(t, nodes) && Distinct(t) && t.T? && 0 <= i <= |key|
    ensures forall q :: Matched(nodes, fold, t.hi, q, key, i, d, upTo) ==> Matched(nodes, fold, t, q, key, i, d, upTo)
  {
    forall q | Matched(nodes, fold, t.hi, q, key, i, d, upTo)
      ensures Matched(nodes, fold, t, q, key, i, d, upTo)
    {
      assert q != t.id && q !in Ids(t.lo) && q !in Ids(t.eq);
      assert PathKey(t, nodes, q) == PathKey(t.hi, nodes, q);
    }
  }

  /** A match in the eq subtrie, one character on, is a match of the whole
      once the node's own character is counted. */
  lemma MatchedEq(nodes: seq<Node>, fold: char -> char, t: Tree, key: string, i: int, d: int, upTo: bool)
    requires Shaped(t, nodes) && Distinct(t) && t.T? && 0 <= i < |key|
    ensures
      var cmp := Compare(fold, key[i], nodes[t.id].splitchar);
      var nextD := if cmp == 0 then d else d - 1;
      forall q :: Matched(nodes, fold, t.eq, q, key, i + 1, nextD, upTo) ==> Matched(nodes, fold, t, q, key, i, d, upTo)
  {
    var sc := nodes[t.id].splitchar;
    var cmp := Compare(fold, key[i], sc);
    var nextD := if cmp == 0 then d else d - 1;
    forall q | Matched(nodes, fold, t.eq, q, key, i + 1, nextD, upTo)
      ensures Matched(nodes, fold, t, q, key, i, d, upTo)
    {
      assert q != t.id && q !in Ids(t.lo);
      assert PathKey(t, nodes, q) == [sc] + PathKey(t.eq, nodes, q);
      assert key[i..] == [key[i]] + key[i + 1..];
      MismatchesCons(fold, sc, PathKey(t.eq, nodes, q), key[i], key[i + 1..]);
    }
  }

  /** The node itself, reached on the last key character, matches when
      the mismatch count comes out right. */
  lemma MatchedSelf(nodes: seq<Node>, fold: char -> char, t: Tree, key: string, i: int, d: int, upTo: bool)
    requires Shaped(t, nodes) && t.T? && 0 <= i && |key| == i + 1 && HasData(nodes, t.id)
    requires
      var cmp := Compare(fold, key[i], nodes[t.id].splitchar);
      var nextD := if cmp == 0 then d else d - 1;
      if upTo then nextD >= 0 else nextD == 0
    ensures Matched(nodes, fold, t, t.id, key, i, d, upTo)
  {
    var sc := nodes[t.id].splitchar;
    assert PathKey(t, nodes, t.id) == [sc];
    assert key[i..] == [key[i]];
    MismatchesCons(fold, sc, [], key[i], []);
  }

  /** With the cap checked before each key is appended, a listing that
      starts within the cap stays within it. */
  lemma {:induction false} AlmostCapped(nodes: seq<Node>, fold: char -> char, t: Tree, i: int, d: int, key: string,
                                        cap: int, acc: seq<int>, upTo: bool)
    requires Shaped(t, nodes) && 0 <= i && cap >= 0 && |acc| <= cap
    ensures |AlmostWalk(nodes, fold, t, i, d, key, cap, acc, upTo, true)| <= cap
    decreases t
  {
    if t.Nil? || |acc| >= cap || d < 0 || i >= |key| {
    } else {
      var cmp := Compare(fold, key[i], nodes[t.id].splitchar);
      var a := if d > 0 || cmp < 0 then AlmostWalk(nodes, fold, t.lo, i, d, key, cap, acc, upTo, true) else acc;
      if d > 0 || cmp < 0 {
        AlmostCapped(nodes, fold, t.lo, i, d, key, cap, acc, upTo);
      }
      var nextD := if cmp == 0 then d else d - 1;
      var cond := if upTo then nextD >= 0 else nextD == 0;
      var b := if |key| == i + 1 && cond && HasData(nodes, t.id) && |a| < cap then a + [t.id] else a;
      var c := AlmostWalk(nodes, fold, t.eq, i + 1, nextD, key, cap, b, upTo, true);
      AlmostCapped(nodes, fold, t.eq, i + 1, nextD, key, cap, b, upTo);
      if d > 0 || cmp > 0 {
        AlmostCapped(nodes, fold, t.hi, i, d, key, cap, c, upTo);
      }
    }
  }

  /** The trie of the keys "b", "a" and "c", inserted in that order, all
      holding data. */
  function OvershootNodes(): seq<Node> {
    [Node('b', Some(1), NIL, 1, NIL, 2), Node('a', Some(1), 0, NIL, NIL, NIL), Node('c', Some(1), 0, NIL, NIL, NIL)]
  }

  function OvershootTree(): Tree {
    T(0, T(1, Nil, Nil, Nil), Nil, T(2, Nil, Nil, Nil))
  }

  /** As written, one mismatch and a cap of one key list two keys for the
      target "d": the cap is not checked again after the lower subtrie has
      filled it. */
  lemma AlmostOvershoot()
    ensures Shaped(OvershootTree(), OvershootNodes())
    ensures AlmostAsWritten(OvershootNodes(), c => c, OvershootTree(), 1, "d", 1) == [1, 0]
    ensures AlmostIds(OvershootNodes(), c => c, OvershootTree(), 1, "d", 1) == [1]
  {
    var nodes, t := OvershootNodes(), OvershootTree();
    assert Shaped(t.lo, nodes) && Shaped(t.hi, nodes);
  }

  /** `matchAlmostRecursion`, with the cap also checked before a key is
      appended: appends to `acc` the keys `AlmostWalk` lists from the ids
      behind `acc`. */
  method MatchAlmostRecursion(nodes: seq<Node>, fold: char -> char, cur: int, i: int, d: int, key: string,
                              cap: int, acc: seq<string>, upTo: bool,
                              ghost whole: Tree, ghost t: Tree, ghost accIds: seq<int>) returns (r: seq<string>)
    requires ExactTrie(nodes, whole) && Shaped(t, nodes) && RootId(t) == cur && Ids(t) <= Ids(whole) && 0 <= i
    requires acc == Keys(nodes, accIds)
    ensures r == Keys(nodes, AlmostWalk(nodes, fold, t, i, d, key, cap, accIds, upTo, true))
    decreases t
  {
    if cur == NIL || (cap != -1 && |acc| >= cap) || d < 0 || i >= |key| {
      return acc;
    }
    var charComp := Compare(fold, key[i], nodes[cur].splitchar);
    var res := acc;
    ghost var a := accIds;
    if d > 0 || charComp < 0 {
      a := AlmostWalk(nodes, fold, t.lo, i, d, key, cap, accIds, upTo, true);
      res := MatchAlmostRecursion(nodes, fold, nodes[cur].lo, i, d, key, cap, res, upTo, whole, t.lo, accIds);
    }
    var nextD := if charComp == 0 then d else d - 1;
    var cond := if upTo then nextD >= 0 else nextD == 0;
    if |key| == i + 1 && cond && nodes[cur].data.Some? && (cap == -1 || |res| < cap) {
      var k := GetKey(nodes, cur, whole);
      KeysSnoc(nodes, a, cur);
      res := res + [k];
      a := a + [cur];
    }
    ghost var c := AlmostWalk(nodes, fold, t.eq, i + 1, nextD, key, cap, a, upTo, true);
    res := MatchAlmostRecursion(nodes, fold, nodes[cur].eq, i + 1, nextD, key, cap, res, upTo, whole, t.eq, a);
    if d > 0 || charComp > 0 {
      res := MatchAlmostRecursion(nodes, fold, nodes[cur].hi, i, d, key, cap, res, upTo, whole, t.hi, c);
    }
    r := res;
  }
}
