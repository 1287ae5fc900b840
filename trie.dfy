/**
 * The Jaspell ternary search trie of the suggester: a trie of characters
 * in which each node has a split character, an optional data payload, a
 * parent link and three kids (lower, equal, higher). Nodes live in the
 * arena `nodes`; a kid or parent link is an index into it, `NIL` being the
 * null reference.
 */
module JaspellTrie {

  import opened Wrappers
  import opened TrieShape
  import opened TrieSpec
  import opened TrieRead
  import opened TrieAlmost
  import opened TrieDelete
  import opened TriePrune
  import opened TrieOrder
  import opened TrieRemove
  import opened TrieListing

  /** The exceptions the trie's operations raise. */
  datatype Failure = ArgumentError | NullReference

  datatype Result<T> = Ok(value: T) | Err(error: Failure)

  class TernarySearchTrie {
    /** The node arena; the root and every link index into it. */
    var nodes: seq<Node>
    var root: int
    /** The number of mismatches `MatchAlmost` looks for, 0 to 3. */
    var matchAlmostDiff: int
    /** The default result cap; -1 means no cap. */
    var defaultNumReturnValues: int
    /** The culture's lower-casing of one character (`char.ToLower`). */
    const fold: char -> char
    /** The key clean-up of `Remove` and `GetAndIncrement`: trimming and
        lower-casing in the trie's locale. */
    const normalize: string -> string
    /** The tree the kid links form from the root. */
    ghost var shape: Tree

    /** The arena invariant, with every parent link exact, and the search
        tree order under `fold`. */
    ghost predicate Valid()
      reads this
    {
      TrieOk(nodes, root, shape, {}) && Ordered(fold, shape, nodes)
    }

    /** An empty trie. */
    constructor(fold: char -> char, normalize: string -> string)
      ensures Valid()
      ensures nodes == [] && root == NIL
      ensures matchAlmostDiff == 0 && defaultNumReturnValues == -1
      ensures this.fold == fold && this.normalize == normalize
    {
      this.fold := fold;
      this.normalize := normalize;
      nodes := [];
      root := NIL;
      matchAlmostDiff := 0;
      defaultNumReturnValues := -1;
      shape := Nil;
    }

    /** The node the key indexes, or NIL: NIL for the empty key and the
        empty trie, otherwise the node where the walk from the root spends
        the last key character on an equal comparison. It is the one node
        whose key equals `key` up to `fold`, NIL when there is none. */
    function GetNode(key: string): (r: int)
      reads this
      requires Valid()
      ensures r == NIL || (r in Ids(shape) && 0 <= r < |nodes|)
      ensures |key| == 0 || root == NIL ==> r == NIL
      ensures |key| > 0 && root != NIL ==> r == Walk(nodes, fold, key, 0, root, shape)
      ensures KeyedBy(fold, shape, nodes, key, r)
    {
      ShapedIds(shape, nodes);
      WalkKeyed(nodes, fold, key, shape);
      if |key| == 0 || root == NIL then NIL
      else Walk(nodes, fold, key, 0, root, shape)
    }

    /** The data the key indexes: that of the node whose key equals `key`
        up to `fold`, None when no node has that key. */
    function Get(key: string): (r: Option<int>)
      reads this
      requires Valid()
      ensures r == DataAt(nodes, GetNode(key))
      ensures Indexes(fold, shape, nodes, key, r)
    {
      var n := GetNode(key);
      if n == NIL then None else nodes[n].data
    }

    /** The node the key indexes, created together with any missing
        intermediate nodes; the empty key is refused. */
    method GetOrCreateNode(key: string) returns (r: Result<int>)
      requires Valid()
      modifies this
      ensures Valid()
      ensures |key| == 0 ==> r == Err(ArgumentError) && unchanged(this)
      ensures |key| > 0 ==>
        var ins := Insert(old(nodes), old(root), fold, key, old(shape));
        r == Ok(ins.landing) && nodes == ins.nodes && shape == ins.tree
        && root == RootId(ins.tree)
      ensures matchAlmostDiff == old(matchAlmostDiff) && defaultNumReturnValues == old(defaultNumReturnValues)
    {
      if |key| == 0 {
        return Err(ArgumentError);
      }
      InsertKeepsValid(nodes, root, fold, key, shape);
      var arena, top, cur := CreatePath(nodes, root, fold, key, shape);
      nodes, root, shape := arena, top, Insert(nodes, root, fold, key, shape).tree;
      return Ok(cur);
    }

    /** Stores `value` under `key`, creating the key's nodes as needed:
        afterwards every key equal to `key` up to `fold` indexes `value`
        and every other key what it indexed before. */
    method Put(key: string, value: Option<int>) returns (r: Result<()>)
      requires Valid()
      modifies this
      ensures Valid()
      ensures |key| == 0 ==> r == Err(ArgumentError) && unchanged(this)
      ensures |key| > 0 ==>
        var ins := Insert(old(nodes), old(root), fold, key, old(shape));
        r == Ok(()) && nodes == ins.nodes[ins.landing := ins.nodes[ins.landing].(data := value)]
        && shape == ins.tree && root == RootId(ins.tree)
      ensures |key| > 0 ==> Get(key) == value
      ensures |key| > 0 ==> forall k {:trigger Get(k)} :: Get(k) == if FoldEq(fold, k, key) then value else old(Get(k))
      ensures matchAlmostDiff == old(matchAlmostDiff) && defaultNumReturnValues == old(defaultNumReturnValues)
    {
      if |key| > 0 {
        StoreKeepsValid(nodes, root, fold, key, shape, value);
      }
      var n := GetOrCreateNode(key);
      if n.Err? {
        return Err(n.error);
      }
      nodes := nodes[n.value := nodes[n.value].(data := value)];
      forall k
        ensures Get(k) == if FoldEq(fold, k, key) then value else old(Get(k))
      {
        PutLookup(old(nodes), old(root), fold, key, old(shape), value, k, old(GetNode(k)), GetNode(k));
      }
      return Ok(());
    }

    /** Adds one to the counter stored under the cleaned-up key, counting
        a key without data as 0; None when no node has the key, and then
        nothing changes. */
    method GetAndIncrement(key: string) returns (r: Option<int>)
      requires Valid()
      modifies this
      ensures Valid()
      ensures old(GetNode(normalize(key))) == NIL ==> r == None && unchanged(this)
      ensures old(GetNode(normalize(key))) != NIL ==>
        var n := old(GetNode(normalize(key)));
        var before := old(Get(normalize(key)));
        r == Some(if before == None then 1 else before.value + 1)
        && nodes == old(nodes)[n := old(nodes)[n].(data := r)]
        && shape == old(shape) && root == old(root)
        && Get(normalize(key)) == r
      ensures forall k {:trigger Get(k)} :: Get(k) == if old(GetNode(normalize(key))) != NIL && FoldEq(fold, k, normalize(key)) then r else old(Get(k))
      ensures matchAlmostDiff == old(matchAlmostDiff) && defaultNumReturnValues == old(defaultNumReturnValues)
    {
      var key2 := normalize(key);
      var node := GetNode(key2);
      if node == NIL {
        return None;
      }
      var aux := if nodes[node].data == None then 1 else nodes[node].data.value + 1;
      assert Get(key2) == nodes[node].data;
      InsertProps(nodes, root, fold, key2, shape, {});
      assert Insert(nodes, root, fold, key2, shape) == Inserted(nodes, node, shape);
      var _ := Put(key2, Some(aux));
      return Some(aux);
    }

    /** `deleteNode`: clears the data of `node`, then prunes from it
        upwards until a step keeps its node. Only nodes leave the trie,
        every other node keeps its character and data, every node left
        keeps its key, a key whose node was `node` indexes nothing and
        every other key what it indexed before; what leaves is the lower
        end of the path to `node`, up to a node that is kept (`kept`
        counts the path nodes that stay). */
    method DeleteNode(node: int) returns (ghost kept: nat)
      requires Valid() && (node == NIL || node in Ids(shape))
      modifies this
      ensures Valid()
      ensures node == NIL ==> unchanged(this)
      ensures Ids(shape) <= old(Ids(shape))
      ensures DataIds(shape, nodes) == old(DataIds(shape, nodes)) - {node}
      ensures forall q :: q in Ids(shape) ==> q in old(Ids(shape)) && PathKey(shape, nodes, q) == old(PathKey(shape, nodes, q))
      ensures |nodes| == |old(nodes)|
      ensures forall q :: 0 <= q < |nodes| && q != node ==> nodes[q].data == old(nodes)[q].data
      ensures forall q :: 0 <= q < |nodes| ==> nodes[q].splitchar == old(nodes)[q].splitchar
      ensures node != NIL ==> 0 <= node < |nodes| && nodes[node].data == None
      ensures forall k {:trigger Get(k)} :: Get(k) == if old(GetNode(k)) == node then None else old(Get(k))
      ensures node != NIL ==> PrunedAlong(PathTo(old(shape), node), old(Ids(shape)), shape, nodes, kept)
      ensures matchAlmostDiff == old(matchAlmostDiff) && defaultNumReturnValues == old(defaultNumReturnValues)
    {
      if node == NIL {
        DataIdsSub(shape, nodes);
        ExactIsValid(nodes, root, shape);
        ShapedIds(shape, nodes);
        return 0;
      }
      ExactIsValid(nodes, root, shape);
      ClearOrdered(fold, nodes, shape, node);
      var cleared := nodes[node := nodes[node].(data := None)];
      ghost var pic;
      nodes, root, pic, kept := PruneFrom(cleared, root, node, fold, shape);
      shape := pic;
      ClearedPruned(fold, old(nodes), old(shape), node, nodes, shape);
      ExactIsValid(nodes, root, shape);
      forall k
        ensures Get(k) == if old(GetNode(k)) == node then None else old(Get(k))
      {
        RemoveLookup(fold, old(nodes), old(shape), node, nodes, shape, k, old(GetNode(k)), GetNode(k));
      }
    }

    /** `Remove`: deletes the node of the cleaned-up key (nothing when no
        node has it), so that every key equal to the cleaned-up key up to
        `fold` indexes nothing and every other key what it indexed before;
        see `DeleteNode`. */
    method Remove(key: string) returns (ghost kept: nat)
      requires Valid()
      modifies this
      ensures Valid()
      ensures old(GetNode(normalize(key))) == NIL ==> unchanged(this)
      ensures Ids(shape) <= old(Ids(shape))
      ensures DataIds(shape, nodes) == old(DataIds(shape, nodes)) - {old(GetNode(normalize(key)))}
      ensures forall q :: q in Ids(shape) ==> q in old(Ids(shape)) && PathKey(shape, nodes, q) == old(PathKey(shape, nodes, q))
      ensures forall k {:trigger Get(k)} :: Get(k) == if FoldEq(fold, k, normalize(key)) then None else old(Get(k))
      ensures old(GetNode(normalize(key))) != NIL ==>
        PrunedAlong(PathTo(old(shape), old(GetNode(normalize(key)))), old(Ids(shape)), shape, nodes, kept)
      ensures matchAlmostDiff == old(matchAlmostDiff) && defaultNumReturnValues == old(defaultNumReturnValues)
    {
      var node := GetNode(normalize(key));
      kept := DeleteNode(node);
      forall k
        ensures Get(k) == if FoldEq(fold, k, normalize(key)) then None else old(Get(k))
      {
        if FoldEq(fold, k, normalize(key)) {
          KeyedByEq(fold, old(shape), old(nodes), normalize(key), k, node);
        } else if old(GetNode(k)) == node && node != NIL {
          FoldEqTrans(fold, k, old(PathKey(shape, nodes, node)), normalize(key));
        }
      }
    }

    /** Sets the number of mismatches `MatchAlmost` looks for. */
    method SetMatchAlmostDiff(diff: int)
      modifies this
      ensures matchAlmostDiff == ClampDiff(diff)
      ensures nodes == old(nodes) && root == old(root) && shape == old(shape)
      ensures defaultNumReturnValues == old(defaultNumReturnValues)
    {
      if diff < 0 {
        matchAlmostDiff := 0;
      } else if diff > 3 {
        matchAlmostDiff := 3;
      } else {
        matchAlmostDiff := diff;
      }
    }

    /** Sets the default result cap; a negative value means no cap. */
    method SetNumReturnValues(num: int)
      modifies this
      ensures defaultNumReturnValues == ReturnCap(num)
      ensures nodes == old(nodes) && root == old(root) && shape == old(shape)
      ensures matchAlmostDiff == old(matchAlmostDiff)
    {
      defaultNumReturnValues := if num < 0 then -1 else num;
    }

    /** The number of nodes of the trie. */
    function NumNodes(): (r: int)
      reads this
      requires Valid()
      ensures r == |Ids(shape)|
    {
      NodeCountIsSize(nodes, root, 0, shape);
      NodeCount(nodes, root, false, 0, shape)
    }

    /** The number of nodes of the trie that hold data. */
    function NumDataNodes(): (r: int)
      reads this
      requires Valid()
      ensures r == |DataIds(shape, nodes)|
      ensures r <= |Ids(shape)|
    {
      NodeCountIsData(nodes, root, 0, shape);
      DataIdsSub(shape, nodes);
      SubsetCard(DataIds(shape, nodes), Ids(shape));
      NodeCount(nodes, root, true, 0, shape)
    }

    /** `sortKeys`: the keys of the data nodes of the subtrie at `start` in
        in-order sequence, cut to `num` when `num` is not negative (see
        `SortListing`); the list is in alphabetical order. */
    method SortKeys(start: int, num: int) returns (r: seq<string>)
      requires Valid() && (start == NIL || start in Ids(shape))
      ensures r == Keys(nodes, SortIds(nodes, SubAt(shape, start), ReturnCap(num), []))
      ensures Sorted(fold, r)
    {
      ghost var t := SubAt(shape, start);
      if start != NIL {
        ShapedSub(shape, nodes, start);
      }
      OkWithoutDeadIsExact(shape, NIL, nodes);
      r := SortKeysRecursion(nodes, start, ReturnCap(num), [], shape, t, []);
      SortKeysSorted(fold, nodes, shape, start, ReturnCap(num));
    }

    /** The keys of the data nodes whose keys begin with `prefix`, in
        alphabetical order: the prefix's own node first when it holds data,
        then its eq subtrie, cut to `num` when `num` is not negative (see
        `PrefixListing`); every key listed begins with the prefix up to
        `fold`, and without a cap every such key is listed. */
    method MatchPrefix(prefix: string, num: int) returns (r: seq<string>)
      requires Valid()
      ensures GetNode(prefix) == NIL ==> r == []
      ensures GetNode(prefix) != NIL ==>
        r == Keys(nodes, PrefixIds(nodes, Sub(shape, GetNode(prefix)), ReturnCap(num)))
      ensures forall j :: 0 <= j < |r| ==> |prefix| <= |r[j]| && FoldEq(fold, r[j][..|prefix|], prefix)
      ensures Sorted(fold, r)
      ensures 0 < |prefix| && num < 0 ==>
        forall q :: PrefixKey(fold, shape, nodes, q, prefix) ==> PathKey(shape, nodes, q) in r
    {
      OkWithoutDeadIsExact(shape, NIL, nodes);
      if 0 < |prefix| {
        PrefixKeysAll(nodes, fold, prefix, shape);
      }
      var start := GetNode(prefix);
      if start == NIL {
        return [];
      }
      ghost var ts := Sub(shape, start);
      ShapedSub(shape, nodes, start);
      OkWithoutDeadIsExact(shape, NIL, nodes);
      var res := [];
      if nodes[start].data.Some? {
        var k := GetKey(nodes, start, shape);
        res := [k];
      }
      r := SortKeysRecursion(nodes, nodes[start].eq, ReturnCap(num), res, shape, ts.eq, Own(nodes, start));
      ghost var ids := PrefixIds(nodes, ts, ReturnCap(num));
      forall j | 0 <= j < |r|
        ensures |prefix| <= |r[j]| && FoldEq(fold, r[j][..|prefix|], prefix)
      {
        PrefixSound(nodes, fold, prefix, shape, ReturnCap(num), ids[j]);
        KeysAt(nodes, ids, j);
      }
      PrefixSorted(fold, nodes, shape, start, ReturnCap(num));
    }

    /** `MatchPrefix` with the trie's default cap. */
    method MatchPrefixDefault(prefix: string) returns (r: seq<string>)
      requires Valid()
      ensures GetNode(prefix) == NIL ==> r == []
      ensures GetNode(prefix) != NIL ==>
        r == Keys(nodes, PrefixIds(nodes, Sub(shape, GetNode(prefix)), ReturnCap(defaultNumReturnValues)))
      ensures forall j :: 0 <= j < |r| ==> |prefix| <= |r[j]| && FoldEq(fold, r[j][..|prefix|], prefix)
      ensures Sorted(fold, r)
      ensures 0 < |prefix| && defaultNumReturnValues < 0 ==>
        forall q :: PrefixKey(fold, shape, nodes, q, prefix) ==> PathKey(shape, nodes, q) in r
    {
      r := MatchPrefix(prefix, defaultNumReturnValues);
    }

    /** The keys of the data nodes that have the length of `key` and differ
        from it, up to `fold`, in exactly `matchAlmostDiff` positions, at
        most `num` of them when `num` is not negative; without a cap every
        such key is listed. */
    method MatchAlmost(key: string, num: int) returns (r: seq<string>)
      requires Valid()
      ensures r == Keys(nodes, AlmostIds(nodes, fold, shape, matchAlmostDiff, key, ReturnCap(num)))
      ensures num >= 0 ==> |r| <= num
      ensures forall j :: 0 <= j < |r| ==> |r[j]| == |key| && Mismatches(fold, r[j], key) == matchAlmostDiff
      ensures num < 0 ==>
        forall q :: AlmostKey(fold, shape, nodes, q, key, matchAlmostDiff) ==> PathKey(shape, nodes, q) in r
    {
      OkWithoutDeadIsExact(shape, NIL, nodes);
      if num < 0 {
        AlmostKeysAll(nodes, fold, shape, matchAlmostDiff, key);
      }
      r := MatchAlmostRecursion(nodes, fold, root, 0, matchAlmostDiff, key, ReturnCap(num), [], false, shape, shape, []);
      if num >= 0 {
        AlmostCapped(nodes, fold, shape, 0, matchAlmostDiff, key, ReturnCap(num), [], false);
      }
      AlmostSound(nodes, fold, shape, 0, matchAlmostDiff, key, ReturnCap(num), [], false, true);
      ghost var ids := AlmostIds(nodes, fold, shape, matchAlmostDiff, key, ReturnCap(num));
      assert key[0..] == key;
      forall j | 0 <= j < |r|
        ensures |r[j]| == |key| && Mismatches(fold, r[j], key) == matchAlmostDiff
      {
        assert ids[j] in ids;
        KeyOfPath(nodes, shape, ids[j]);
        KeysAt(nodes, ids, j);
      }
    }

    /** `MatchAlmost` with the trie's default cap. */
    method MatchAlmostDefault(key: string) returns (r: seq<string>)
      requires Valid()
      ensures r == Keys(nodes, AlmostIds(nodes, fold, shape, matchAlmostDiff, key, ReturnCap(defaultNumReturnValues)))
      ensures defaultNumReturnValues >= 0 ==> |r| <= defaultNumReturnValues
      ensures forall j :: 0 <= j < |r| ==> |r[j]| == |key| && Mismatches(fold, r[j], key) == matchAlmostDiff
      ensures defaultNumReturnValues < 0 ==>
        forall q :: AlmostKey(fold, shape, nodes, q, key, matchAlmostDiff) ==> PathKey(shape, nodes, q) in r
    {
      r := MatchAlmost(key, defaultNumReturnValues);
    }
  }
}
