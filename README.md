# Lucene.Net core structures in Dafny

This project models four pieces of Lucene.Net and proves properties of them:

- the Jaspell ternary search trie of the suggester;
- the open-addressing `Hashtable` of the collections support code;
- the UTF-16 / UTF-8 / UTF-32 conversions of `UnicodeUtil`;
- the wildcard step of the flexible query parser.

## Ternary search trie (`trie*.dfy`)

**Nodes.** The trie's nodes live in an arena `nodes: seq<Node>`. A node has a split character, optional data (an integer payload) and four links: parent, lower, equal and higher kid. A link is an index into the arena, and `NIL` (-1) stands for the null reference.

**The ghost picture.** A ghost `Tree`, the *picture*, records the tree that the kid links form from the root. It gives termination measures and frames to every walk. The arena invariant (`TrieOk`, `ExactTrie`) has three parts:

- the picture matches the arena;
- its node ids are distinct;
- every node's parent link names the node whose kid it is.

**Modules.**

- `TrieShape` holds the node, tree and invariant definitions.
- `TrieSpec` specifies the walk (`Walk`) and the walk-and-create insertion (`Insert`).
- `TrieRead` covers `getKey`, the two counters, and the ordered listings of `sortKeysRecursion` and `MatchPrefix`.
- `TrieAlmost` covers the near-miss search (`matchAlmostRecursion`).
- `TrieDelete` models deletion exactly as the source writes it and exhibits its defects on small tries.
- `TriePrune` holds the corrected pruning step and the invariants it keeps.
- `TrieOrder` states the search tree order (`Ordered`: every lower or higher descendant's character at the node's depth compares below or above the split character under `fold`), proves that insertion and the corrected pruning keep it, and proves that in an ordered trie the walk finds the one node keyed by a key.
- `TrieListing` proves the listings alphabetical under `fold` and, without a cap, complete.
- `TrieRemove` proves the deletion loop: what leaves the trie is the lower end of the root path to the deleted node, and every other key's data stays.
- `JaspellTrie.TernarySearchTrie` is the class. Its fields are the arena, the root, the two settings, the culture fold `fold` and the key clean-up `normalize` of `Remove` and `GetAndIncrement`.

**Character comparison.** Characters are compared through `fold`, which stands for `char.ToLower`; it is a parameter of the trie. The two-kid deletion case compares raw characters as numbers, as the source does.

## Hashtable (`hashtable*.dfy`)

**Data.** The table holds parallel arrays `table` (slots) and `hashes` (hash words) of prime length. A slot's key is `Null`, the `Removed` marker, or a live key. A hash word is modelled as its chain bit (`CHAIN_MARKER`) together with its low 31 bits.

**Probing.** Double hashing probes `h, h + step, h + 2*step, …` modulo the size. `HashProbe` proves that, for a prime size, the first `size` probes visit every slot exactly once.

**Table state.** `HashSlots` defines two things:

- the dictionary a slot array stands for (`Contents`);
- the table invariant (`TableOk`): every live key is where `Find` looks for it, every word's low bits hold its slot's hash, and the size is prime; that keys are unique follows from it (`TableUnique`).

**Operations.**

- `HashInsert` proves `PutImpl`'s probe loop and `Rehash`'s reinsertion against that invariant.
- `HashPrimes` models the prime table, and `TestPrime` and `CalcPrime` twice: once as written (`TrialAsWritten`, `CalcPrimeAsWritten`) and once corrected to a true primality test (`TestPrime`, `CalcPrime`), which `ToPrime` and the table use (see Findings).
- `HashTable.Hashtable` is the class, and `HashTable.Enumerator` is its fail-fast enumerator.

**Keys, hashing and values.**

- A key of an operation is an `Option<K>`; `None` is the null key that throws `ArgumentNullException`.
- Values are `Option<V>`, so that a null value can be stored.
- `GetHash` is the table's hash function, a parameter `hash: K -> int`.
- `KeyEquals` and the reference comparison before it are both the key type's equality.

**Growth below the requested size.** `CalcPrime(x)` starts its search at `(x & ~1) - 1`, so it can return a prime just below `x`. Both the as-written and the corrected search keep that start. `ToPrimeAtLeast` shows that a table that asks for `2n + 1` slots still gets more than `n`.

## UnicodeUtil (`unicode.dfy`)

Each conversion is a method that works the way the library does: index counters walk an input array and write an output buffer. Each method is proved equal to a specification function on sequences:

- `EncodeUtf8`;
- `DecodeUtf16` and `DecodeUtf32`;
- `CountCodePoints`;
- `CodePointsToUtf16`;
- `ValidUtf16`.

Lemmas relate those functions to each other:

- **Encoding.** The encoding follows section 3 of RFC 3629. It writes U+FFFD for every unpaired surrogate, and it needs one to three bytes per UTF-16 code unit.
- **Surrogate pairs.** They follow section 2.1 of RFC 2781, and well-formed UTF-16 is the UTF-16 form of its own code points.
- **Round trips.** Decoding the encoder's output to UTF-16 gives well-formed input back. Decoding it to UTF-32 gives the input's code points, and the code-point counter agrees with that decoding.
- **Types.** `byte` and `u16` are newtypes for .NET `byte` and `char`. `BytesRef`, `IntsRef` and `CharsRef` are classes over arrays with `offset` and `length` fields.

## Wildcard query node processor (`wildcard.dfy`)

`IsWildcard` and `IsPrefixWildcard` are stated as quantified predicates over the term text. The escape flags of `UnescapedCharSequence` are a sequence `wasEscaped`. `PostProcessNode` is the node rewrite: a prefix-wildcard node, a wildcard node, or the node unchanged.

## Model

| member | source | states |
|---|---|---|
| JaspellTrie.TernarySearchTrie.constructor | src/Lucene.Net.Suggest/Suggest/Jaspell/JaspellTernarySearchTrie.cs:179-191 | an empty trie: no nodes, a null root, diff 0 and no default cap (-1) |
| JaspellTrie.TernarySearchTrie.GetNode | src/Lucene.Net.Suggest/Suggest/Jaspell/JaspellTernarySearchTrie.cs:512-568 | null for the empty key and the empty trie, otherwise the node the fold-comparing walk from the root lands on; it is the one node whose key equals the key up to fold, null when no node has such a key |
| JaspellTrie.TernarySearchTrie.Get | src/Lucene.Net.Suggest/Suggest/Jaspell/JaspellTernarySearchTrie.cs:440-453 | the data of the node the key indexes: every node whose key equals the key up to fold holds it, and it is null when no node has such a key |
| JaspellTrie.TernarySearchTrie.GetOrCreateNode | src/Lucene.Net.Suggest/Suggest/Jaspell/JaspellTernarySearchTrie.cs:582-631 | the empty key is an argument error that changes nothing; otherwise the trie becomes the specified insertion and the landing node is returned, with the invariant kept |
| JaspellTrie.TernarySearchTrie.Put | src/Lucene.Net.Suggest/Suggest/Jaspell/JaspellTernarySearchTrie.cs:806-817 | the insertion with the landing node's data set to the value; afterwards every key equal to the key up to fold gets the value and every other key what it got before (the Put/Get round trip and its frame) |
| JaspellTrie.TernarySearchTrie.GetAndIncrement | src/Lucene.Net.Suggest/Suggest/Jaspell/JaspellTernarySearchTrie.cs:462-481 | for the cleaned-up key: absent means null and nothing changes; otherwise the data becomes old + 1 (1 for none), only that node changes, and Get returns the new count |
| JaspellTrie.TernarySearchTrie.DeleteNode | src/Lucene.Net.Suggest/Suggest/Jaspell/JaspellTernarySearchTrie.cs:308-328 | null changes nothing; otherwise nodes only leave the trie, every node keeps its character and every other node its data, every node left keeps its key, a key whose node it was gets null and every other key what it got before, and the nodes that leave are exactly the lower end of the root-to-node path up to a node the step keeps |
| JaspellTrie.TernarySearchTrie.Remove | src/Lucene.Net.Suggest/Suggest/Jaspell/JaspellTernarySearchTrie.cs:850-862 | every key equal to the trimmed, lower-cased key up to fold gets null and every other key what it got before; the pruning is that of DeleteNode, and a missing key changes nothing |
| JaspellTrie.TernarySearchTrie.SetMatchAlmostDiff | src/Lucene.Net.Suggest/Suggest/Jaspell/JaspellTernarySearchTrie.cs:876-893 | the tolerance is the argument clamped to 0..3, and nothing else changes |
| JaspellTrie.TernarySearchTrie.SetNumReturnValues | src/Lucene.Net.Suggest/Suggest/Jaspell/JaspellTernarySearchTrie.cs:909-915 | the default cap is the argument, or -1 for a negative one |
| JaspellTrie.TernarySearchTrie.NumNodes | src/Lucene.Net.Suggest/Suggest/Jaspell/JaspellTernarySearchTrie.cs:790-805 | the number of nodes reachable by kid links |
| JaspellTrie.TernarySearchTrie.NumDataNodes | src/Lucene.Net.Suggest/Suggest/Jaspell/JaspellTernarySearchTrie.cs:768-783 | the number of reachable nodes with data, never more than NumNodes |
| JaspellTrie.TernarySearchTrie.SortKeys | src/Lucene.Net.Suggest/Suggest/Jaspell/JaspellTernarySearchTrie.cs:912-934 | the keys of the data nodes below the start node in the lo, self, eq, hi order of the recursion, cut to the cap, and that list is in strictly increasing alphabetical order under fold |
| JaspellTrie.TernarySearchTrie.MatchPrefix | src/Lucene.Net.Suggest/Suggest/Jaspell/JaspellTernarySearchTrie.cs:738-762 | empty when the prefix has no node; otherwise the prefix node's key (when it has data, uncapped) and then its eq subtrie in lo, self, eq, hi order under the cap; every key listed begins with the prefix up to fold, the list is alphabetical, and without a cap every key beginning with a nonempty prefix is listed |
| JaspellTrie.TernarySearchTrie.MatchPrefixDefault | src/Lucene.Net.Suggest/Suggest/Jaspell/JaspellTernarySearchTrie.cs:724-736 | MatchPrefix under the default cap, with the same soundness, order and uncapped completeness |
| JaspellTrie.TernarySearchTrie.MatchAlmost | src/Lucene.Net.Suggest/Suggest/Jaspell/JaspellTernarySearchTrie.cs:652-673 | the keys of the key's length with exactly `matchAlmostDiff` fold-mismatches, at most `num` of them for a non-negative `num`, and without a cap every such key |
| JaspellTrie.TernarySearchTrie.MatchAlmostDefault | src/Lucene.Net.Suggest/Suggest/Jaspell/JaspellTernarySearchTrie.cs:638-651 | MatchAlmost under the default cap, with the same soundness, cap and uncapped completeness |
| TrieSpec.CreatePath | src/Lucene.Net.Suggest/Suggest/Jaspell/JaspellTernarySearchTrie.cs:582-631 | the walk-and-create loop of `getOrCreateNode` on the arena computes the specified insertion: its arena, landing node and root |
| TrieSpec.Compare | src/Lucene.Net.Suggest/Suggest/Jaspell/JaspellTernarySearchTrie.cs:125-128 | zero exactly when the folded characters are equal, negative exactly when the first sorts lower |
| TrieSpec.Walk | src/Lucene.Net.Suggest/Suggest/Jaspell/JaspellTernarySearchTrie.cs:542-567 | the walk lands on null or on a node of the subtrie it starts from |
| TrieRead.WalkPath | src/Lucene.Net.Suggest/Suggest/Jaspell/JaspellTernarySearchTrie.cs:542-567 | the node a walk lands on has a key equal to the walked key up to fold |
| TrieSpec.ChainProps | src/Lucene.Net.Suggest/Suggest/Jaspell/JaspellTernarySearchTrie.cs:598-628 | past a created node the rest of the key becomes a chain of eq kids, one new data-less node per character, each parented by the one before, and the walk lands on the last |
| TrieSpec.InsertProps | src/Lucene.Net.Suggest/Suggest/Jaspell/JaspellTernarySearchTrie.cs:582-631 | insertion only appends data-less nodes, keeps old nodes' characters, data and parents, keeps the picture's nodes, makes the walk land on the returned node and, for a key already present, changes nothing |
| TrieSpec.InsertFromFound | src/Lucene.Net.Suggest/Suggest/Jaspell/JaspellTernarySearchTrie.cs:598-631 | inserting a key the walk already finds creates no node and returns that node |
| TrieSpec.InsertFromParents | src/Lucene.Net.Suggest/Suggest/Jaspell/JaspellTernarySearchTrie.cs:608-628 | each new node's parent link names the node it hangs off |
| TrieSpec.InsertKeepsTrie | src/Lucene.Net.Suggest/Suggest/Jaspell/JaspellTernarySearchTrie.cs:582-631 | insertion keeps the arena invariant |
| TrieSpec.SetDataKeepsTrie | src/Lucene.Net.Suggest/Suggest/Jaspell/JaspellTernarySearchTrie.cs:814-817 | changing one node's data keeps the invariant and every walk |
| TrieSpec.ReturnCap | src/Lucene.Net.Suggest/Suggest/Jaspell/JaspellTernarySearchTrie.cs:931-934 | a negative request is no cap (-1), any other is itself |
| TrieSpec.ClampDiff | src/Lucene.Net.Suggest/Suggest/Jaspell/JaspellTernarySearchTrie.cs:876-893 | the tolerance clamped into 0..3, the identity inside it |
| TrieRead.GetKey | src/Lucene.Net.Suggest/Suggest/Jaspell/JaspellTernarySearchTrie.cs:489-510 | the parent-climbing key of a node equals the characters of the nodes left through their eq kid on the root-to-node path, then the node's own |
| TrieRead.KeyOfPath | src/Lucene.Net.Suggest/Suggest/Jaspell/JaspellTernarySearchTrie.cs:489-510 | with exact parent links, climbing parents reads the key of the path from the root |
| TrieRead.NodeCount | src/Lucene.Net.Suggest/Suggest/Jaspell/JaspellTernarySearchTrie.cs:829-850 | the count adds at most the subtrie's size to the accumulator |
| TrieRead.NodeCountIsSize | src/Lucene.Net.Suggest/Suggest/Jaspell/JaspellTernarySearchTrie.cs:829-850 | counting every node gives the number of nodes of the subtrie |
| TrieRead.NodeCountIsData | src/Lucene.Net.Suggest/Suggest/Jaspell/JaspellTernarySearchTrie.cs:829-850 | counting with `checkData` gives the number of data nodes of the subtrie |
| TrieRead.InOrderIsData | src/Lucene.Net.Suggest/Suggest/Jaspell/JaspellTernarySearchTrie.cs:953-970 | the lo, self, eq, hi order lists exactly the data nodes |
| TrieRead.SortKeysRecursion | src/Lucene.Net.Suggest/Suggest/Jaspell/JaspellTernarySearchTrie.cs:953-970 | appends the keys the capped in-order listing gives from the accumulated ones |
| TrieRead.SortListing | src/Lucene.Net.Suggest/Suggest/Jaspell/JaspellTernarySearchTrie.cs:953-970 | from an empty list: all data nodes in lo, self, eq, hi order without a cap, the first `cap` of them with one |
| TrieRead.SortCapped | src/Lucene.Net.Suggest/Suggest/Jaspell/JaspellTernarySearchTrie.cs:953-970 | from a list `acc`: `acc` followed by the first `cap - |acc|` data nodes in lo, self, eq, hi order, so no add goes past the cap |
| TrieRead.SortMembers | src/Lucene.Net.Suggest/Suggest/Jaspell/JaspellTernarySearchTrie.cs:953-970 | the listing appends only data nodes of its subtrie |
| TrieRead.PrefixListing | src/Lucene.Net.Suggest/Suggest/Jaspell/JaspellTernarySearchTrie.cs:749-762 | the prefix node when it has data, whatever the cap, then the eq subtrie's data nodes in lo, self, eq, hi order cut to the room left |
| TrieRead.PrefixSound | src/Lucene.Net.Suggest/Suggest/Jaspell/JaspellTernarySearchTrie.cs:749-762 | every node MatchPrefix lists holds data and its key begins with the prefix up to fold |
| TrieListing.KeyLessIrreflexive | src/Lucene.Net.Suggest/Suggest/Jaspell/JaspellTernarySearchTrie.cs:125-128 | no key sorts before a key equal to it up to fold |
| TrieListing.KeyLessTrans | src/Lucene.Net.Suggest/Suggest/Jaspell/JaspellTernarySearchTrie.cs:125-128 | the alphabetical order under fold is transitive |
| TrieListing.SortedDistinct | src/Lucene.Net.Suggest/Suggest/Jaspell/JaspellTernarySearchTrie.cs:918 | an alphabetical list holds no two keys equal up to fold |
| TrieListing.KeyLessPrefix | src/Lucene.Net.Suggest/Suggest/Jaspell/JaspellTernarySearchTrie.cs:739 | prefixes equal up to fold do not change the order of two keys |
| TrieListing.InOrderSorted | src/Lucene.Net.Suggest/Suggest/Jaspell/JaspellTernarySearchTrie.cs:953-970 | in an ordered trie the lo, self, eq, hi listing of the data nodes is strictly increasing by key |
| TrieListing.SortKeysSorted | src/Lucene.Net.Suggest/Suggest/Jaspell/JaspellTernarySearchTrie.cs:912-934 | `sortKeys` from any start node lists its keys in alphabetical order, with or without a cap |
| TrieListing.PrefixSorted | src/Lucene.Net.Suggest/Suggest/Jaspell/JaspellTernarySearchTrie.cs:738-762 | `matchPrefix` lists its keys in alphabetical order, with or without a cap |
| TrieListing.PrefixNode | src/Lucene.Net.Suggest/Suggest/Jaspell/JaspellTernarySearchTrie.cs:749-762 | each nonempty prefix of a node's key is the key of a node on the way down to it: the node itself or one whose eq subtrie holds it |
| TrieListing.PrefixComplete | src/Lucene.Net.Suggest/Suggest/Jaspell/JaspellTernarySearchTrie.cs:738-762 | without a cap every data node whose key begins with a nonempty prefix up to fold is below the node the prefix walk finds, and listed |
| TrieListing.PrefixKeysAll | src/Lucene.Net.Suggest/Suggest/Jaspell/JaspellTernarySearchTrie.cs:738-762 | without a cap the key of every data node beginning with a nonempty prefix is in the listing |
| TrieListing.AlmostComplete | src/Lucene.Net.Suggest/Suggest/Jaspell/JaspellTernarySearchTrie.cs:698-722 | without a cap the near-miss search appends every data node whose key has the target's length and the sought mismatches from the current position |
| TrieListing.AlmostFindsAll | src/Lucene.Net.Suggest/Suggest/Jaspell/JaspellTernarySearchTrie.cs:652-673 | without a cap every data node whose key has the target's length and exactly `d` fold-mismatches is listed |
| TrieListing.AlmostKeysAll | src/Lucene.Net.Suggest/Suggest/Jaspell/JaspellTernarySearchTrie.cs:652-673 | without a cap the key of every such node is in the listing |
| TrieOrder.WalkFinds | src/Lucene.Net.Suggest/Suggest/Jaspell/JaspellTernarySearchTrie.cs:542-567 | in an ordered trie the walk lands on every node whose key equals the walked key up to fold |
| TrieOrder.WalkKeyed | src/Lucene.Net.Suggest/Suggest/Jaspell/JaspellTernarySearchTrie.cs:520-568 | the walk from the root lands on the one node keyed by the key, null when none is or the key is empty |
| TrieOrder.LookupFrame | src/Lucene.Net.Suggest/Suggest/Jaspell/JaspellTernarySearchTrie.cs:445-453 | two tries give the same data for a key when the common nodes keep their keys and data and the others hold none |
| TrieOrder.InsertKeepsOrder | src/Lucene.Net.Suggest/Suggest/Jaspell/JaspellTernarySearchTrie.cs:582-631 | `getOrCreateNode` keeps the search tree order |
| TrieOrder.PutLookup | src/Lucene.Net.Suggest/Suggest/Jaspell/JaspellTernarySearchTrie.cs:814-817 | after storing a value every key equal to the stored one up to fold gets it and every other key what it got before |
| TrieOrder.PrunedOrdered | src/Lucene.Net.Suggest/Suggest/Jaspell/JaspellTernarySearchTrie.cs:347-437 | the corrected pruning step keeps the search tree order |
| TrieAlmost.MatchAlmostRecursion | src/Lucene.Net.Suggest/Suggest/Jaspell/JaspellTernarySearchTrie.cs:698-722 | appends the keys of the specified near-miss search (side steps kept at the same index and tolerance, eq step spending one on a mismatch, a key reported at depth `key.Length`), the cap also checked before the add |
| TrieAlmost.AlmostSound | src/Lucene.Net.Suggest/Suggest/Jaspell/JaspellTernarySearchTrie.cs:698-722 | the search only appends, and only data nodes of the key's length with exactly (or, with `upTo`, at most) `d` mismatches |
| TrieAlmost.AlmostCapped | src/Lucene.Net.Suggest/Suggest/Jaspell/JaspellTernarySearchTrie.cs:698-722 | with the cap checked before each add, the result never exceeds the cap |
| TrieAlmost.AlmostOvershoot | src/Lucene.Net.Suggest/Suggest/Jaspell/JaspellTernarySearchTrie.cs:712-715 | as written, on the trie b, a, c with tolerance 1 and cap 1, "d" lists two keys where the capped search lists one |
| TrieDelete.ChildSlot | src/Lucene.Net.Suggest/Suggest/Jaspell/JaspellTernarySearchTrie.cs:361-377 | the first of lo, eq, hi holding the node, or none when no slot holds it |
| TrieDelete.MovingSlot | src/Lucene.Net.Suggest/Suggest/Jaspell/JaspellTernarySearchTrie.cs:396-420 | the higher kid moves exactly when its raw distance is at least the lower kid's (a tie goes to the higher kid) |
| TrieDelete.ChainEnd | src/Lucene.Net.Suggest/Suggest/Jaspell/JaspellTernarySearchTrie.cs:421-424 | the end of the chain follows one link and continues from there |
| TrieDelete.DeleteNodeRecursionAsWritten | src/Lucene.Net.Suggest/Suggest/Jaspell/JaspellTernarySearchTrie.cs:347-437 | the source's step keeps every link inside the arena and names a next node in it |
| TrieDelete.DeleteNodeAsWritten | src/Lucene.Net.Suggest/Suggest/Jaspell/JaspellTernarySearchTrie.cs:316-328 | the source's deletion keeps every link inside the arena |
| TrieDelete.GraftDropsKey | src/Lucene.Net.Suggest/Suggest/Jaspell/JaspellTernarySearchTrie.cs:421-426 | removing "xm" from xm, xa, xc, xz leaves "xa" with data but no link leading to it |
| TrieDelete.GraftStaleParent | src/Lucene.Net.Suggest/Suggest/Jaspell/JaspellTernarySearchTrie.cs:425-427 | removing "xm" from xm, xa, xz leaves "xz" with a parent link on the removed node, so its key reads "z" |
| TrieDelete.RootRemovalCrashes | src/Lucene.Net.Suggest/Suggest/Jaspell/JaspellTernarySearchTrie.cs:358-362 | removing the only key of the trie "a" dereferences the root's null parent |
| TriePrune.PruneStepKeeps | src/Lucene.Net.Suggest/Suggest/Jaspell/JaspellTernarySearchTrie.cs:347-437 | the corrected step keeps the invariant and the data nodes, removes exactly the pruned node, keeps every other key, goes on at the parent, and leaves a node with an eq kid or data alone |
| TriePrune.PruneArena | src/Lucene.Net.Suggest/Suggest/Jaspell/JaspellTernarySearchTrie.cs:379-436 | leaf, one-kid and two-kid cases give an exact arena whose next node is the pruned node's parent |
| TriePrune.PruneKeys | src/Lucene.Net.Suggest/Suggest/Jaspell/JaspellTernarySearchTrie.cs:379-436 | pruning removes exactly the node from the picture, keeps the data nodes and every other node's key |
| TriePrune.ClearData | src/Lucene.Net.Suggest/Suggest/Jaspell/JaspellTernarySearchTrie.cs:322 | clearing a node's data keeps the invariant and every key and takes just that node out of the data nodes |
| TriePrune.FindChainEnd | src/Lucene.Net.Suggest/Suggest/Jaspell/JaspellTernarySearchTrie.cs:421-424 | the down-walk ends where the other kid's moving chain ends |
| TriePrune.HangKids | src/Lucene.Net.Suggest/Suggest/Jaspell/JaspellTernarySearchTrie.cs:396-436 | the two-kid updates in the source's order, with the moving kid's parent following it |
| TriePrune.DeleteStep | src/Lucene.Net.Suggest/Suggest/Jaspell/JaspellTernarySearchTrie.cs:347-437 | the corrected `deleteNodeRecursion` on the arena computes the specified step |
| TrieRemove.PathOfParent | src/Lucene.Net.Suggest/Suggest/Jaspell/JaspellTernarySearchTrie.cs:358 | the parent of a node below the root is the node before it on its root path, whose own path is that path without the node |
| TrieRemove.PathReplace | src/Lucene.Net.Suggest/Suggest/Jaspell/JaspellTernarySearchTrie.cs:379-436 | replacing the subtrie of one node keeps the root path of every node outside it |
| TrieRemove.PruneStepPath | src/Lucene.Net.Suggest/Suggest/Jaspell/JaspellTernarySearchTrie.cs:347-437 | a step that prunes the path node at position `kept - 1` removes just that node and goes on at the path node above it with the same path, or stops at the root |
| TrieRemove.PruneStepAlong | src/Lucene.Net.Suggest/Suggest/Jaspell/JaspellTernarySearchTrie.cs:347-437 | one step keeps the pruning promise along the root path to the start node, with fewer path nodes left to look at |
| TrieRemove.PruneFrom | src/Lucene.Net.Suggest/Suggest/Jaspell/JaspellTernarySearchTrie.cs:321-327 | the loop of `deleteNode`: the invariant, the order, every character, every data and every node left's key stay, and the nodes that leave are exactly the lower end of the root path to the start node, up to a path node the step keeps |
| TrieRemove.ClearedPruned | src/Lucene.Net.Suggest/Suggest/Jaspell/JaspellTernarySearchTrie.cs:322-327 | clearing the node's data and pruning from it takes exactly that node out of the data nodes and keeps every other data and every key |
| TrieRemove.RemoveLookup | src/Lucene.Net.Suggest/Suggest/Jaspell/JaspellTernarySearchTrie.cs:316-328 | after the deletion a key whose node was the deleted one gets null and every other key what it got before |
| HashTable.Hashtable.constructor | src/Lucene.Net.81/Collections/Hashtable.cs:146-149 | an empty valid table of the given prime size with the given load factor and hash function |
| HashTable.Hashtable.Count | src/Lucene.Net.81/Collections/Hashtable.cs:165-171 | `inUse` is the number of keys of the dictionary |
| HashTable.Hashtable.Find | src/Lucene.Net.81/Collections/Hashtable.cs:482-516 | a null key throws; otherwise a slot index exactly when the key is present, and that slot holds the key and its value |
| HashTable.Hashtable.Get | src/Lucene.Net.81/Collections/Hashtable.cs:232-270 | the indexer's getter: a null key throws, else the key's value, null for an absent key |
| HashTable.Hashtable.Set | src/Lucene.Net.81/Collections/Hashtable.cs:271-274 | the indexer's setter: a null key throws, else the dictionary maps the key to the value (set then get) |
| HashTable.Hashtable.Add | src/Lucene.Net.81/Collections/Hashtable.cs:323-326 | a present key throws an argument error and keeps the dictionary; an absent one is added and the count grows by one |
| HashTable.Hashtable.Contains | src/Lucene.Net.81/Collections/Hashtable.cs:341-344 | a null key throws, else whether the key is present (also `ContainsKey`, 369-372) |
| HashTable.Hashtable.ContainsValue | src/Lucene.Net.81/Collections/Hashtable.cs:374-403 | whether some key maps to the value, a null value included |
| HashTable.Hashtable.Remove | src/Lucene.Net.81/Collections/Hashtable.cs:351-367 | a null key throws; a present key leaves the dictionary, the count drops by one and the modification count grows; an absent key changes nothing |
| HashTable.Hashtable.Clear | src/Lucene.Net.81/Collections/Hashtable.cs:328-339 | every slot empty, every word zero, count 0, the modification count bumped |
| HashTable.Hashtable.PutImpl | src/Lucene.Net.81/Collections/Hashtable.cs:568-643 | a null key throws; a duplicate `Add` throws and keeps the dictionary; otherwise the key maps to the value and the count grows exactly for a new key; the table only grows, and only when the modification count moves |
| HashTable.Hashtable.AdjustThreshold | src/Lucene.Net.81/Collections/Hashtable.cs:463-470 | the threshold is the truncated size times load factor, capped at size - 1 |
| HashTable.Hashtable.SetTable | src/Lucene.Net.81/Collections/Hashtable.cs:472-480 | the new arrays installed and the threshold adjusted to them |
| HashTable.Hashtable.Rehash | src/Lucene.Net.81/Collections/Hashtable.cs:519-565 | fresh arrays of `ToPrime(2 * size + 1)` slots, the same dictionary and count, the modification count bumped |
| HashTable.Hashtable.GetEnumerator | src/Lucene.Net.81/Collections/Hashtable.cs:346-349 | a fresh entry enumerator on this table, positioned before the first slot |
| HashTable.ThresholdFor | src/Lucene.Net.81/Collections/Hashtable.cs:463-470 | the threshold is always below the size |
| HashTable.ThresholdLoads | src/Lucene.Net.81/Collections/Hashtable.cs:463-470 | load factor 1.0 gives threshold size - 1, and 0.0 gives 0 |
| HashTable.Truncate | src/Lucene.Net.81/Collections/Hashtable.cs:467 | the cast to int rounds toward zero |
| HashTable.FindSlot | src/Lucene.Net.81/Collections/Hashtable.cs:482-516 | the probe loop computes the specified search: the key's slot, or -1 at an empty slot, an unchained word or after `size` probes |
| HashTable.PutSlots | src/Lucene.Net.81/Collections/Hashtable.cs:576-643 | with room left, the probe loop keeps the invariant, replaces or adds the key (or reports a duplicate and changes nothing), and counts a new key |
| HashTable.HoldsValue | src/Lucene.Net.81/Collections/Hashtable.cs:374-403 | true exactly when a live slot holds the value |
| HashTable.NextLive | src/Lucene.Net.81/Collections/Hashtable.cs:755-765 | the first live slot after a position, or the size, with nothing live skipped |
| HashTable.Enumerator.constructor | src/Lucene.Net.81/Collections/Hashtable.cs:720-727 | records the table, its modification count and size, and starts before the first slot |
| HashTable.Enumerator.Reset | src/Lucene.Net.81/Collections/Hashtable.cs:742-749 | throws on a changed table, else back before the first slot with no current entry |
| HashTable.Enumerator.MoveNext | src/Lucene.Net.81/Collections/Hashtable.cs:751-773 | throws on a changed table; otherwise moves to the next live slot, whose key and value are an entry of the dictionary, or past the end with no current entry |
| HashTable.Enumerator.Entry | src/Lucene.Net.81/Collections/Hashtable.cs:775-783 | fails with no current key or a changed table, else the current pair |
| HashTable.Enumerator.Key | src/Lucene.Net.81/Collections/Hashtable.cs:785-793 | fails with no current key or a changed table, else the current key |
| HashTable.Enumerator.Value | src/Lucene.Net.81/Collections/Hashtable.cs:795-803 | fails with no current key or a changed table, else the current value |
| HashTable.Enumerator.Current | src/Lucene.Net.81/Collections/Hashtable.cs:805-822 | fails with no current key (without looking at the table), else the key, value or pair the mode asks for |
| HashInsert.Scan | src/Lucene.Net.81/Collections/Hashtable.cs:586-631 | `PutImpl`'s probe loop as a function: it only adds chain bits, on probes before the first reusable slot |
| HashInsert.ScanFinds | src/Lucene.Net.81/Collections/Hashtable.cs:607-622 | a present key is found at its slot and no slot changes |
| HashInsert.ScanFree | src/Lucene.Net.81/Collections/Hashtable.cs:586-641 | with room left, an absent key gets a reusable slot and the marked words keep the invariant |
| HashInsert.ScanInserts | src/Lucene.Net.81/Collections/Hashtable.cs:586-641 | an absent key written into the reusable slot gives a valid table mapping it to the value, one live key more |
| HashInsert.ScanSlots | src/Lucene.Net.81/Collections/Hashtable.cs:586-631 | the probe loop over the arrays computes `Scan` |
| HashInsert.Place | src/Lucene.Net.81/Collections/Hashtable.cs:543-557 | `Rehash`'s inner loop keeps the arrays' sizes |
| HashInsert.PlaceFrom | src/Lucene.Net.81/Collections/Hashtable.cs:543-557 | the inner loop writes the slot into the first empty probe and keeps the invariant |
| HashInsert.PlaceSlot | src/Lucene.Net.81/Collections/Hashtable.cs:543-557 | the inner loop over the arrays computes `Place` |
| HashInsert.RehashStep | src/Lucene.Net.81/Collections/Hashtable.cs:535-560 | one outer round keeps the new arrays standing for the old slots seen so far, `Removed` markers included |
| HashInsert.Regrow | src/Lucene.Net.81/Collections/Hashtable.cs:519-560 | fresh valid arrays of `ToPrime(2 * size + 1)` slots with the same dictionary and live count |
| HashSlots.FindFrom | src/Lucene.Net.81/Collections/Hashtable.cs:495-515 | the search answers -1 or a slot holding the key |
| HashSlots.FindContents | src/Lucene.Net.81/Collections/Hashtable.cs:482-516 | on a valid table the search finds a slot exactly when the key is in the dictionary |
| HashSlots.ContentsCard | src/Lucene.Net.81/Collections/Hashtable.cs:165-171 | with unique keys the dictionary has as many keys as there are live slots |
| HashSlots.ValueInSlots | src/Lucene.Net.81/Collections/Hashtable.cs:374-403 | a value is in the dictionary exactly when a live slot holds it |
| HashSlots.RemoveOk | src/Lucene.Net.81/Collections/Hashtable.cs:354-365 | keeping only the chain bit and leaving `Removed` (chained) or empty keeps the invariant and removes just that key |
| HashSlots.OverwriteOk | src/Lucene.Net.81/Collections/Hashtable.cs:609-613 | replacing a live slot's value keeps the invariant and maps the key to the new value |
| HashSlots.FillOk | src/Lucene.Net.81/Collections/Hashtable.cs:633-641 | writing an absent key into a reusable slot at the end of its marked probes keeps the invariant |
| HashSlots.EmptyOk | src/Lucene.Net.81/Collections/Hashtable.cs:328-339 | all-empty arrays keep the invariant |
| HashSlots.EmptyMap | src/Lucene.Net.81/Collections/Hashtable.cs:328-339 | all-empty arrays stand for the empty dictionary |
| HashSlots.ProbesAllLive | src/Lucene.Net.81/Collections/Hashtable.cs:586-631 | a prime table whose every probe of a hash is live has no room left |
| HashProbe.Step | src/Lucene.Net.81/Collections/Hashtable.cs:492 | the probe step lies in 1..size-1 |
| HashProbe.Probe | src/Lucene.Net.81/Collections/Hashtable.cs:497 | every probe index is reduced modulo the size |
| HashProbe.ProbeNext | src/Lucene.Net.81/Collections/Hashtable.cs:497-513 | reducing before adding the step lands on the next probe |
| HashProbe.ProbeInjective | src/Lucene.Net.81/Collections/Hashtable.cs:495-514 | with a prime size the first `size` probes are all different |
| HashProbe.ProbeReaches | src/Lucene.Net.81/Collections/Hashtable.cs:495-514 | with a prime size every slot is among the first `size` probes |
| HashProbe.SpotClosed | src/Lucene.Net.81/Collections/Hashtable.cs:579-629 | `PutImpl`'s running `uint` sum is the probe sum modulo 2^32 |
| HashProbe.PutProbeWraps | src/Lucene.Net.81/Collections/Hashtable.cs:579-629 | on 1215497 slots, hash 2147483647, probe 8370 goes to slot 132801 in `PutImpl` but 749196 in `Find` |
| Cardinality.RangeCard | src/Lucene.Net.81/Collections/Hashtable.cs:165-171 | a set of indices below `n` has at most `n` members (used for the live count and the trie's node counts) |
| HashPrimes.ISqrt | src/Lucene.Net.81/Collections/Hashtable.cs:665 | the integer square root rounded down |
| HashPrimes.TestPrimeAcceptsSquares | src/Lucene.Net.81/Collections/Hashtable.cs:661-676 | the test as written accepts 9, 15, 25 and 1 |
| HashPrimes.OddPrimeByTrial | src/Lucene.Net.81/Collections/Hashtable.cs:661-676 | an odd number with no odd factor up to its square root is prime |
| HashPrimes.TestPrime | src/Lucene.Net.81/Collections/Hashtable.cs:661-676 | true exactly for primes, odd divisors tried up to and including the square root, 2 the only even prime |
| HashPrimes.CalcStart | src/Lucene.Net.81/Collections/Hashtable.cs:680 | the search starts at the odd number `(x & ~1) - 1`, one or two below `x` |
| HashPrimes.CalcPrimeFromFinds | src/Lucene.Net.81/Collections/Hashtable.cs:678-685 | the search finds a prime from its start on, or falls back to `x` |
| HashPrimes.CalcPrime | src/Lucene.Net.81/Collections/Hashtable.cs:678-685 | the first odd prime from the start below `Int32.MaxValue`, else `x`; a prime is never more than 2 below `x` |
| HashPrimes.CalcPrimeAsWritten | src/Lucene.Net.81/Collections/Hashtable.cs:678-685 | the search with the source's test: `x` or a number from the start below `Int32.MaxValue` that the as-written test passes |
| HashPrimes.CalcPrimeAsWrittenComposite | src/Lucene.Net.81/Collections/Hashtable.cs:678-685 | as written `CalcPrime(11)` starts at 9 and returns the composite 9, where the corrected search returns 11 |
| HashPrimes.TableBounds | src/Lucene.Net.81/Collections/Hashtable.cs:50-85 | the 34 entries of the prime table increase to 13845163 |
| HashPrimes.ToPrime | src/Lucene.Net.81/Collections/Hashtable.cs:687-695 | the loop computes the specified size |
| HashPrimes.ToPrimeSmallest | src/Lucene.Net.81/Collections/Hashtable.cs:687-695 | within the table the smallest entry at least `x`, past it `CalcPrime(x)` |
| HashPrimes.ToPrimeAtLeast | src/Lucene.Net.81/Collections/Hashtable.cs:527 | the grown size is never more than 2 below the size asked for |
| Unicode.Combine | src/Lucene.Net.81/Util/UnicodeUtil.cs:122 | a surrogate pair combines to a supplementary code point |
| Unicode.EncodeFirst | src/Lucene.Net.81/Util/UnicodeUtil.cs:211-252 | one step of the encoder consumes one or two code units and writes one to three bytes per unit consumed |
| Unicode.EncodeUtf8Length | src/Lucene.Net.81/Util/UnicodeUtil.cs:201-208 | the encoding takes between one and three bytes per code unit, so the four-per-unit buffer suffices |
| Unicode.BytesRef.constructor | src/Lucene.Net.81/Util/UnicodeUtil.cs:197-257 | a byte slice over the given array, offset and length |
| Unicode.IntsRef.constructor | src/Lucene.Net.81/Util/UnicodeUtil.cs:451-504 | an int slice over the given array, offset and length |
| Unicode.CharsRef.constructor | src/Lucene.Net.81/Util/UnicodeUtil.cs:129-190 | a char slice over the given array, offset and length |
| Unicode.CharsRef.CharAt | src/Lucene.Net.81/Util/UnicodeUtil.cs:145 | the code unit at the index relative to the slice's offset |
| Unicode.EncodeInto | src/Lucene.Net.81/Util/UnicodeUtil.cs:201-256 | the bytes written at offset 0 are the UTF-8 form of the slice; the buffer is kept when it holds four bytes per unit and replaced by one of exactly that size otherwise |
| Unicode.Utf16ToUtf8 | src/Lucene.Net.81/Util/UnicodeUtil.cs:197-257 | the array overload: the same bytes and buffer rules |
| Unicode.Utf16ToUtf8FromChars | src/Lucene.Net.81/Util/UnicodeUtil.cs:129-190 | the character-slice overload: the same bytes and buffer rules |
| Unicode.ValidUtf16Prefix | src/Lucene.Net.81/Util/UnicodeUtil.cs:353-386 | whether the first `size` units have no unpaired surrogate (nothing checked for a negative size) |
| Unicode.ValidUtf16String | src/Lucene.Net.81/Util/UnicodeUtil.cs:315-351 | whether the whole array has no unpaired surrogate, agreeing with the `size` overload at the full length |
| Unicode.Utf8CodeLength | src/Lucene.Net.81/Util/UnicodeUtil.cs:396-402 | the 248-entry lead table: 1, invalid, 2, 3, 4 over 0x00-0x7F, 0x80-0xBF, 0xC0-0xDF, 0xE0-0xEF, 0xF0-0xF7 |
| Unicode.LeadLength | src/Lucene.Net.81/Util/UnicodeUtil.cs:424-431 | the counter's lead classes agree with the lead table, 0 for a rejected lead |
| Unicode.CodePointCount | src/Lucene.Net.81/Util/UnicodeUtil.cs:414-441 | the loop computes the specified count, failing on a rejected lead or an overrun last sequence |
| Unicode.CountOfUtf8 | src/Lucene.Net.81/Util/UnicodeUtil.cs:414-441 | counting the UTF-8 form of code points gives their number |
| Unicode.Utf8ToUtf32 | src/Lucene.Net.81/Util/UnicodeUtil.cs:451-504 | the code points of the specified decoding at offset 0 of a buffer regrown to `utf8.length` when shorter; a decoding error leaves offset and length |
| Unicode.DecodeUtf32OfUtf8 | src/Lucene.Net.81/Util/UnicodeUtil.cs:451-504 | decoding the UTF-8 form of code points to UTF-32 gives them back |
| Unicode.DecodeFirst16 | src/Lucene.Net.81/Util/UnicodeUtil.cs:658-688 | one decoded sequence consumes at least one byte and gives one or two code units |
| Unicode.Utf8ToUtf16 | src/Lucene.Net.81/Util/UnicodeUtil.cs:651-691 | the code units of the specified decoding at offset 0, the buffer regrown when shorter than `length`; an overrun is an index error |
| Unicode.DecodeUtf16OfUtf8 | src/Lucene.Net.81/Util/UnicodeUtil.cs:651-691 | decoding the UTF-8 form of code points to UTF-16 gives their UTF-16 form |
| Unicode.EncodeThenDecode16 | src/Lucene.Net.81/Util/UnicodeUtil.cs:651-691 | decoding the encoder's output gives the text with unpaired surrogates replaced, and valid UTF-16 back unchanged |
| Unicode.EncodeThenDecode32 | src/Lucene.Net.81/Util/UnicodeUtil.cs:451-504 | decoding the encoder's output to UTF-32 gives the text's code points, and the counter agrees |
| Unicode.CodePointUnits | src/Lucene.Net.81/Util/UnicodeUtil.cs:571-581 | a BMP code point is one unit; a supplementary one a high and a low surrogate that combine back to it |
| Unicode.UnitsOfCodePoints | src/Lucene.Net.81/Util/UnicodeUtil.cs:552-597 | well-formed UTF-16 is the UTF-16 form of its own code points |
| Unicode.CodePointsOfUnits | src/Lucene.Net.81/Util/UnicodeUtil.cs:552-597 | the UTF-16 form of scalar values is well-formed and gives those values back |
| Unicode.CodePointsToUtf16Ok | src/Lucene.Net.81/Util/UnicodeUtil.cs:552-597 | in-range code points convert to their UTF-16 form, one unit per BMP and two per supplementary code point |
| Unicode.ToCharArray | src/Lucene.Net.81/Util/UnicodeUtil.cs:552-597 | a negative count is an argument error; otherwise the specified conversion, failing on a code point out of range or a position off the array |
| Unicode.NewString | src/Lucene.Net.81/Util/UnicodeUtil.cs:539-543 | the same text as ToCharArray |
| Unicode.Regrown | src/Lucene.Net.81/Util/UnicodeUtil.cs:584-590 | the regrown capacity always fits the two units about to be written |
| Unicode.RegrownBound | src/Lucene.Net.81/Util/UnicodeUtil.cs:586 | the integer ceiling of `total * need / done` is at least `need` |
| Wildcard.AnyWildcardBelow | src/contrib/QueryParsers/Flexible/Standard/Processors/WildcardQueryNodeProcessor.cs:64-71 | the backward scan finds an unescaped `*` or `?` exactly when one exists below the bound |
| Wildcard.IsWildcard | src/contrib/QueryParsers/Flexible/Standard/Processors/WildcardQueryNodeProcessor.cs:58-73 | true iff the text is non-empty and some position holds an unescaped `*` or `?` |
| Wildcard.PrefixScanMeaning | src/contrib/QueryParsers/Flexible/Standard/Processors/WildcardQueryNodeProcessor.cs:87-99 | the forward scan accepts exactly when nothing before the last position is a `?` or an unescaped `*` |
| Wildcard.IsPrefixWildcard | src/contrib/QueryParsers/Flexible/Standard/Processors/WildcardQueryNodeProcessor.cs:75-100 | implies IsWildcard, and is true iff the text is longer than one character, ends in an unescaped `*`, and has no `?` and no unescaped `*` before it |
| Wildcard.PostProcessNode | src/contrib/QueryParsers/Flexible/Standard/Processors/WildcardQueryNodeProcessor.cs:21-56 | untouched for non-field, quoted, range-child or empty nodes; otherwise prefix wildcard before general wildcard before unchanged, keeping field and text |
| Wildcard.PostProcessIdempotent | src/contrib/QueryParsers/Flexible/Standard/Processors/WildcardQueryNodeProcessor.cs:21-56 | processing twice gives what processing once gives |
| Wildcard.PostProcessKinds | src/contrib/QueryParsers/Flexible/Standard/Processors/WildcardQueryNodeProcessor.cs:21-56 | a prefix-wildcard node comes only from prefix-wildcard text or node, and non-wildcard text is never rewritten |
| Wildcard.PreProcessNode | src/contrib/QueryParsers/Flexible/Standard/Processors/WildcardQueryNodeProcessor.cs:102-105 | the identity |
| Wildcard.SetChildrenOrder | src/contrib/QueryParsers/Flexible/Standard/Processors/WildcardQueryNodeProcessor.cs:107-110 | the identity on the children |
| Wildcard.Examples | src/contrib/QueryParsers/Flexible/Standard/Processors/WildcardQueryNodeProcessor.cs:75-100 | `a*` is a prefix query, `*` and `a*b` and `a?*` are wildcards only, an escaped star is no wildcard |

## Left out

### Trie
- The file-loading constructors (JaspellTernarySearchTrie.cs:216-307) are not modelled. They are file and GZIP input plus float parsing.
- `SizeInBytes` is not modelled. It calls the foreign `RamUsageEstimator`.
- Null keys are not modelled: strings here are never null. The empty key is handled as the source does.
- Locale lower-casing and trimming are not modelled as Unicode rules:
  - `char.ToLower` is the parameter `fold`;
  - `key.Trim().ToLower(locale)` is the parameter `normalize`.
- Data payloads are integers, not boxed objects. `GetAndIncrement` counts in integers rather than through a `float?` cast.
- The tie-break of the two-kid deletion is not computed. It uses `new Random(1).NextDouble() < 0.5`, and .NET's first draw from seed 1 is taken to be below one half, so a tie moves the higher kid.
- TrieRead.GetKey: the parent climb is bounded by the number of arena nodes. With exact parent links it never needs more.
- JaspellTrie.TernarySearchTrie.DeleteNode: the class deletes with the corrected pruning step. The source's step is modelled separately by `TrieDelete.DeleteNodeRecursionAsWritten`, and its defects are listed under Findings.
- JaspellTrie.TernarySearchTrie.MatchAlmost: the class uses the search with the cap re-checked before each add. The source's search is `TrieAlmost.AlmostAsWritten`; see Findings.
- JaspellTrie.TernarySearchTrie.MatchAlmostDefault: uses the same corrected search as `MatchAlmost`, under the default cap; the source's is `TrieAlmost.AlmostAsWritten`.
- TrieAlmost.MatchAlmostRecursion: re-checks the cap before each add, so it never lists more than the cap; the source's search, which checks it only on entry, is `TrieAlmost.AlmostAsWritten`.
- JaspellTrie.TernarySearchTrie.Remove: deletes through `DeleteNode` with the corrected pruning step, so removing the only key empties the trie where the source dereferences the root's null parent; the source's deletion is `TrieDelete.DeleteNodeAsWritten`.
- TriePrune.DeleteStep: is the corrected `deleteNodeRecursion`. It re-roots a prunable root, and in the two-kid case puts the other kid itself, not the end of its chain, in the parent's slot. The source's step is `TrieDelete.DeleteNodeRecursionAsWritten` (see Findings).
- TriePrune.HangKids: hangs the moving kid below the end of the other kid's chain and sets the moving kid's parent link to that chain end, where the source leaves it naming the deleted node (see Findings).

### Hashtable
- HashTable.Hashtable.constructor: the source's constructors allocate no arrays and store no load factor. As written, `table` stays null and `loadFactor` stays 0. The model's constructor instead requires a prime size, allocates both arrays, and stores the load factor, which is a real number with no float rounding. The `IDictionary` and copying constructors are left out.
- HashTable.Hashtable.PutImpl: primality of the prime-table entries is not proved. The next size is therefore required to be prime whenever an insertion would rehash (`CanGrow`).
- HashTable.Hashtable.Set: carries the same `CanGrow` precondition as `PutImpl`, for the same reason.
- HashTable.Hashtable.Add: carries the same `CanGrow` precondition as `PutImpl`, for the same reason.
- HashTable.Hashtable.Rehash: requires the next size to be prime, for the same reason.
- HashPrimes.CalcPrime: tests with the corrected primality test, where the source's `CalcPrime` tests with `TestPrime` as written and can return a square of a prime (e.g. 13890529 for 13890531, or 9 for 11). The as-written search is `HashPrimes.CalcPrimeAsWritten`.
- HashPrimes.CalcPrimeFromFinds: is about the corrected search, for the same reason as `CalcPrime`.
- HashPrimes.ToPrime: past the prime table it uses the corrected `CalcPrime`, so for such a size it returns a true prime where the source may return a composite.
- 32-bit wrap-around is not modelled:
  - of `modificationCount`;
  - of `(oldSize << 1) | 1`;
  - of `inUse`.
- HashTable.Hashtable.PutImpl: probes with the index reduced at every step, as `Find` does. The source keeps a running `uint` sum instead, which differs on large tables (see Findings).
- HashTable.Hashtable.Rehash: reinserts with the index reduced at every step, where the source keeps the same running `uint` sum as `PutImpl`.
- GetHash and KeyEquals are left out:
  - `IEqualityComparer`, `IHashCodeProvider` and `IComparer` become one hash function and the key type's equality;
  - reference equality is folded into that equality.
- `ContainsValue` is modelled as one equality test on optional values. The source has one loop comparing references for a null value and one calling `Equals` for the rest.
- `Rehash`'s inner probe loop has no bound in the source. The model bounds it by the table size and proves that an empty slot is found inside that bound.
- HashTable.Enumerator.MoveNext: requires that, while the table is unchanged, the enumerator's size is the table's length. The source relies on that without stating it.
- Further parts are not modelled:
  - the `Keys` and `Values` collections;
  - the key and value enumerator modes, which are reachable only from those collections;
  - `CopyTo`, `CopyToArray`, `Clone`, `Synchronized` and `SyncHashtable`, which are locking and reflection over arrays;
  - the `IsSynchronized`, `SyncRoot`, `IsFixedSize` and `IsReadOnly` properties.

### UnicodeUtil
- `ToHexString`, `BIG_TERM` and the commented-out `matches` helpers are not modelled.
- Unicode.Utf8ToUtf16: `ArrayUtil.Grow` is not part of this model. The size it returns is a parameter `grownLength`, required to be at least `length`.
- 32-bit wrap-around of the slice arithmetic is not modelled: `offset + length` (UnicodeUtil.cs:133, :199), `length * 4` (UnicodeUtil.cs:136, :204, negative in .NET once a slice is longer than 536870911 units) and `offset + count` (UnicodeUtil.cs:560) are unbounded integers here, and the slices are required to lie inside their arrays.
- Unicode.CharsRef.CharAt: `CharsRef` is not part of this model beyond its fields. `CharAt` reads `chars[offset + index]` and requires only that this lies inside the array. The slice-length check of the library's `CharAt` is not modelled, so an index at or past `length`, or a negative index when `offset > 0`, reads the array where the library throws `IndexOutOfRangeException`.
- Unicode.Utf16ToUtf8FromChars: requires only `0 <= offset` and that the units lie inside `source.chars`. It encodes units past `source.length` where the library's `CharAt` (UnicodeUtil.cs:145) throws, and a negative `offset`, which the library also rejects by throwing, is excluded by the requires rather than modelled as the exception.
- Unicode.ToCharArray: the floating-point `Math.Ceiling` regrow is modelled as an integer ceiling. The model proves it always makes room for the two units about to be written.

### Wildcard
- The query-node hierarchy is reduced to a node kind, a field, a text and whether the parent is a term range. `UnescapedCharSequence` is reduced to an escape-flag sequence.
- The new wildcard nodes are the old node with its kind changed; nothing else about the node classes is modelled.

## Findings

| source | as written | input that shows it | evidently intended | confidence | as-written member | corrected member |
|---|---|---|---|---|---|---|
| src/Lucene.Net.Suggest/Suggest/Jaspell/JaspellTernarySearchTrie.cs:712-715 | the result cap is checked only on entry, so the add after the lower subtrie can exceed it | keys "b", "a", "c"; tolerance 1; `MatchAlmost("d", 1)` lists "a" and "b" | at most `numReturnValues` keys | not executed | TrieAlmost.AlmostOvershoot | TrieAlmost.AlmostCapped |
| src/Lucene.Net.Suggest/Suggest/Jaspell/JaspellTernarySearchTrie.cs:426 | the two-kid case puts the end of the other kid's chain, not the other kid, in the parent's slot, so the nodes between are unlinked | keys "xm", "xa", "xc", "xz"; `Remove("xm")` leaves "xa" unreachable | every other key stays in the trie | not executed | TrieDelete.GraftDropsKey | TriePrune.PruneStepKeeps |
| src/Lucene.Net.Suggest/Suggest/Jaspell/JaspellTernarySearchTrie.cs:425 | the moving kid is hung below the chain end, but its parent link keeps naming the deleted node | keys "xm", "xa", "xz"; `Remove("xm")`, then the key of node "xz" reads "z" | the moving kid's parent is its new parent | not executed | TrieDelete.GraftStaleParent | TriePrune.PruneKeys |
| src/Lucene.Net.Suggest/Suggest/Jaspell/JaspellTernarySearchTrie.cs:357-362 | a prunable root has a null parent, which is dereferenced | `Put("a", 1)`; `Remove("a")` | a prunable root is replaced as the root by what is left below it, so removing the only key empties the trie | not executed | TrieDelete.RootRemovalCrashes | TriePrune.PruneArena |
| src/Lucene.Net.81/Collections/Hashtable.cs:667 | odd divisors are tried only below the square root, and 1 is accepted | `TestPrime(9)`, `TestPrime(25)`, `TestPrime(1)` are true | true exactly for primes | not executed | HashPrimes.TestPrimeAcceptsSquares | HashPrimes.TestPrime |
| src/Lucene.Net.81/Collections/Hashtable.cs:682 | `CalcPrime` tests with that `TestPrime`, so it can return a composite | `CalcPrime(11)` starts at 9 and returns 9 | the first prime from the start | not executed | HashPrimes.CalcPrimeAsWrittenComposite | HashPrimes.CalcPrime |
| src/Lucene.Net.81/Collections/Hashtable.cs:629 | `PutImpl` adds the step to a `uint` that wraps past 2^32, while `Find` reduces modulo the size first, so the two probe different slots; only this divergence is exhibited, not a key that `Find` then misses | 1215497 slots, hash 2147483647, probe 8370: slot 132801 in `PutImpl`, 749196 in `Find` | `PutImpl` probes the slots `Find` probes | not executed | HashProbe.PutProbeWraps | HashInsert.ScanSlots |
