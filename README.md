# Verified model of a collection of algorithm snippets

This project models, in Dafny, the core of a Python repository of self-contained algorithm
snippets and proves what each one computes:

- **Strings.**
  - `suffix_array`: SA-IS construction with an implicit sentinel, modelled as written, including its input-dependent failures.
  - `lcp_array`: Kasai's longest-common-prefix array.
  - `edit_distance`: Levenshtein distance with two rolling rows.
  - `string_search`: KMP search and its failure table.
  - `find_longest_palindrome`: Manacher's algorithm over the implicitly padded string.
- **Data structures.**
  - `SparseTable`: power-of-two range table over an associative function.
  - `DisjointSet`: union by rank with two-pass path compression.
  - `StringTrie`: dictionary-of-children trie.
  - `construct_cartesian_tree`: right-spine construction over (value, index) keys.
- **Graphs over node ids 0..n-1.**
  - `kosaraju_scc` and `tarjan_scc`: strongly connected components.
  - `kruskal_mst`: Kruskal's minimum spanning forest.

Each source file maps to the module or modules listed below; suffix_array.py is split by stage, one module per file:

| file | module | source |
|---|---|---|
| `wrappers.dfy` | `Wrappers` | `Option`/`Result` for `None` and raised exceptions |
| `edit_distance.dfy` | `EditDistance` | edit_distance.py |
| `string_search.dfy` | `StringSearch` | string_search.py |
| `manacher.dfy` | `Manacher` | manacher_palindrome.py |
| `sparse_table.dfy` | `SparseTables` | sparse_table.py |
| `disjoint_set.dfy` | `DisjointSets` | disjoint_set.py |
| `kruskal.dfy` | `Kruskal` | minimum_spanning_tree.py (`kruskal_mst`) |
| `node_ids.dfy` | `NodeIds` | the node ids 0..n-1 shared by `kruskal.dfy` and `scc.dfy` |
| `string_trie.dfy` | `Tries` | string_trie.py |
| `cartesian_tree.dfy` | `CartesianTrees` | cartesian_tree.py |
| `scc.dfy` | `StronglyConnected` | strongly_connected_components.py |
| `suffix_order.dfy` | `SuffixOrder` | suffix order and common prefixes used by suffix_array.py |
| `sais_types.dfy` | `SaisTypes` | suffix_array.py: S/L types, symbol counts, ranks, bucket starts |
| `sais_lms.dfy` | `SaisLms` | suffix_array.py: LMS positions and LMS blocks |
| `sais_passes.dfy` | `SaisPasses` | suffix_array.py: the three passes over `sa` |
| `sais_naming.dfy` | `SaisNaming` | suffix_array.py: block naming, reduction, regrouping |
| `suffix_array.dfy` | `SuffixArrays` | suffix_array.py: `suffix_array` itself |
| `lcp_array.dfy` | `LcpArrays` | suffix_array.py: `lcp_array` |

**How the code's form is kept.**
- Code that changes state step by step is imperative Dafny:
  - arrays for `sa`, the edit-distance rows, the Manacher radii, the sparse table and the Cartesian tree's links;
  - classes with `modifies` clauses for `SparseTable`, `DisjointSet`, `StringTrie` and the shared state of the two SCC algorithms;
  - `while`/`for` loops with invariants, each proved against a reference definition.
- Loop bodies that carry much proof are their own small methods, e.g. `FillCell`, `KasaiVisit`, `DfsEdge` and `PlaceNode`.
- Recursion through nested closures (`traverse`, `assign_root`, `dfs`) becomes recursive methods of a class that holds the closure's shared variables.

**Modelling decisions.**
- **Symbols, weights and values** are `int`, since the source only compares them. Python's tuple order is written out (`Kruskal.EdgeLe`, `CartesianTrees.KeyLess`).
- **Python exceptions** are `Result` failures:
  - `IndexError`: list indices outside -len..len-1 (an index from -len to -1 counts from the end, as in Python);
  - `TypeError`: `s[None]`;
  - `KeyError`: `find`/`union` on a non-member.
- **Python's negative list indexing** is modelled explicitly (`SaisPasses.PyIndex`).
- **Object graphs become values where identity is one-to-one:**
  - a disjoint-set member is its value, so `parent` and `rank` are maps;
  - a trie node is the string leading to it, so the trie is a `map<string, Node>`;
  - a Cartesian-tree node is its input position, and `left`/`right`/`parent` are arrays with -1 for `None`.

**Where the code differs from the documented intent, the model follows the code:**
- **Last position is L-type.** The type loop makes the last position L-type (suffix_array.py:18). This is the implicit sentinel, not an S-type position.
- **No LMS position.** The input has no LMS position when n > 2 and some symbol repeats with no L-to-S change (e.g. "aaa", "aaaa$"). Then `lms_blocks` gets the key `None` (suffix_array.py:57) and the run fails:
  - the forward pass can raise `IndexError` first (suffix_array.py:149);
  - otherwise `s[None]` raises `TypeError` at suffix_array.py:112.

  `SuffixArrays.SuffixArray` reports a failure in every such case. It does not claim a sorted result there.
- **Wrapped index in the forward pass.** At an entry 0, `sa[i] - 1` is -1. Python reads `sl_array[-1]`, the always-L last position, so -1 is written into `sa` (suffix_array.py:145-150). `SaisPasses.ForwardWrap` states this step. On "banana$", whose final pass is seeded with the LMS positions [3, 1], the final pass yields `[6, -1, 3, 1, 0, 4, 2]` (`SuffixArrays.BananaFinalPass`).
- **Sentinel-block naming.** The block ending at n takes the current name without comparing it to the previous block (suffix_array.py:77-80). `SaisNaming.NameStep` and `SaisNaming.NameBlocks` model this as written: their distinct-names guarantee covers only blocks that end before n.
- **Demoted Cartesian-tree root.** The old root stays with parent `None` when it is demoted below a new root (cartesian_tree.py:32-34). `CartesianTrees.ParentLinks` describes the parent links exactly as left. The structural guarantees rest on the child links.

## Model

| member | source | states |
|---|---|---|
| EditDistance.LevSymmetric | edit_distance.py:12-13 | the distance does not depend on argument order, which justifies the swap |
| EditDistance.LevBounds | edit_distance.py:4-27 | abs(len a - len b) <= distance <= max(len a, len b) |
| EditDistance.LevSelf | edit_distance.py:4-27 | a sequence is at distance 0 from itself |
| EditDistance.LevPrefixStep | edit_distance.py:21-23 | the distance of two prefixes is the minimum of deletion, insertion and (mis)match from the three smaller prefixes |
| EditDistance.FillCell | edit_distance.py:22-23 | m1[j] becomes the distance between a[:i] and b[:j]; no other cell of the row changes |
| EditDistance.FillRow | edit_distance.py:19-23 | given the distances from a[:i-1] in m0, m1 holds the distances from a[:i] to every prefix of b |
| EditDistance.Distance | edit_distance.py:4-27 | the result is the Levenshtein distance; an empty input gives the other's length |
| StringSearch.TableEntry | string_search.py:19-29 | each filled entry satisfies -1 <= p[k] < k, and p[k] + 1 is the longest proper border of s[:k+1] |
| StringSearch.TableStep | string_search.py:28 | storing the longest border of s[:i+1] extends the filled table by one entry |
| StringSearch.BorderChain | string_search.py:24-25 | the borders of w shorter than a border k are exactly the borders of w[:k], which justifies falling back along p |
| StringSearch.BorderExtend | string_search.py:26-27 | w + [c] has a border of length k + 1 iff w has a border of length k followed by c |
| StringSearch.LongestAfterExtend | string_search.py:24-28 | where the fallback loop stops, the extended border is the longest border of s[:i+1] |
| StringSearch.Fallback | string_search.py:24-25 | one fallback step moves to a shorter border and skips no border that could be extended |
| StringSearch.TableFallback | string_search.py:24-25 | the table's fallback from border b + 1 of s[:i] lands on a border p[b] + 1 with the same guarantee |
| StringSearch.TableExtend | string_search.py:26-28 | after the fallback loop, the value stored in p[i] is in range and correct |
| StringSearch.SkipTableBorders | string_search.py:24-25 | the table's inner loop ends on a border that is -1 or can be extended by s[i], with no extendable border skipped |
| StringSearch.BuildPrefixTable | string_search.py:19-29 | the table has len(s) entries, and p[i] + 1 is the longest proper border of s[:i+1] |
| StringSearch.MatchesBelowExact | string_search.py:2-16 | the reference list holds exactly the occurrences ending by j, strictly increasing, each <= j - len(s) |
| StringSearch.CandExtend | string_search.py:11-12 | an overlap of text[:j+1] with s of length k + 1 is an overlap of text[:j] of length k followed by a match |
| StringSearch.CandChain | string_search.py:9-10 | the overlaps shorter than an overlap k are exactly the borders of s[:k] |
| StringSearch.SearchFallback | string_search.py:9-10 | one fallback step of the search keeps an overlap and skips no extendable overlap |
| StringSearch.SearchExtend | string_search.py:11-12 | after the fallback loop, the extended value is the longest overlap of text[:j+1] with s |
| StringSearch.SearchAfterMatch | string_search.py:15 | after a full match, falling back to p[len(s)-1] gives the longest overlap shorter than s, so overlapping matches are found |
| StringSearch.SearchRecord | string_search.py:13-14 | a match is recorded at j - backtrack exactly when the whole pattern overlaps |
| StringSearch.MaxCandBlocked | string_search.py:9-10 | the longest bounded overlap blocks every longer extension |
| StringSearch.SearchStep | string_search.py:9-15 | one outer iteration keeps the longest-overlap invariant and appends exactly the match ending at j, if any |
| StringSearch.SkipOverlaps | string_search.py:9-10 | the search's inner loop ends on an overlap that is -1 or can be extended by text[j], skipping none |
| StringSearch.Search | string_search.py:2-16 | the result lists exactly the indices where s occurs in text, strictly increasing, each <= len(text) - len(s) |
| Manacher.SymExtend | manacher_palindrome.py:29-34 | a symmetric window grows by one iff both cells beyond it exist and agree |
| Manacher.SymShrink | manacher_palindrome.py:38-48 | a symmetric window stays symmetric when shrunk |
| Manacher.MaxRadiusBound | manacher_palindrome.py:17-20 | the maximal radius bounds every symmetric radius at that centre |
| Manacher.PadCompare | manacher_palindrome.py:30-31 | the source's test (odd left index, or equal characters) is equality of the two padded cells |
| Manacher.MirrorSym | manacher_palindrome.py:38-39 | inside a symmetric window, the windows about c + i and c - i are symmetric for the same radii |
| Manacher.MirrorCase | manacher_palindrome.py:38-48 | the three cases of the mirror step: copy the mirrored radius, jump to c + i, or cap at curr_radius - i |
| Manacher.OverhangBlocked | manacher_palindrome.py:47-48 | when the mirrored palindrome overhangs, the radius at c + i is exactly curr_radius - i |
| Manacher.CorrectExtend | manacher_palindrome.py:36-48 | writing a maximal radius at k extends the correct prefix of res by one |
| Manacher.PaddedLength | manacher_palindrome.py:22 | the padded string has 2n - 1 cells, or none for the empty string |
| Manacher.Expand | manacher_palindrome.py:29-34 | the expansion loop reaches the maximal radius at the cursor |
| Manacher.MirrorPass | manacher_palindrome.py:38-51 | the mirror loop fills correct radii up to c + i, and either jumps to a symmetric centre or finishes the window |
| Manacher.Radii | manacher_palindrome.py:21-53 | res has 2n - 1 entries, and res[q] is the largest radius whose padded window is symmetric about q |
| Manacher.ConvertToIndices | manacher_palindrome.py:57-60 | the result is (ceil(left / 2), floor(right / 2)) and the two indices sum to pos |
| Manacher.PyFloorDiv | manacher_palindrome.py:60 | Python's floor division: the quotient rounds toward minus infinity for either sign of divisor |
| Manacher.SymPalindrome | manacher_palindrome.py:57-60 | a symmetric window of radius > 1 converts to an inclusive palindrome of s |
| Manacher.PalindromeSym | manacher_palindrome.py:17-20 | every palindrome s[a..b] is a symmetric window about a + b |
| Manacher.CoversPalindrome | manacher_palindrome.py:57-60 | the maximal window at a + b converts to indices that contain s[a..b] |
| Manacher.FindLongestPalindrome | manacher_palindrome.py:1-14 | (0, 0) for strings shorter than 2; otherwise (0, 0) or a palindrome no shorter than any other, with the earliest centre among the longest |
| SparseTables.Pow2 | sparse_table.py:20-27 | powers of two are at least 1 |
| SparseTables.BitLengthBounds | sparse_table.py:34-35 | 2^(bit_length(x) - 1) <= x < 2^bit_length(x) |
| SparseTables.BitLengthMonotone | sparse_table.py:13 | bit_length is monotone, so every query row exists |
| SparseTables.FoldSplit | sparse_table.py:42-43 | an associative fold splits at any inner point |
| SparseTables.FoldOverlap | sparse_table.py:37-38 | for an associative, idempotent function, two overlapping folds combine to the fold of their union |
| SparseTables.BlockFold | sparse_table.py:19-27 | the table's block at row i, column j is the fold over values[j..j + 2^i - 1] |
| SparseTables.SparseTable.constructor | sparse_table.py:11-17 | k = bit_length(n) - 1, and the built table is valid: every entry is the block it stands for |
| SparseTables.SparseTable.FillRow | sparse_table.py:23-24 | row i becomes the combination of two row i - 1 blocks at every column where a block fits; other rows are unchanged |
| SparseTables.SparseTable.InitializeTable | sparse_table.py:19-27 | rows 1..k are filled with the blocks of doubling size |
| SparseTables.SparseTable.Query | sparse_table.py:30-43 | query(l, l) is values[l]; for an associative function (idempotent on that path) the result is the fold over values[l..r] |
| SparseTables.SparseTable.Cell | sparse_table.py:31-43 | `_st[i][j]` raises IndexError exactly for a missing row or a column outside -n..n-1; a negative column reads from the end of the row |
| SparseTables.SparseTable.QueryAnyRange | sparse_table.py:30-43 | query(l, r) for any integers: Query inside 0 <= l <= r < n; values[l + n] for -n <= l == r < 0, read from the end of row 0; ValueError when l == r + 1, from the negative shift; IndexError for l == r outside -n..n-1, for l < r with l outside -n..n-1 or with r - l + 1 too long for any row of the table, and without idempotence for r + 1 < l |
| SparseTables.QueryPastEnd | sparse_table.py:40-43 | with n = 5 and no idempotence, query(0, 5) raises nothing and returns func(st[2][0], values[4]): the block of values[0..3] with the initial copy of values[4] |
| SparseTables.QueryPastEndIdempotent | sparse_table.py:37-38 | with n = 5 and idempotence, query(0, 5) returns func(st[2][0], values[2]), so values[4] is ignored |
| SparseTables.SparseTable.QuerySize | sparse_table.py:34 | the query row exists, and its block size 2^(q-1) satisfies 2^(q-1) <= r - l + 1 < 2^q |
| SparseTables.BlocksCover | sparse_table.py:38 | two blocks of one power of two, from l and ending at r, cover [l, r] and combine to its fold |
| SparseTables.IdempotentPath | sparse_table.py:34-38 | both blocks lie inside [l, r], together cover it, and combine to the fold over [l, r] |
| SparseTables.ExactPath | sparse_table.py:40-41 | when one block covers [l, r] exactly, its entry is the fold over [l, r] |
| SparseTables.SplitPath | sparse_table.py:42-43 | the first block combined with the fold of the rest is the fold over [l, r] |
| DisjointSets.RootFacts | disjoint_set.py:29-31 | the root walk ends at a member that is its own parent |
| DisjointSets.PathFacts | disjoint_set.py:29-31 | the walked path holds the non-roots from x up, each at least x's rank |
| DisjointSets.CompressedRoots | disjoint_set.py:34-38 | pointing non-roots at a root leaves the set of roots unchanged |
| DisjointSets.LinkRootSet | disjoint_set.py:57 | linking root y under x removes exactly y from the roots |
| DisjointSets.CompressForest | disjoint_set.py:34-38 | path compression keeps a ranked forest |
| DisjointSets.CompressRoots | disjoint_set.py:34-38 | path compression changes no member's root: the partition is unchanged |
| DisjointSets.LinkForest | disjoint_set.py:52-59 | linking the lower-rank root (raising the winner on a tie) keeps every child's rank below its parent's |
| DisjointSets.LinkRoots | disjoint_set.py:57 | after linking y under x, the members of y's tree have root x, and no other root changes |
| DisjointSets.AddRoots | disjoint_set.py:20-21 | a fresh singleton keeps the forest and every other member's root |
| DisjointSets.AddMember | disjoint_set.py:19-21 | a fresh singleton keeps the forest and representatives, and adds one root |
| DisjointSets.RelabelCoarsens | disjoint_set.py:46-59 | merging two sets under one name joins them and nothing else |
| DisjointSets.DisjointSet.RepIsRoot | disjoint_set.py:40 | the value find returns is a root |
| DisjointSets.DisjointSet.constructor | disjoint_set.py:16-17 | an empty set of members |
| DisjointSets.DisjointSet.MakeSet | disjoint_set.py:19-23 | returns value; an existing member is untouched; a new one becomes a singleton of rank 0 |
| DisjointSets.DisjointSet.Find | disjoint_set.py:25-40 | KeyError for a non-member; otherwise returns the root, and the walked path is compressed onto it, keeping ranks and the partition |
| DisjointSets.DisjointSet.Union | disjoint_set.py:42-61 | KeyError unless both are members; afterwards find(x) == find(y) and only those two sets merge; None if already joined, else the higher-rank root (x's on a tie), whose rank rises by one on a tie while every other rank stays |
| DisjointSets.DisjointSet.Link | disjoint_set.py:52-61 | the lower-rank root's parent becomes the other root (y's under x's on a tie) and no other parent changes; the winner's rank rises by one on a tie and no other rank changes; exactly one root disappears |
| DisjointSets.DisjointSet.ContainsMember | disjoint_set.py:63-64 | true exactly for members |
| Kruskal.EdgesFrom | minimum_spanning_tree.py:17-18 | node i's entry (target, weight) becomes the edge (weight, i, target) |
| Kruskal.EdgesOfInput | minimum_spanning_tree.py:16-18 | the collected edges are exactly the adjacency entries |
| Kruskal.CollectEdges | minimum_spanning_tree.py:15-18 | the loop builds the edge list node by node, entry by entry |
| Kruskal.Insert | minimum_spanning_tree.py:19 | insertion keeps the list sorted and adds exactly one edge |
| Kruskal.SortEdges | minimum_spanning_tree.py:19 | the sorted edges are a sorted permutation of the input edges |
| Kruskal.TakenInOrder | minimum_spanning_tree.py:18-22 | kept edges are in non-decreasing (weight, i, j) order |
| Kruskal.JoinedKept | minimum_spanning_tree.py:23 | merging sets keeps joined endpoints joined |
| Kruskal.TakenStep | minimum_spanning_tree.py:20-22 | passing over an edge extends the kept list by that edge or by nothing |
| Kruskal.ConsiderEdge | minimum_spanning_tree.py:21-23 | KeyError iff the target is not a node; otherwise keeps the edge iff its endpoints were in different sets, and then joins them |
| Kruskal.Connect | minimum_spanning_tree.py:20-23 | KeyError iff some edge is bad; otherwise every edge's endpoints end joined, and one set disappears per kept edge |
| Kruskal.MakeNodes | minimum_spanning_tree.py:11-14 | a disjoint set with the singletons 0..n-1 |
| Kruskal.SortedEdgesOf | minimum_spanning_tree.py:15-19 | the sorted edges come from the adjacency lists |
| Kruskal.TakenInput | minimum_spanning_tree.py:16-22 | every kept pair is an input edge |
| Kruskal.KeptBound | minimum_spanning_tree.py:20-23 | at most n - 1 edges are kept |
| Kruskal.ConnectedMono | minimum_spanning_tree.py:22 | adding an edge to the kept list keeps every connection it already made |
| Kruskal.ConnectedEmpty | minimum_spanning_tree.py:12 | with no kept edge a node is connected only to itself |
| Kruskal.PathSplit | minimum_spanning_tree.py:22 | a path over the kept edges plus (a, b) connects its ends without the new edge, or runs through a and b |
| Kruskal.PartitionsStart | minimum_spanning_tree.py:12-14 | with singleton sets and no kept edge, two nodes share a set iff the kept edges connect them |
| Kruskal.KeepStep | minimum_spanning_tree.py:21-23 | endpoints in different sets are not yet connected by the kept edges, and after keeping the edge and merging the two sets, sharing a set still means being connected by the kept edges |
| Kruskal.JoinedConnected | minimum_spanning_tree.py:20-23 | when every handled edge has both endpoints in one set, the kept edges connect its endpoints |
| Kruskal.AcyclicStep | minimum_spanning_tree.py:21-22 | an edge between nodes the kept edges do not connect keeps the kept edges free of cycles |
| Kruskal.JoinedStep | minimum_spanning_tree.py:20-23 | an edge whose endpoints share a set extends the handled prefix in which every edge is joined |
| Kruskal.TargetStep | minimum_spanning_tree.py:21 | an edge whose target is a node extends the prefix free of KeyError edges |
| Kruskal.EdgeStep | minimum_spanning_tree.py:20-23 | one loop turn keeps: handled edges joined, the sets equal to the parts the kept edges connect, no cycle, and the kept edges taken in order |
| NodeIds.Below | minimum_spanning_tree.py:13-14 | x is in Below(n) iff 0 <= x < n, the nodes `range(n)` makes |
| NodeIds.BelowSize | minimum_spanning_tree.py:13-14 | there are exactly n node ids |
| Kruskal.KruskalMst | minimum_spanning_tree.py:9-25 | KeyError iff an entry names a non-node; otherwise at most n - 1 input edges, taken in sorted order, that form no cycle and connect the endpoints of every input edge: a spanning forest |
| Tries.Parent | string_trie.py:7-8 | the root has no parent; any other node's parent is its path without the last character |
| Tries.PrefixIn | string_trie.py:15-17 | every prefix of a node's path is a node |
| Tries.EmptyNotFound | string_trie.py:20-30 | find("") is always False |
| Tries.AddChild | string_trie.py:17 | setdefault adds the child node p + [c] |
| Tries.AddChildFacts | string_trie.py:17 | creating a missing child keeps the trie's shape and its words |
| Tries.SetTerminalFacts | string_trie.py:39 | setting a terminal flag changes only whether that one string is a word |
| Tries.Unlink | string_trie.py:45 | `del curr.children[c]` drops the link and the child |
| Tries.UnlinkFacts | string_trie.py:45 | unlinking a childless node keeps the shape and loses exactly that node's word |
| Tries.PruneStep | string_trie.py:44-48 | one upward step loses only the word of the unlinked node |
| Tries.PruneAsWritten | string_trie.py:44-48 | the upward loop as written removes only existing nodes |
| Tries.PruneAsWrittenFacts | string_trie.py:44-48 | the upward loop keeps the shape, adds no word, and loses only prefixes of s |
| Tries.DeleteAsWritten | string_trie.py:32-48 | delete as written removes only existing nodes |
| Tries.DeleteAsWrittenFacts | string_trie.py:32-48 | afterwards s is no word, no word is added, words that are not prefixes of s survive, and an absent path changes nothing |
| Tries.PruneKeepingWords | string_trie.py:44-48 | the corrected upward loop, which also stops at a word, removes only existing nodes |
| Tries.PruneKeepingWordsFacts | string_trie.py:44-48 | the corrected upward loop keeps the shape and loses no word |
| Tries.DeleteKeepingWords | string_trie.py:32-48 | the corrected delete removes only existing nodes |
| Tries.DeleteKeepingWordsExact | string_trie.py:32-48 | the corrected delete removes exactly the word s |
| Tries.TrieAAbShaped | string_trie.py:12-18 | the trie with nodes "", "a" and "ab", both words, is well formed and holds both; `ShapedIsTrieAAb` shows it is the one that two inserts build |
| Tries.ShapedIsTrieAAb | string_trie.py:12-18 | a well-formed trie whose nodes are "", "a" and "ab", with both as words, is exactly the trie TrieAAb |
| Tries.DeleteAfterInserts | string_trie.py:12-48 | on a new StringTrie, after insert("a") and insert("ab") find("a") is True, and after delete("ab") it is False |
| Tries.DeleteLosesPrefix | string_trie.py:44-48 | deleting "ab" as written loses the word "a" |
| Tries.DeleteKeepingWordsKeepsPrefix | string_trie.py:44-48 | the corrected delete keeps "a" on the same input |
| Tries.StringTrie.constructor | string_trie.py:3-4 | a trie with only a non-terminal root |
| Tries.StringTrie.Find | string_trie.py:20-30 | True iff s is a word of the trie, and only for inserted strings |
| Tries.StringTrie.Insert | string_trie.py:12-18 | "" changes nothing; otherwise s becomes a word, no other word changes, and exactly the missing prefixes of s become nodes |
| Tries.StringTrie.Delete | string_trie.py:32-48 | the trie becomes DeleteAsWritten of the old one, so s is no longer found |
| CartesianTrees.KeyTotal | cartesian_tree.py:4-5 | the (value, index) keys are distinct and totally ordered |
| CartesianTrees.Range | cartesian_tree.py:23 | the positions a..b-1 in increasing order |
| CartesianTrees.NextHi | cartesian_tree.py:29-55 | after node i joins, every node on the new right spine spans up to i |
| CartesianTrees.RightChildOnSpine | cartesian_tree.py:28-37 | a right child on the spine has its parent just above it on the spine |
| CartesianTrees.SpineParent | cartesian_tree.py:57-58 | the parent link of a spine node is the spine node above it, or None at the root |
| CartesianTrees.SpineParents | cartesian_tree.py:57-59 | parent links lead up the whole spine to the root, whose parent is None |
| CartesianTrees.StepFirst | cartesian_tree.py:24-26 | the first node alone is a tree |
| CartesianTrees.StepNewRoot | cartesian_tree.py:31-35 | a node smaller than the root becomes the root with the old tree on its left |
| CartesianTrees.NewRootSpans | cartesian_tree.py:31-35 | the new root spans every position so far |
| CartesianTrees.StepAppend | cartesian_tree.py:40-43 | a node larger than the spine's last node becomes its right child |
| CartesianTrees.AppendSpans | cartesian_tree.py:40-43 | the appended node's span is itself and extends the spine's spans |
| CartesianTrees.AppendRest | cartesian_tree.py:40-43 | appending keeps heap order, parent links and the right spine |
| CartesianTrees.StepSplice | cartesian_tree.py:47-55 | the new node takes the place of the spine node it is smaller than, which becomes its left child |
| CartesianTrees.SpliceSpans | cartesian_tree.py:47-55 | after the splice the spans still tile in order |
| CartesianTrees.SpliceRest | cartesian_tree.py:47-55 | the splice keeps heap order and the parent links |
| CartesianTrees.SpliceSpine | cartesian_tree.py:47-55 | the spine is cut after the parent and ends with the new node |
| CartesianTrees.InOrderSpan | cartesian_tree.py:17-59 | the in-order traversal of a node is the range of positions it spans |
| CartesianTrees.Finish | cartesian_tree.py:57-59 | once all nodes exist: heap order, the root holds the first minimum, in-order gives 0..n-1, and the parent links are as described |
| CartesianTrees.PlaceNode | cartesian_tree.py:24-55 | one iteration keeps the construction invariant |
| CartesianTrees.NewRoot | cartesian_tree.py:31-35 | sets only the new node's left link; the old root's parent stays None |
| CartesianTrees.AppendRight | cartesian_tree.py:40-43 | sets the right link of curr and the new node's parent |
| CartesianTrees.SpliceIn | cartesian_tree.py:47-55 | sets the four links of the splice |
| CartesianTrees.ClimbToRoot | cartesian_tree.py:57-59 | the climb along parent links from the last node ends at the root |
| CartesianTrees.ConstructCartesianTree | cartesian_tree.py:17-59 | None iff the input is empty; otherwise one node per index, heap ordered, root at the first minimum, in-order 0..n-1, parent links as left |
| StronglyConnected.Permutation | strongly_connected_components.py:12-19 | a repetition-free list holding every node is a permutation of them |
| StronglyConnected.ReverseStep | strongly_connected_components.py:16-17 | appending u to transpose[v] for edge u -> v keeps transpose equal to the reversed edges handled so far |
| StronglyConnected.ReversedEdges | strongly_connected_components.py:16-17 | every transpose entry is an input edge read backwards |
| StronglyConnected.ExtendsTrans | strongly_connected_components.py:12-19 | the first pass's step relation composes |
| StronglyConnected.ExtendsPlus | strongly_connected_components.py:15-18 | visiting u and traversing from it only grows the visited set and the finish order |
| StronglyConnected.ExtendsFinish | strongly_connected_components.py:19 | appending u after its edges completes traverse(u) |
| StronglyConnected.StackReaches | strongly_connected_components.py:12-19 | each node on the stack of open traverse calls reaches the top of that stack |
| StronglyConnected.LeavesThroughStack | strongly_connected_components.py:16-18 | a walk from a finished node to a node neither finished nor open passes through the stack: the finished node reaches an open one |
| StronglyConnected.SearchPush | strongly_connected_components.py:15 | opening traverse(v) along an edge from the top of the stack keeps the depth-first search invariant |
| StronglyConnected.SearchPop | strongly_connected_components.py:19 | finishing v, once its edges all lead to finished or open nodes, keeps the depth-first search invariant |
| StronglyConnected.OrderPop | strongly_connected_components.py:19 | appending v to inorder keeps the finishing-order property: a finished x that reaches r without being reached back reaches a node finishing after r |
| StronglyConnected.SearchDone | strongly_connected_components.py:28-29 | once every node is finished: if x reaches inorder[i] but inorder[i] does not reach x, x reaches a node later in inorder |
| StronglyConnected.Kosaraju.constructor | strongly_connected_components.py:6-10 | all unvisited, no labels, empty transpose and finish order |
| StronglyConnected.Kosaraju.Start | strongly_connected_components.py:13-15 | an unvisited u becomes visited and the top of the stack of open calls; nothing else changes |
| StronglyConnected.Kosaraju.Explore | strongly_connected_components.py:16-18 | the edge loop reverses every edge out of u and leaves each target visited |
| StronglyConnected.Kosaraju.Finish | strongly_connected_components.py:19 | u is appended to inorder and leaves the stack of open calls |
| StronglyConnected.Kosaraju.Traverse | strongly_connected_components.py:12-19 | traverse(u) visits u, reverses every edge out of each newly visited node once, appends each newly visited node after its edges, and keeps the depth-first finishing-order invariant |
| StronglyConnected.Kosaraju.TraverseEdge | strongly_connected_components.py:16-18 | one loop turn reverses one edge and traverses its target |
| StronglyConnected.Kosaraju.AssignRoot | strongly_connected_components.py:21-26 | labels u unless already labelled; labels never change, new labels are all root, each labelled node reaches its label, and labels stay closed under reversed edges |
| StronglyConnected.Kosaraju.Label | strongly_connected_components.py:24 | assignments[u] = root changes only that entry and keeps a walk from every labelled node to its label |
| StronglyConnected.Kosaraju.AssignAll | strongly_connected_components.py:25-26 | the loop leaves every transpose neighbour of u labelled, and new labels are all root |
| StronglyConnected.Kosaraju.AssignEdge | strongly_connected_components.py:25-26 | one loop turn labels along a reversed edge, keeping the labelling invariant |
| StronglyConnected.KeepsFree | strongly_connected_components.py:22-24 | when given labels stay fixed, the unlabelled nodes can only shrink (the termination measure) |
| StronglyConnected.LabelStep | strongly_connected_components.py:24-26 | labelling u with root through a reversed edge extends a walk from u to root |
| StronglyConnected.GivesTrans | strongly_connected_components.py:21-26 | "given labels stay, new labels are root" composes across nested calls |
| StronglyConnected.ClosedLabel | strongly_connected_components.py:24 | labelling u keeps the labels closed under reversed edges, with u's own in-edges left open |
| StronglyConnected.ClosedNode | strongly_connected_components.py:25-26 | once every node with an edge into u is labelled, u's in-edges are closed too |
| StronglyConnected.ClosedReach | strongly_connected_components.py:31-32 | with labels closed under reversed edges, the first node of a walk that ends at a labelled node is labelled |
| StronglyConnected.ClosedReaches | strongly_connected_components.py:31-32 | with labels closed under reversed edges, a node that reaches a labelled node is labelled |
| StronglyConnected.RoundSound | strongly_connected_components.py:31-32 | assign_root(r, r), taken in reverse finish order, gives r only to nodes that r reaches |
| StronglyConnected.RoundSame | strongly_connected_components.py:31-32 | after each round, nodes that reach each other carry one label once either is labelled |
| StronglyConnected.Components | strongly_connected_components.py:31-34 | two nodes get the same label iff each reaches the other |
| StronglyConnected.LabelledReaches | strongly_connected_components.py:21-26 | every labelled node reaches its label |
| StronglyConnected.AllLabelled | strongly_connected_components.py:31-32 | once every node of inorder is labelled, every node is |
| StronglyConnected.FirstPass | strongly_connected_components.py:28-29 | afterwards inorder is a permutation of 0..n-1, every edge is reversed, and inorder has the depth-first finishing-order property |
| StronglyConnected.SecondPass | strongly_connected_components.py:31-32 | afterwards every node is labelled, each label reaches the nodes it labels, and nodes that reach each other share a label |
| StronglyConnected.KosarajuScc | strongly_connected_components.py:5-34 | n labels in 0..n-1, each labelling itself; labels[u] == labels[v] iff u and v reach each other; every node reaches its label and is reached by it; inorder is a permutation; transpose is the edge reversal, multiplicities included |
| StronglyConnected.FlattenAppend | strongly_connected_components.py:65 | appending a component appends its nodes |
| StronglyConnected.FrozenTrans | strongly_connected_components.py:45-65 | index and low-link of settled nodes stay fixed across nested calls |
| StronglyConnected.FreshPush | strongly_connected_components.py:47 | numbering v takes exactly v out of the unvisited nodes |
| StronglyConnected.FrozenFresh | strongly_connected_components.py:45-65 | no node becomes unvisited again |
| StronglyConnected.PushGood | strongly_connected_components.py:47-49 | numbering and pushing an unvisited node keeps the invariant |
| StronglyConnected.PushStacked | strongly_connected_components.py:47-49 | after the push, the on-stack flags match the stack |
| StronglyConnected.PushPartition | strongly_connected_components.py:47-49 | after the push, each visited node is counted once across components and the stack |
| StronglyConnected.LowerGood | strongly_connected_components.py:54-56 | lowering v's low-link to a target's keeps the invariant and low <= index |
| StronglyConnected.PopGood | strongly_connected_components.py:61-64 | popping the top and clearing its flag keeps the invariant |
| StronglyConnected.PopStacked | strongly_connected_components.py:62-63 | after the pop, the on-stack flags match the stack |
| StronglyConnected.PopPartition | strongly_connected_components.py:62-64 | the popped node moves from the stack to the pending component, counted once |
| StronglyConnected.EmitGood | strongly_connected_components.py:58-65 | emitting the component ending at a root whose low equals its index keeps the invariant |
| StronglyConnected.PushLinks | strongly_connected_components.py:47-49 | numbering and pushing v keeps the low-link invariant: every low-link names a numbered node its owner reaches, a stacked node's low-link names a stacked node, the stack is in index order, and each emitted list is strongly connected around its last node |
| StronglyConnected.PushNamed | strongly_connected_components.py:47-48 | v takes the next number, which names v |
| StronglyConnected.PushReach | strongly_connected_components.py:47 | v's low-link is its own number, and v reaches itself |
| StronglyConnected.PushStackLow | strongly_connected_components.py:47-49 | every stacked node's low-link still names a stacked node |
| StronglyConnected.PushSorted | strongly_connected_components.py:47-49 | the stack stays in increasing index order |
| StronglyConnected.LowerLinks | strongly_connected_components.py:54-56 | taking the minimum with a visited target's low-link (on the stack, or no lower than v's) keeps the low-link invariant |
| StronglyConnected.PopLinks | strongly_connected_components.py:62-63 | popping the top and clearing its flag keeps the low-link invariant |
| StronglyConnected.EmitLinks | strongly_connected_components.py:65 | appending a list whose last node reaches every member and is reached by it keeps the low-link invariant |
| StronglyConnected.AboveLower | strongly_connected_components.py:54-56 | lowering v's low-link keeps the facts about the nodes above v on the stack |
| StronglyConnected.AboveChild | strongly_connected_components.py:52-54 | after dfs(s) returns, every node left above v on the stack is reached from v, has low < index, and has a low-link no lower than v's after the minimum |
| StronglyConnected.ReachRoot | strongly_connected_components.py:58 | when low[v] == index[v], every node above v on the stack reaches v |
| StronglyConnected.RootMutual | strongly_connected_components.py:58-64 | when low[v] == index[v], v and every node above it on the stack reach each other |
| StronglyConnected.MutualPop | strongly_connected_components.py:61-64 | the top of a list of nodes mutually reachable with v is mutually reachable with v, and so is the rest |
| StronglyConnected.MutualAppend | strongly_connected_components.py:64 | appending a node mutually reachable with v keeps the list mutually reachable with v |
| StronglyConnected.Done | strongly_connected_components.py:67-70 | with every node visited and the stack empty: the lists partition 0..n-1, 0 <= low <= index, each list ends at a node whose low-link is its index, and that node reaches every member of its list and is reached by it |
| StronglyConnected.Tarjan.constructor | strongly_connected_components.py:39-43 | every state is (-1, -1, False); stack and output empty |
| StronglyConnected.Tarjan.Run | strongly_connected_components.py:67-69 | the outer loop leaves every node visited and the stack empty, keeping the invariants |
| StronglyConnected.Tarjan.Visit | strongly_connected_components.py:51-65 | after the edge loop and the root check, v keeps its number, the stack below v is intact, and v and all above it are popped exactly when v is a root |
| StronglyConnected.Tarjan.Finish | strongly_connected_components.py:58-65 | pops down to v exactly when low == index; otherwise the stack and the states are unchanged |
| StronglyConnected.Tarjan.Descend | strongly_connected_components.py:52-54 | dfs(s) on an unvisited target followed by the minimum keeps v at its place on the stack and the facts about the nodes above it |
| StronglyConnected.Tarjan.Lower | strongly_connected_components.py:54-56 | state[v]'s low-link becomes min(low[v], low[s]); nothing else changes and the invariants hold |
| StronglyConnected.Tarjan.PopUntil | strongly_connected_components.py:59-64 | the loop pops down to and including v; every popped node reaches v and is reached by it, and v comes last |
| StronglyConnected.Tarjan.Collect | strongly_connected_components.py:62-64 | one turn moves the top of the stack to the end of the pending list, both staying mutually reachable with v |
| StronglyConnected.Tarjan.Dfs | strongly_connected_components.py:45-65 | dfs(v) numbers v, freezes earlier nodes, leaves the stack below v intact, and pops down to v exactly when v is a root |
| StronglyConnected.Tarjan.Push | strongly_connected_components.py:47-49 | state[v] = (index, index, True), index + 1, v pushed |
| StronglyConnected.Tarjan.Explore | strongly_connected_components.py:51-56 | the edge loop keeps v on the stack at its place and the invariant |
| StronglyConnected.Tarjan.DfsEdge | strongly_connected_components.py:52-56 | an unvisited target is searched and then lowers v's low-link; an on-stack target lowers it directly |
| StronglyConnected.Tarjan.PopComponent | strongly_connected_components.py:58-65 | pops down to and including v, clears their flags, and emits them as one list whose nodes all reach v and are reached by it |
| StronglyConnected.Tarjan.Pop | strongly_connected_components.py:62-64 | one pop: the top leaves the stack and loses its flag |
| StronglyConnected.TarjanScc | strongly_connected_components.py:38-70 | the lists partition 0..n-1 (each node exactly once); each ends with a node whose low-link equals its index; low <= index everywhere; the last node of each list reaches every member and is reached by it |
| SuffixOrder.LcpBounds | suffix_array.py:182 | the common prefix fits inside both suffixes |
| SuffixOrder.LcpCommon | suffix_array.py:182 | the first Lcp symbols of the two suffixes agree |
| SuffixOrder.LcpMaximal | suffix_array.py:182 | the symbols after the common prefix differ, unless a suffix ended |
| SuffixOrder.LcpMeaning | suffix_array.py:182-185 | Lcp is the length of a common prefix that cannot be extended |
| SuffixOrder.LcpExtend | suffix_array.py:182-183 | one more matching symbol extends a common prefix by one |
| SuffixOrder.LessIrreflexive | suffix_array.py:4 | the suffix order is irreflexive |
| SuffixOrder.LessAsymmetric | suffix_array.py:4 | the suffix order is asymmetric |
| SuffixOrder.LessTransitive | suffix_array.py:4 | the suffix order is transitive |
| SuffixOrder.LessTotal | suffix_array.py:4 | distinct suffixes are ordered one way or the other |
| SuffixOrder.LessBetween | suffix_array.py:181-185 | a suffix between two others shares at least their common prefix with the first |
| SuffixOrder.SortedAll | suffix_array.py:167 | in a valid suffix array every earlier suffix is smaller, so positions are distinct |
| SaisTypes.TypeRule | suffix_array.py:18-24 | position n-1 is L; a larger next symbol makes S, a smaller one L, an equal one copies the next type |
| SaisTypes.LargestIsL | suffix_array.py:18-24 | every position holding the largest symbol is L-type |
| SaisTypes.Classify | suffix_array.py:11-24 | the types agree with the suffix order for every position, and count holds every symbol's number of occurrences |
| SaisTypes.InsertSymbol | suffix_array.py:26 | inserting into an increasing list keeps it increasing and adds exactly the symbol |
| SaisTypes.SortedSymbols | suffix_array.py:26 | the symbols of s, each once, strictly increasing |
| SaisTypes.Ranks | suffix_array.py:28 | every symbol maps to its index in the sorted list |
| SaisTypes.CountBelowMin | suffix_array.py:40-44 | no position lies below the smallest symbol |
| SaisTypes.CountBelowNext | suffix_array.py:40-44 | between consecutive symbols lie exactly the occurrences of the smaller |
| SaisTypes.CountBelowMax | suffix_array.py:40-44 | the counts up to the largest symbol sum to n |
| SaisTypes.BucketsTile | suffix_array.py:40-44 | the buckets tile 0..n-1 |
| SaisTypes.BucketStarts | suffix_array.py:40-44 | position_array[r] is the number of positions holding a symbol below the r-th |
| SuffixArrays.SmallSuffixArray | suffix_array.py:7-9 | for n <= 2: a permutation of the positions sorted by (symbol, position) |
| SuffixArrays.SmallSentinel | suffix_array.py:7-9 | with a unique smallest last symbol, that order is a valid suffix array |
| SuffixArrays.BucketsFromBelow | suffix_array.py:33-35 | with all symbols distinct, at least r positions lie below the r-th symbol |
| SuffixArrays.BucketsFromAbove | suffix_array.py:33-35 | with all symbols distinct, at least num_c - r positions lie at or above the r-th symbol |
| SuffixArrays.Distinct | suffix_array.py:33 | num_c == n means no two positions share a symbol |
| SuffixArrays.PlaceDistinct | suffix_array.py:33-37 | every position lands at its symbol's rank, which gives a valid suffix array |
| SuffixArrays.Types | suffix_array.py:11-24 | the S/L types as a function of s |
| SuffixArrays.Induced | suffix_array.py:109-119 | a seeded run of both passes keeps n entries |
| SuffixArrays.BananaTypesHold | suffix_array.py:11-24 | "banana$" has L-type positions 0, 2, 4, 5, 6 and S-type positions 1, 3 |
| SuffixArrays.BananaSeeded | suffix_array.py:124-132 | seeding "banana$" with 'a' -> [3, 1] puts 3 and 1 at the end of the 'a' bucket, indices 2 and 3 |
| SuffixArrays.BananaForwardStart | suffix_array.py:137-140 | before the loop, position 6 goes to index 0, the front of the '$' bucket, and that cursor moves to 1 |
| SuffixArrays.BananaForwardWrites | suffix_array.py:142-150 | the forward loop at indices 0-3 writes 5, 4, 2, 0 at the cursors of their buckets |
| SuffixArrays.BananaForwardWrap | suffix_array.py:142-150 | at index 4 the entry 0 gives prev -1, read as position 6, so -1 overwrites index 1; indices 5 and 6 change nothing |
| SuffixArrays.BananaForward | suffix_array.py:135-150 | the forward pass turns the seeded array into [6, -1, 3, 1, 0, 4, 2] |
| SuffixArrays.BananaReverseWrites | suffix_array.py:153-164 | the reverse loop at indices 6 and 5 rewrites 1 and 3 where they already stand |
| SuffixArrays.BananaReverse | suffix_array.py:153-164 | the reverse pass leaves [6, -1, 3, 1, 0, 4, 2] unchanged |
| SuffixArrays.BananaFinalPass | suffix_array.py:108-121 | the final pass on "banana$" returns [6, -1, 3, 1, 0, 4, 2], with -1 in place of the suffix at 5 |
| SuffixArrays.Induce | suffix_array.py:109-119 | sa = [-1] * n, seeding, then the forward and the reverse pass |
| SuffixArrays.RankedSymbols | suffix_array.py:28 | every symbol of s has a rank below num_c |
| SuffixArrays.ReadyToSeed | suffix_array.py:124-132 | bucket ends lie within 0..n, and every list fits |
| SuffixArrays.LmsListsShort | suffix_array.py:46-55 | every LMS list has at most n entries |
| SuffixArrays.LmsCounted | suffix_array.py:50-55 | an LMS position below hi is counted |
| SuffixArrays.BlocksFound | suffix_array.py:46-57 | the blocks lie inside s and are keyed by LMS positions, or by None when there is none |
| SuffixArrays.SuffixArray | suffix_array.py:5-121 | n entries on success; (symbol, position) order for n <= 2; a valid suffix array when all symbols differ; a failure when there is no LMS position |
| SuffixArrays.SuffixArrayByReduction | suffix_array.py:39-121 | n entries on success; a failure without LMS positions |
| SuffixArrays.SortLms | suffix_array.py:69-106 | one entry per block, each in 0..n-1 or None; the only entry is None without LMS positions |
| SaisLms.FirstLmsFrom | suffix_array.py:50-55 | the first LMS position at or after k, or n |
| SaisLms.LmsBound | suffix_array.py:51 | no two LMS positions are adjacent, so at most half the positions are LMS |
| SaisLms.ReducedShorter | suffix_array.py:101 | the reduced sequence is strictly shorter than n: the recursion terminates |
| SaisLms.IncreasingStep | suffix_array.py:52 | appending i keeps every list of char_lms increasing |
| SaisLms.SoundStep | suffix_array.py:52 | every entry of c's list is an LMS position holding c |
| SaisLms.CompleteStep | suffix_array.py:51-52 | every LMS position found is in its symbol's list |
| SaisLms.ListOf | suffix_array.py:52 | c's list is non-empty, increasing and below the scan point |
| SaisLms.LmsListsStep | suffix_array.py:51-52 | one loop step keeps char_lms exact up to i |
| SaisLms.BlocksStart | suffix_array.py:47-50 | position 0 is never LMS; the scan starts with nothing found |
| SaisLms.BlocksSkip | suffix_array.py:51 | a non-LMS position leaves lms_blocks and prev_lms alone |
| SaisLms.BlocksClose | suffix_array.py:53-55 | an LMS position closes the previous block at i + 1 and becomes prev_lms |
| SaisLms.CloseKeys | suffix_array.py:53-55 | after closing, the keys are the LMS positions up to i, without i itself |
| SaisLms.CloseEnds | suffix_array.py:54 | after closing, each block ends one past the next LMS position |
| SaisLms.BlocksFinish | suffix_array.py:57 | the last block ends at n; with no LMS position the only key is None |
| SaisLms.VisitLms | suffix_array.py:51-55 | one loop turn keeps char_lms and lms_blocks exact up to i |
| SaisLms.FindLms | suffix_array.py:46-57 | char_lms lists each symbol's LMS positions in increasing order; lms_blocks maps each LMS position to its block end; one block per LMS position, or the None block |
| SaisNaming.NameStep | suffix_array.py:75-91 | one turn of the naming loop keeps the naming invariant, with the sentinel block taking the counter unchecked |
| SaisNaming.NameBlocks | suffix_array.py:70-91 | names exactly the LMS positions in sa; blocks that end before n and have different contents get different names |
| SaisNaming.KeysWithinLms | suffix_array.py:96 | there are no more named positions than LMS positions |
| SaisNaming.ReduceStep | suffix_array.py:96-99 | a named position takes the next entry of reduced_lms |
| SaisNaming.Reduce | suffix_array.py:93-99 | reduced_lms lists the names in increasing position order, zero-padded; recursion_correspondence maps each entry back to its position |
| SaisNaming.LmsOrder | suffix_array.py:104-106 | each index of the sorted reduced sequence maps back to its LMS position, or None where `get` misses |
| SaisNaming.WithSymbol | suffix_array.py:111-112 | the entries of xs holding c, in order |
| SaisNaming.WithSymbolMembers | suffix_array.py:111-112 | c's list holds exactly the entries of xs that carry c |
| SaisNaming.GroupedAt | suffix_array.py:110-112 | in the rebuilt char_lms, c's list is the entries holding c, in sorted-LMS order |
| SaisNaming.GroupedStep | suffix_array.py:112 | grouping one more entry appends it to its symbol's list |
| SaisNaming.Regroup | suffix_array.py:110-112 | TypeError iff some entry is None; otherwise each symbol's list is the entries holding it, in sorted-LMS order |
| SaisPasses.PyIndex | suffix_array.py:145-147 | Python's list indexing: -len..-1 count from the end; anything else is IndexError |
| SaisPasses.WriteTail | suffix_array.py:131-132 | writing a list before `end` keeps the length |
| SaisPasses.Seeded | suffix_array.py:125-132 | the array after the buckets below r are seeded keeps its length |
| SaisPasses.FillLms | suffix_array.py:124-132 | the array after the method is the seeded array |
| SaisPasses.WriteBucket | suffix_array.py:131-132 | list[j] goes to slot end - len(list) + j |
| SaisPasses.WriteTailSlots | suffix_array.py:131-132 | the write sets exactly the len(list) slots before end |
| SaisPasses.BucketEnds | suffix_array.py:128 | bucket ends lie within 0..n, and each is the next bucket's start |
| SaisPasses.BucketEndBound | suffix_array.py:128 | no bucket ends past n |
| SaisPasses.WriteTailSeeds | suffix_array.py:131-132 | writing a list at a bucket's tail seeds that bucket and leaves what lies above it |
| SaisPasses.WriteTailKeeps | suffix_array.py:131-132 | writing a later bucket keeps an earlier seeded bucket |
| SaisPasses.SeedAbove | suffix_array.py:125-132 | seeding the buckets below r leaves everything from bucket r on unchanged |
| SaisPasses.SeedTails | suffix_array.py:124-132 | every bucket's last slots hold its LMS list in list order, and its other slots are untouched |
| SaisPasses.BucketsBelow | suffix_array.py:40-44 | an earlier bucket ends before a later one starts |
| SaisPasses.ForwardStep | suffix_array.py:142-150 | one forward step keeps the lengths of sa and of the cursor copy |
| SaisPasses.ForwardFrom | suffix_array.py:142-150 | the forward loop keeps n entries |
| SaisPasses.ForwardStart | suffix_array.py:137-140 | the explicit first step keeps the lengths |
| SaisPasses.Forward | suffix_array.py:135-150 | the whole forward pass keeps n entries |
| SaisPasses.ForwardInducedSort | suffix_array.py:135-150 | sa is rewritten as the forward pass does, or the pass's IndexError is reported |
| SaisPasses.ForwardEntries | suffix_array.py:142-150 | every entry stays between -1 and n - 1 |
| SaisPasses.ForwardWrap | suffix_array.py:145-150 | at an entry 0, -1 is read as the always-L last position and written at that bucket's cursor |
| SaisPasses.ReverseStep | suffix_array.py:155-164 | one reverse step keeps the lengths |
| SaisPasses.ReverseDown | suffix_array.py:155-164 | the reverse loop keeps n entries |
| SaisPasses.ReverseInducedSort | suffix_array.py:153-164 | sa is rewritten as the reverse pass does, or its IndexError is reported |
| SaisPasses.SCursorExists | suffix_array.py:160-163 | an S-type position never has the largest symbol, so the cursor index rank + 1 exists |
| SaisPasses.ReverseWritesS | suffix_array.py:156-163 | the reverse pass writes only S-type positions |
| LcpArrays.RankInRange | suffix_array.py:171-173 | for a valid suffix array, rank[x] is in range and sa[rank[x]] == x |
| LcpArrays.KasaiStep | suffix_array.py:181-187 | when the suffix at i shares h > 0 symbols with its successor in sa, the suffix at i + 1 shares at least h - 1 with its own successor |
| LcpArrays.Ranks | suffix_array.py:171-173 | rank is the inverse of sa |
| LcpArrays.ExtendMatch | suffix_array.py:182-183 | the inner loop extends a known common prefix to the longest one |
| LcpArrays.ChainedSuffixArray | suffix_array.py:176-187 | a valid suffix array satisfies the step property at every position |
| LcpArrays.KasaiVisit | suffix_array.py:177-187 | position i gets its entry at its rank, and cnt - 1 remains a lower bound for i + 1 |
| LcpArrays.Kasai | suffix_array.py:175-189 | the second loop fills every entry with its common-prefix length |
| LcpArrays.LcpArray | suffix_array.py:167-189 | for a valid suffix array: n - 1 entries, and lcp[k] is the common-prefix length of the suffixes at sa[k] and sa[k+1] |

## Left out

- path_finding.py, convex_hull.py and `prim_mst` are not part of this model. They rest on floating point, `heapq`, library sorts with comparators, and debug printing.
- Python recursion limits, dictionary hashing and insertion order are not modelled. Maps and sequences stand in for dictionaries and lists.
- SuffixArrays.SuffixArray: does not prove that the SA-IS path (some repeated symbol) returns a sorted permutation. On some inputs the source writes -1 into `sa` or names two different blocks alike, so the claim would be false. The model states what holds as written: n entries on success, failure without LMS positions, and the stage-by-stage guarantees above.
- SaisNaming.NameBlocks: distinct names are guaranteed only for blocks that end before n, because the sentinel block is named without comparison.
- StronglyConnected.TarjanScc: proves the partition, the root property, and that each emitted list lies inside one strongly connected component. It does not prove that nodes of two different lists are never mutually reachable. That needs a minimality invariant on low-links: low[v] is at most the index of every still-stacked node that v reaches, including through nodes already emitted. The invariant kept here only says which node a low-link names and that this node is reachable.
- StronglyConnected.IsGraph: adjacency entries are required to lie in 0..n-1. A negative entry, which Python would read from the end of the list, is not modelled.
- Kruskal.KruskalMst: proves a sorted, acyclic choice of at most n - 1 input edges that connects the endpoints of every input edge. It does not prove minimality of total weight. That needs the cut (exchange) argument over all spanning forests, and the source only compares weights and never sums them.
- StringSearch.Search: requires a non-empty pattern unless the text is empty. With an empty pattern and non-empty text the source indexes `s[0]` and raises IndexError; that error outcome is not modelled.
- SparseTables.SparseTable.Query: the folding guarantee assumes `func` is associative, and idempotent on the idempotent path. It is modelled as a pure Dafny function; an effectful Python callable is out of scope.
- SparseTables.SparseTable.QueryAnyRange: computes the source's outcome for every l and r, but its contract states no outcome in two cases. (1) l < r where l lies in -n..n-1, the range fits a row, and not 0 <= l <= r < n: a negative l or an r past n - 1. Python then reads entries that wrap from the end of a row or that hold the initial copy of a value, so it can return a value for a range that is not [l, r], or raise IndexError on a later read. With n = 5, query(0, 5) combines all five values without idempotence, and with idempotence it ignores values[4] (`SparseTables.QueryPastEnd`, `SparseTables.QueryPastEndIdempotent`). (2) With idempotence and r + 1 < l, the two reads can return a value or raise IndexError.
- Tries.StringTrie.Find: the ghost set of inserted strings only over-approximates the words. Deleted strings stay in it.
- Tries: the throw-away default node that `setdefault` allocates when the child exists has no observable effect and is not modelled.
- CartesianTrees.ConstructCartesianTree: values are `int`. The source accepts any mutually comparable values.

## Findings

| source | as written | input that shows it | evidently intended | confidence | as-written member | corrected member |
|---|---|---|---|---|---|---|
| string_trie.py:44-48 | `delete` prunes ancestor nodes while they have no other children, without checking their `terminal` flag | insert "a", insert "ab", delete "ab": afterwards find("a") is False | pruning stops at a node that is itself a word, so delete(s) removes exactly the word s | high (not executed) | Tries.DeleteLosesPrefix | Tries.DeleteKeepingWordsExact |
