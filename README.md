# biopy summary trees, modelled in Dafny

This project models two parts of biopy. The first is the tree utilities in
`trunk/biopy/treeutils.py`:

- the canonical Newick serialiser `toNewick`;
- the clade extractors `getClade` and `getTreeClades`;
- the `TreeBuilder` that assembles a tree in a node table.

The second is the core of the `scripts/summary_tree.py` script, which picks
a summary tree for a posterior sample of trees:

- group the trees by topology;
- sort the groups by support, i.e. by the number of trees in each;
- choose the candidate topologies, either the top `ntops` (with a warning
  about ties) or every topology in support order with equal-support runs
  shuffled;
- score each candidate with a distance minimiser and keep the lowest score,
  optionally within a time limit.

Modules:

- `TreeUtils` (with `StringOrder` for Python's string order) has the trees
  as a datatype and the pure recursive functions.
- `Builder` has `TreeBuilder` as a class over an id → record table.
- `Topologies`, `Candidates`, `Search` and `SummaryTree` lift the script's
  top-level code into methods. Each method has its loops and is proved
  against a pure specification function.
- `Wrappers` holds `Option` and `Result`. A Python exception the script can
  raise (`IndexError`, `ZeroDivisionError`) is a `Failure`.

External parts are parameters:

- the distance minimiser `minPosteriorDistanceTree` is the oracle
  `(candidate, trees) -> (tree, raw score)`;
- the wall clock is `elapsed: nat -> int`, the time read after the t-th
  scored candidate;
- `random.shuffle` is "some permutation of the run";
- the order of `dict.items()` is the parameter `keyOrder`;
- the `%r` rendering of a branch length is the function `format` of the
  `Full` mode.

## Model

| member | source | states |
|---|---|---|
| StringOrder.SortPair | trunk/biopy/treeutils.py:121-122 | sorting two child encodings yields them in string order, as a permutation of the two |
| StringOrder.SortPairSymmetric | trunk/biopy/treeutils.py:121-122 | the sorted pair does not depend on the order the children are given in |
| StringOrder.LexLeTotal | trunk/biopy/treeutils.py:122 | Python's string order is total |
| StringOrder.LexLeAntisymmetric | trunk/biopy/treeutils.py:122 | two strings each at most the other are equal |
| TreeUtils.LeavesAreLeafSubtrees | trunk/biopy/treeutils.py:68-72 | the leaves of a node, the reference for the clade functions, are exactly its leaf subtrees |
| TreeUtils.LeafCount | trunk/biopy/treeutils.py:77-87 | a binary tree has one more leaf than internal nodes |
| TreeUtils.GetClade | trunk/biopy/treeutils.py:68-72 | getClade is the ids of the leaves below the node, left to right: [id] for a leaf |
| TreeUtils.LeafIdsSplit | trunk/biopy/treeutils.py:72 | an internal node's clade is its first child's clade followed by its second's |
| TreeUtils.CladeHoldsLeafIds | trunk/biopy/treeutils.py:68-72 | an id is in getClade(n) iff a leaf below n has it |
| TreeUtils.TreeCladesI | trunk/biopy/treeutils.py:77-87 | the taxa part is the node's leaf taxa; a leaf has no clades; an internal node has one clade per internal node below it, its own first, with all its taxa |
| TreeUtils.LeafTaxaSplit | trunk/biopy/treeutils.py:82-83 | an internal node's taxa list is its children's taxa lists concatenated in child order |
| TreeUtils.GetTreeClades | trunk/biopy/treeutils.py:89-95 | empty for a leaf root; one entry per internal node, one fewer than the leaves; the root's entry comes first with every leaf taxon |
| TreeUtils.CladesSplit | trunk/biopy/treeutils.py:84-87 | the clades of a node are its own entry, then its first child's clades, then its second's |
| TreeUtils.CladesPreorder | trunk/biopy/treeutils.py:84-87 | every entry is followed immediately by the entries of exactly the internal nodes below it, so each parent precedes its descendants |
| TreeUtils.CladesExactly | trunk/biopy/treeutils.py:77-95 | an entry is among the clades iff it is (leaf taxa of m, m) for an internal node m of the tree |
| TreeUtils.CladeUnion | trunk/biopy/treeutils.py:83 | a clade's taxa are the multiset union of its children's, disjoint when the taxa are distinct |
| TreeUtils.ToNewick | trunk/biopy/treeutils.py:107-127 | a leaf encodes as its taxon, followed in full mode, below the root, by ":" and its formatted branch length; an internal node encodes as "(…)"; in full mode a non-root node's encoding ends with ":" and its formatted branch length |
| TreeUtils.TopologyIgnoresRoot | trunk/biopy/treeutils.py:125-126 | in topology-only mode no node gets a suffix, root or not |
| TreeUtils.InternalEncoding | trunk/biopy/treeutils.py:120-126 | an internal node encodes as "(" a "," b ")" with a ≤ b the children's encodings, each with its own suffix already attached, then its own suffix |
| TreeUtils.SwapChildren | trunk/biopy/treeutils.py:110-123 | swapping the children of a node does not change its encoding |
| TreeUtils.SameShapeSameEncoding | trunk/biopy/treeutils.py:110-123 | trees equal up to child order (and ids and, in topology mode, branch lengths) encode the same |
| TreeUtils.EqualKeysSameShape | trunk/biopy/treeutils.py:107-123 | with taxa free of Newick punctuation, equal topology keys mean the same tree up to child order, ids and branch lengths |
| TreeUtils.EncodingPrefixUnique | trunk/biopy/treeutils.py:118-123 | an encoding followed by a delimiter determines where the encoding ends, and equal encodings come from trees of the same shape |
| TreeUtils.SameShapeSameTaxa | trunk/biopy/treeutils.py:118-123 | same-shaped trees have the same taxa |
| TreeUtils.DifferentTaxaDifferentKeys | trunk/biopy/treeutils.py:107-123 | trees over different taxa never share a topology key |
| TreeUtils.ThreeTaxonKey | trunk/biopy/treeutils.py:107-127 | the key of the tree (A,(B,C)) is ((B,C),A) |
| Builder.EmptyTable | trunk/biopy/treeutils.py:31-32 | a new tree holds only its root, id 0, with no links |
| Builder.EmptyTableValid | trunk/biopy/treeutils.py:31-32 | the new tree is a valid table |
| Builder.AddNodeValid | trunk/biopy/treeutils.py:34-50 | adding an unlinked node under the next free id keeps the table valid, and the id is fresh |
| Builder.Merged | trunk/biopy/treeutils.py:47-58 | the table after a merge has the old ids plus the new parent |
| Builder.MergedRecords | trunk/biopy/treeutils.py:47-58 | after mergeNodes the new node has children [n1, n2]; n1 and n2 point to it with branch lengths h1 and h2; no other node changes |
| Builder.MergeValid | trunk/biopy/treeutils.py:47-58 | a merge keeps the table valid |
| Builder.AfterFinalize | trunk/biopy/treeutils.py:60-66 | finalize removes n and only n from the table |
| Builder.FinalizeValid | trunk/biopy/treeutils.py:60-66 | after finalize the root's children are n's, each of them has the root as parent, and the table stays valid |
| Builder.Relinked | trunk/biopy/treeutils.py:63-64 | relinking the first i children keeps the table's ids |
| Builder.RelinkStep | trunk/biopy/treeutils.py:63-64 | one turn of the relinking loop sets one more child's parent to the root |
| Builder.RelinkEnd | trunk/biopy/treeutils.py:60-66 | the relinked table without n is the finalized table |
| Builder.TreeBuilder.constructor | trunk/biopy/treeutils.py:31-32 | the builder starts with a valid table holding only the root |
| Builder.TreeBuilder.CreateLeaf | trunk/biopy/treeutils.py:34-39 | a leaf record with the name is added under a fresh id, and nothing else changes |
| Builder.TreeBuilder.NewNode | trunk/biopy/treeutils.py:41-45 | a blank record is added under a fresh id, and nothing else changes |
| Builder.TreeBuilder.MergeNodes | trunk/biopy/treeutils.py:47-58 | the table becomes the merged table under a fresh id and stays valid |
| Builder.TreeBuilder.Finalize | trunk/biopy/treeutils.py:60-66 | the loop over n's children yields the finalized table, which stays valid and is returned with the root |
| Builder.BuildCherry | trunk/biopy/treeutils.py:21-66 | two leaves merged and finalized give a three-node tree whose root has the two leaves, in order, pointing back with their branch lengths |
| Topologies.MembersExactly | scripts/summary_tree.py:103-109 | a tree is in the list for key k iff it is one of the trees and its topology key is k |
| Topologies.MembersOfKey | scripts/summary_tree.py:106-107 | every key's list is non-empty and starts with a tree of that key |
| Topologies.KeysStep | scripts/summary_tree.py:104-109 | one more tree adds its key to the keys |
| Topologies.MembersStep | scripts/summary_tree.py:104-109 | one more tree is appended to the list of its key and to no other |
| Topologies.GroupStepSeen | scripts/summary_tree.py:108-109 | appending a tree whose key is present keeps the dictionary equal to the grouping of the trees so far |
| Topologies.GroupStepNew | scripts/summary_tree.py:106-107 | starting a new list for an unseen key keeps the dictionary equal to the grouping of the trees so far |
| Topologies.GroupByTopology | scripts/summary_tree.py:103-109 | the loop's dictionary has exactly the keys of the trees, each mapped to its trees in input order |
| Topologies.MemberCountStep | scripts/summary_tree.py:104-109 | one more tree adds one to the list lengths over distinct keys iff its key is among them |
| Topologies.MemberCountIsTreeCount | scripts/summary_tree.py:103-109 | the list lengths over all keys sum to the number of trees |
| Topologies.EmptyMemberCount | scripts/summary_tree.py:103 | no trees, no members |
| Topologies.Items | scripts/summary_tree.py:111 | the items are one (key, list) pair per key, in the dictionary's order |
| Topologies.ItemsCount | scripts/summary_tree.py:111 | the items' supports sum to the members counted over their keys |
| Topologies.ItemsCoverTrees | scripts/summary_tree.py:103-111 | the supports of the items sum to the number of trees |
| Topologies.InsertBySupport | scripts/summary_tree.py:113 | inserting a group into a list sorted by descending support keeps it sorted and one longer |
| Topologies.SortBySupport | scripts/summary_tree.py:113 | the sorted groups are in non-increasing order of support, as many as before |
| Topologies.InsertPermutes | scripts/summary_tree.py:113 | insertion adds exactly the group |
| Topologies.SortPermutes | scripts/summary_tree.py:113 | sorting is a permutation of the groups |
| Topologies.InsertKeepsTotal | scripts/summary_tree.py:113 | insertion adds the group's support to the total |
| Topologies.SortKeepsTotal | scripts/summary_tree.py:113 | sorting keeps the total support |
| Candidates.FirstMembersDistinct | scripts/summary_tree.py:137-147 | groups with different keys give different candidates |
| Candidates.PyPrefix | scripts/summary_tree.py:137 | Python's s[:stop] is a prefix of s whose i-th element is s[i] in Python's indexing; it has stop elements when 0 ≤ stop ≤ len(s), all of s past the end, and counts from the end for a negative stop |
| Candidates.ClampTops | scripts/summary_tree.py:115-116 | ntops is never more than the number of groups, and is left alone when it is not more |
| Candidates.ScanTies | scripts/summary_tree.py:128-131 | the first lookup raises IndexError iff ntops-1 is not a valid index (always so with no groups); otherwise k stops at the first index from ntops-1 on whose support differs, or at the end |
| Candidates.TiesExactly | scripts/summary_tree.py:128-132 | for sorted groups the groups from ntops up to k are exactly those tying with the ntops-th, and k > ntops iff the next group ties |
| Candidates.TopCandidates | scripts/summary_tree.py:128-137 | IndexError iff ntops-1 is not a valid index; otherwise a warning with k - ntops extra topologies, the position ntops, the ntops-th's support and the fraction support/len(trees) it prints is issued iff k > ntops; the candidates are the first members of allt[:ntops] either way |
| Candidates.TopCandidatesArePrefix | scripts/summary_tree.py:137 | for a clamped ntops from 0 on, the candidates are the first ntops groups' representatives |
| Candidates.SupportWithinTotal | scripts/summary_tree.py:129 | the looked-up group holds at least one of the trees and no more than all of them |
| Candidates.TiePercent | scripts/summary_tree.py:134-135 | the percentage the warning announces: times the number of trees it is 100 × the support, it lies within 0 to 100, and is positive for a group with trees |
| Candidates.TieShareAsWritten | scripts/summary_tree.py:135 | the figure the warning prints: times the number of trees it is the support (true division), so it lies within 0 to 1 |
| Candidates.TieShareUnderstated | scripts/summary_tree.py:126-135 | the printed figure is a hundredth of the percentage the "%" announces, smaller than it for every group with trees; one tree of two prints as 0.5 where 50 is meant |
| Candidates.TieShareAtMostHalf | scripts/summary_tree.py:128-135 | for ntops ≥ 1, whenever the warning is issued the ntops-th group ties with the next, so the printed figure is in (0, 0.5] and the percentage in (0, 50] (with ntops 0 the scan starts at the last group, which may be the only one) |
| Candidates.TwoWithinTotal | scripts/summary_tree.py:128-135 | two different groups hold at most all the trees between them |
| Candidates.RunMember | scripts/summary_tree.py:145-148 | every group of a run has the run's support |
| Candidates.RunsDisjoint | scripts/summary_tree.py:142-151 | two overlapping runs are the same run |
| Candidates.RunAppended | scripts/summary_tree.py:143-151 | appending a permutation of the next run's representatives keeps every run so far a permutation of its representatives |
| Candidates.CollectRun | scripts/summary_tree.py:143-148 | from the start of a run, the inner loop collects exactly the representatives of that whole run of equal support, in group order, and stops where the run ends |
| Candidates.TimedOrder | scripts/summary_tree.py:141-151 | one candidate per group, each group's first member exactly once, every maximal equal-support run a permutation of the same run's representatives |
| Candidates.RunStart | scripts/summary_tree.py:142-148 | the start of the run holding group i: every group from it to i has i's support and the one before has not |
| Candidates.RunEnd | scripts/summary_tree.py:146-148 | the end of the run holding group i: every group from i to it has i's support and the one at it has not |
| Candidates.CandidateKeepsSupport | scripts/summary_tree.py:141-151 | the i-th candidate represents a group with the support of the i-th group, so candidate supports do not increase |
| Search.PostTreesExactly | scripts/summary_tree.py:171-179 | for the grouping of the trees, a candidate in matching mode is scored against exactly the posterior trees with its topology key, and is skipped exactly when there are none |
| Search.TrialOf | scripts/summary_tree.py:171-184 | a candidate yields a trial iff it is not skipped |
| Search.Trials | scripts/summary_tree.py:170-189 | there are never more trials than candidates |
| Search.TrialsStep | scripts/summary_tree.py:170-189 | each loop turn adds the trial of the next candidate |
| Search.TrialsCount | scripts/summary_tree.py:171-189 | when no candidate is skipped there is one trial per candidate |
| Search.SkippedStep | scripts/summary_tree.py:173-176 | a skipped candidate adds no trial and is not counted |
| Search.ScoredStep | scripts/summary_tree.py:177-184 | a scored candidate is scored against a non-empty list and adds the oracle's tree with the score divided by the list's length |
| Search.TrialsPrefix | scripts/summary_tree.py:170-194 | the trials of the first i candidates are a prefix of all trials |
| Search.BestStep | scripts/summary_tree.py:186-188 | a trial replaces the best only with a strictly lower score, and then with the oracle's tree |
| Search.BestIsEarliestMinimum | scripts/summary_tree.py:158-188 | the best is (None, infinity) before any trial, and otherwise the oracle's tree of the earliest trial of lowest score |
| Search.InTimeStep | scripts/summary_tree.py:190-194 | a trial after which the time is not up extends the run of trials within the time |
| Search.StopsAtUnique | scripts/summary_tree.py:118-194 | the stopping point is fixed by the clock; with no limit every candidate that is not skipped is tried; at least one is tried when some candidate is not skipped |
| Search.SearchEnd | scripts/summary_tree.py:170-194 | where the loop ends, its trials are the first tried of all trials and tried is the stopping point |
| Search.RunSearch | scripts/summary_tree.py:158-194 | outside matching mode with no trees a candidate raises ZeroDivisionError; otherwise the search stops at the clock's stopping point and returns the best of the trials made |
| SummaryTree.Grouping | scripts/summary_tree.py:103-109 | the dictionary of topologies has exactly the trees' keys |
| SummaryTree.GroupingUnique | scripts/summary_tree.py:103-109 | the grouping loop's dictionary is the grouping |
| SummaryTree.GroupingMembers | scripts/summary_tree.py:106-107 | each list is non-empty and its first tree has the list's key |
| SummaryTree.SortKeepsNonEmpty | scripts/summary_tree.py:113 | sorting keeps every group non-empty |
| SummaryTree.SortedGroups | scripts/summary_tree.py:103-113 | allt has every key once, non-increasing support, non-empty lists, and every tree once between them |
| SummaryTree.SummaryTree | scripts/summary_tree.py:103-194 | one run fails exactly when the tie scan's lookup is out of range (ZeroDivisionError first when --progress is set and there are no trees, else IndexError) or a target is scored outside matching mode against no trees (ZeroDivisionError); the groups are the sorted items; the candidates are the target, or the first members of allt[:ntops] with the tie warning the scan reports, or every group's first member once with each equal-support run permuted; the outcome is the search's over those candidates, and (no tree tried, no tree, infinite score) when there are no trees outside matching mode, with the limit off for a target |

## Left out

- `scripts/sptree_plot.py` is not part of this model. It is plotting and floating-point statistics.
- Reading trees, options and files, and all printing, are left out. `countNexusTrees` is file iteration. Of the progress line at `scripts/summary_tree.py:122-126` only its division by the number of trees is modelled: with `--progress` and no trees it raises ZeroDivisionError before the tie scan.
- `getCommonAncesstor` is left out: it delegates to a BioPython tree method that is not part of this model.
- Search.Normalised: the score is the raw score divided by the list's length, without the square root of `scripts/summary_tree.py:184`. Raw scores are distances, assumed non-negative (Python would raise ValueError on the square root of a negative one); the square root is increasing on them, so the comparison `score < bestScore` picks the same trees; only the stored score differs.
- TreeUtils.ToNewick: the `%r` rendering of a branch length is an arbitrary function `format`, as Python's float formatting is not modelled.
- TreeUtils.ToNewick: a tree is strictly binary, and a leaf is a `Leaf`. The source tells leaves apart by a non-empty taxon, so a leaf whose taxon is empty would be read as an internal node there. Lemmas about key uniqueness require non-empty taxa free of Newick punctuation.
- TreeUtils.ToNewick: `if not nodeId` makes an explicit node id 0 mean the root. Recursive calls never pass the root's id, so this is not modelled.
- TreeUtils.GetTreeClades: the clade list is in pre-order, not post-order: a node's entry comes before its descendants' entries (parent, then the left child's clades, then the right child's).
- Builder.TreeBuilder: BioPython's `Tree.add`, `set_prev`, `add_succ`, `set_succ` and `kill` become updates of an id → record map. Ids are allocated by a counter, and `kill` is plain removal of the entry.
- Builder.TreeBuilder.MergeNodes: requires both nodes to be in the table and not to be the root. Callers only hold nodes the builder returned, and the root is never returned.
- Builder.TreeBuilder.Finalize: requires n and its children to be in the table and n not to be the root, for the same reason.
- Topologies.Items: the order of `dict.items()` is the parameter `keyOrder`. The sort is stable, so the order among groups of equal support is only "the order keyOrder gives".
- Candidates.TimedOrder: `random.shuffle` is a nondeterministic choice of any permutation of each run.
- Search.RunSearch: the clock is a function of the number of trials scored so far. The oracle is deterministic. The `ZeroDivisionError` of a search with no posterior trees outside matching mode is raised before the loop. The outcome is the same, because the first candidate would raise it before any state the model returns changes.
- Search.RunSearch: the per-candidate progress and skip messages are not returned.

## Findings

| source | as written | input that shows it | evidently intended | confidence | as-written member | corrected member |
|---|---|---|---|---|---|---|
| scripts/summary_tree.py:134-135 | the tie warning prints `lLast/len(trees)`, a fraction of one, under `%.3f%%`, while the progress line at line 126 multiplies the same kind of fraction by 100 | two trees of different topologies and ntops 1: both groups have support 1, and the warning reports 0.500% | the tying group's share of the trees as a percentage, 100·lLast/len(trees), here 50.000% | not executed | Candidates.TieShareUnderstated | Candidates.TiePercent |
