/**
  The tree utilities of biopy (trunk/biopy/treeutils.py): the canonical Newick
  serialiser, the leaf ids below a node and the clades of a tree.

  A tree is a rooted binary tree of nodes. Every node keeps the id it has in
  the tree's node table and the length of the branch that joins it to its
  parent (the root's is never used). The source tells a leaf by its non-empty
  taxon; here a leaf is a Leaf, and ValidTaxon states what its taxon may be.
 */
module TreeUtils {
  import opened StringOrder

  type NodeId = int
  type BranchLength = real

  datatype Node =
    | Leaf(id: NodeId, taxon: string, branch: BranchLength)
    | Internal(id: NodeId, left: Node, right: Node, branch: BranchLength)

  // ---------------------------------------------------------------------------
  // Reference definitions: the subtrees and the leaves of a node
  // ---------------------------------------------------------------------------

  /** m is n itself or lies somewhere below n. */
  predicate IsSubtree(m: Node, n: Node)
  {
    m == n || (n.Internal? && (IsSubtree(m, n.left) || IsSubtree(m, n.right)))
  }

  /** The leaves below n, left to right. */
  function Leaves(n: Node): (r: seq<Node>)
    ensures |r| >= 1
    ensures forall i :: 0 <= i < |r| ==> r[i].Leaf?
  {
    match n
    case Leaf(_, _, _) => [n]
    case Internal(_, l, rt, _) => Leaves(l) + Leaves(rt)
  }

  /** The taxa of the leaves below n, left to right. */
  function LeafTaxa(n: Node): (r: seq<string>)
    ensures |r| == |Leaves(n)|
  {
    var ls := Leaves(n);
    seq(|ls|, i requires 0 <= i < |ls| => ls[i].taxon)
  }

  /** The ids of the leaves below n, left to right. */
  function LeafIds(n: Node): (r: seq<NodeId>)
    ensures |r| == |Leaves(n)|
  {
    var ls := Leaves(n);
    seq(|ls|, i requires 0 <= i < |ls| => ls[i].id)
  }

  function InternalCount(n: Node): nat
  {
    match n
    case Leaf(_, _, _) => 0
    case Internal(_, l, r, _) => 1 + InternalCount(l) + InternalCount(r)
  }

  /** The leaves listed by Leaves are exactly the leaf subtrees. */
  lemma {:induction false} LeavesAreLeafSubtrees(n: Node, m: Node)
    ensures m in Leaves(n) <==> IsSubtree(m, n) && m.Leaf?
  {
    match n
    case Leaf(_, _, _) =>
    case Internal(_, l, r, _) =>
      LeavesAreLeafSubtrees(l, m);
      LeavesAreLeafSubtrees(r, m);
      if m == n {
        assert m !in Leaves(n);
      }
  }

  /** A binary tree has one more leaf than it has internal nodes. */
  lemma {:induction false} LeafCount(n: Node)
    ensures |Leaves(n)| == InternalCount(n) + 1
  {
    match n
    case Leaf(_, _, _) =>
    case Internal(_, l, r, _) =>
      LeafCount(l);
      LeafCount(r);
  }

  /** An internal node's taxa list is its left child's followed by its right child's. */
  lemma LeafTaxaSplit(n: Node)
    requires n.Internal?
    ensures LeafTaxa(n) == LeafTaxa(n.left) + LeafTaxa(n.right)
  {
    var a, b := LeafTaxa(n.left), LeafTaxa(n.right);
    assert Leaves(n) == Leaves(n.left) + Leaves(n.right);
    forall i | 0 <= i < |LeafTaxa(n)|
      ensures LeafTaxa(n)[i] == (a + b)[i]
    {
      if i >= |a| {
        assert Leaves(n)[i] == Leaves(n.right)[i - |a|];
      }
    }
  }

  /** An internal node's leaf ids are its left child's followed by its right child's. */
  lemma LeafIdsSplit(n: Node)
    requires n.Internal?
    ensures LeafIds(n) == LeafIds(n.left) + LeafIds(n.right)
  {
    var a, b := LeafIds(n.left), LeafIds(n.right);
    assert Leaves(n) == Leaves(n.left) + Leaves(n.right);
    forall i | 0 <= i < |LeafIds(n)|
      ensures LeafIds(n)[i] == (a + b)[i]
    {
      if i >= |a| {
        assert Leaves(n)[i] == Leaves(n.right)[i - |a|];
      }
    }
  }

  // ---------------------------------------------------------------------------
  // getClade
  // ---------------------------------------------------------------------------

  /** getClade(tree, nodeId): the ids of the leaves below the node, in child order. */
  function GetClade(n: Node): (r: seq<NodeId>)
    ensures r == LeafIds(n)
  {
    match n
    case Leaf(id, _, _) => [id]
    case Internal(_, l, rt, _) =>
      LeafIdsSplit(n);
      GetClade(l) + GetClade(rt)
  }

  /** An id is in getClade's result exactly when a leaf with that id lies below the node. */
  lemma CladeHoldsLeafIds(n: Node, x: NodeId)
    ensures x in GetClade(n) <==> exists m :: IsSubtree(m, n) && m.Leaf? && m.id == x
  {
    var ls := Leaves(n);
    if x in GetClade(n) {
      var i :| 0 <= i < |LeafIds(n)| && LeafIds(n)[i] == x;
      LeavesAreLeafSubtrees(n, ls[i]);
    }
    if exists m :: IsSubtree(m, n) && m.Leaf? && m.id == x {
      var m :| IsSubtree(m, n) && m.Leaf? && m.id == x;
      LeavesAreLeafSubtrees(n, m);
      var i :| 0 <= i < |ls| && ls[i] == m;
      assert LeafIds(n)[i] == x;
    }
  }

  // ---------------------------------------------------------------------------
  // getTreeClades
  // ---------------------------------------------------------------------------

  /** One clade: the taxa below an internal node and the node itself. */
  datatype CladeEntry = CladeEntry(taxa: seq<string>, node: Node)

  /**
    _getTreeClades_i(tree, nodeID): the taxa below the node and the clade
    entries of every internal node of its subtree, the node's own first.
   */
  function TreeCladesI(n: Node): (r: (seq<string>, seq<CladeEntry>))
    ensures r.0 == LeafTaxa(n)
    ensures |r.1| == InternalCount(n)
    ensures n.Leaf? ==> r.1 == []
    ensures n.Internal? ==> r.1[0] == CladeEntry(LeafTaxa(n), n)
  {
    match n
    case Leaf(_, taxon, _) => ([taxon], [])
    case Internal(_, l, rt, _) =>
      var cl, cr := TreeCladesI(l), TreeCladesI(rt);
      var allt := cl.0 + cr.0;
      LeafTaxaSplit(n);
      (allt, [CladeEntry(allt, n)] + cl.1 + cr.1)
  }

  /**
    getTreeClades(tree): one (taxa-list, node) entry per internal node; none
    for a tree that is a single leaf; the root's entry, listing every taxon,
    first.
   */
  function GetTreeClades(tree: Node): (r: seq<CladeEntry>)
    ensures tree.Leaf? ==> r == []
    ensures |r| == InternalCount(tree) == |LeafTaxa(tree)| - 1
    ensures tree.Internal? ==> r[0] == CladeEntry(LeafTaxa(tree), tree)
  {
    LeafCount(tree);
    TreeCladesI(tree).1
  }

  /** An internal node's clades: its own entry, then its left child's, then its right child's. */
  lemma CladesSplit(n: Node)
    requires n.Internal?
    ensures GetTreeClades(n)
            == [CladeEntry(LeafTaxa(n), n)] + GetTreeClades(n.left) + GetTreeClades(n.right)
  {
  }

  /** A slice of before + part + after that lies within part. */
  lemma SliceOfPart<T>(before: seq<T>, part: seq<T>, after: seq<T>, j: nat, k: nat)
    requires j + k <= |part|
    ensures |before| + j + k <= |before + part + after|
    ensures (before + part + after)[|before| + j..|before| + j + k] == part[j..j + k]
  {
    var r := before + part + after;
    assert forall x :: |before| <= x < |before| + |part| ==> r[x] == part[x - |before|];
  }

  /** Entry i of r is immediately followed by the entries of its node's descendants. */
  predicate BlockAt(r: seq<CladeEntry>, i: nat)
    requires i < |r|
  {
    i + InternalCount(r[i].node) <= |r| && r[i..i + InternalCount(r[i].node)] == GetTreeClades(r[i].node)
  }

  /** A block found inside part is still a block once part is placed between before and after. */
  lemma BlockInPart(r: seq<CladeEntry>, before: seq<CladeEntry>, part: seq<CladeEntry>, after: seq<CladeEntry>, j: nat)
    requires r == before + part + after
    requires j < |part| && BlockAt(part, j)
    ensures |before| + j < |r| && BlockAt(r, |before| + j)
  {
    assert r[|before| + j] == part[j];
    SliceOfPart(before, part, after, j, InternalCount(part[j].node));
  }

  /**
    The entries are in pre-order: the entry of every internal node is
    immediately followed by the entries of its descendants, so every parent's
    entry precedes those of its descendants.
   */
  lemma {:induction false} CladesPreorder(n: Node, i: nat)
    requires i < |GetTreeClades(n)|
    ensures BlockAt(GetTreeClades(n), i)
    decreases n, 1
  {
    if i == 0 {
      var r := GetTreeClades(n);
      assert r[0..InternalCount(n)] == r;
    } else if i < 1 + |GetTreeClades(n.left)| {
      PreorderInLeft(n, i);
    } else {
      PreorderInRight(n, i);
    }
  }

  lemma {:induction false} PreorderInLeft(n: Node, i: nat)
    requires n.Internal? && 1 <= i < 1 + |GetTreeClades(n.left)|
    ensures i < |GetTreeClades(n)| && BlockAt(GetTreeClades(n), i)
    decreases n, 0
  {
    CladesSplit(n);
    CladesPreorder(n.left, i - 1);
    BlockInPart(GetTreeClades(n), [CladeEntry(LeafTaxa(n), n)], GetTreeClades(n.left), GetTreeClades(n.right), i - 1);
  }

  lemma {:induction false} PreorderInRight(n: Node, i: nat)
    requires n.Internal? && 1 + |GetTreeClades(n.left)| <= i < |GetTreeClades(n)|
    ensures BlockAt(GetTreeClades(n), i)
    decreases n, 0
  {
    CladesSplit(n);
    var head := [CladeEntry(LeafTaxa(n), n)] + GetTreeClades(n.left);
    CladesPreorder(n.right, i - |head|);
    BlockInPart(GetTreeClades(n), head, GetTreeClades(n.right), [], i - |head|);
  }

  /**
    The clades are exactly the internal nodes of the tree, each paired with
    the taxa below it: every entry is one, and every internal node has one.
   */
  lemma {:induction false} CladesExactly(n: Node, e: CladeEntry)
    ensures e in GetTreeClades(n) <==>
            e.node.Internal? && IsSubtree(e.node, n) && e.taxa == LeafTaxa(e.node)
  {
    if n.Internal? {
      CladesSplit(n);
      CladesExactly(n.left, e);
      CladesExactly(n.right, e);
    }
  }

  /** No taxon occurs twice below n. */
  predicate UniqueTaxa(n: Node)
  {
    var ts := LeafTaxa(n);
    forall i, j :: 0 <= i < j < |ts| ==> ts[i] != ts[j]
  }

  /**
    The clade of every internal node is the union of its children's clades,
    and when no taxon occurs twice the two children's clades are disjoint.
   */
  lemma CladeUnion(n: Node)
    requires n.Internal?
    ensures multiset(LeafTaxa(n)) == multiset(LeafTaxa(n.left)) + multiset(LeafTaxa(n.right))
    ensures UniqueTaxa(n) ==> multiset(LeafTaxa(n.left)) !! multiset(LeafTaxa(n.right))
  {
    LeafTaxaSplit(n);
    var a, b := LeafTaxa(n.left), LeafTaxa(n.right);
    if UniqueTaxa(n) {
      forall i, j | 0 <= i < |a| && 0 <= j < |b|
        ensures a[i] != b[j]
      {
        assert (a + b)[i] == a[i] && (a + b)[|a| + j] == b[j];
      }
    }
  }

  // ---------------------------------------------------------------------------
  // toNewick
  // ---------------------------------------------------------------------------

  /** Whether branch lengths are written, and how a branch length is formatted (`%r`). */
  datatype Mode = TopologyOnly | Full(format: BranchLength -> string)

  predicate EndsWith(s: string, suffix: string)
  {
    |suffix| <= |s| && s[|s| - |suffix|..] == suffix
  }

  /**
    toNewick(tree, nodeId, topologyOnly): a leaf is its taxon; an internal node
    is its two children's encodings, sorted as strings, in parentheses; in full
    mode every node but the root gets ":" and its branch length appended,
    before its parent sorts it.
   */
  function ToNewick(n: Node, isRoot: bool, mode: Mode): (r: string)
    ensures n.Leaf? ==> r == n.taxon + Suffix(n, isRoot, mode)
    ensures n.Internal? && (isRoot || mode.TopologyOnly?) ==> |r| >= 3 && r[0] == '(' && r[|r| - 1] == ')'
    ensures mode.Full? && !isRoot ==> EndsWith(r, ":" + mode.format(n.branch))
  {
    var rep :=
      match n
      case Leaf(_, taxon, _) => taxon
      case Internal(_, l, rt, _) =>
        var reps := SortPair(ToNewick(l, false, mode), ToNewick(rt, false, mode));
        "(" + reps.0 + "," + reps.1 + ")";
    if mode.Full? && !isRoot then rep + ":" + mode.format(n.branch) else rep
  }

  /** The topology-only encoding of a tree: the key posterior trees are grouped by. */
  function TopologyKey(tree: Node): string
  {
    ToNewick(tree, true, TopologyOnly)
  }

  /** In topology-only mode no node gets a suffix, so the root flag does not matter. */
  lemma TopologyIgnoresRoot(n: Node)
    ensures ToNewick(n, false, TopologyOnly) == ToNewick(n, true, TopologyOnly)
  {
  }

  /**
    An internal node encodes as "(" + a + "," + b + ")" where a <= b and {a, b}
    are the children's own encodings, suffixes included; in full mode a node
    other than the root then gets its own suffix.
   */
  lemma InternalEncoding(n: Node, isRoot: bool, mode: Mode)
    requires n.Internal?
    ensures exists a, b :: LexLe(a, b)
              && multiset{a, b} == multiset{ToNewick(n.left, false, mode), ToNewick(n.right, false, mode)}
              && ToNewick(n, isRoot, mode) == "(" + a + "," + b + ")" + Suffix(n, isRoot, mode)
  {
    var reps := SortPair(ToNewick(n.left, false, mode), ToNewick(n.right, false, mode));
    var a, b := reps.0, reps.1;
    InternalUnfold(n, isRoot, mode);
    assert LexLe(a, b)
           && multiset{a, b} == multiset{ToNewick(n.left, false, mode), ToNewick(n.right, false, mode)}
           && ToNewick(n, isRoot, mode) == "(" + a + "," + b + ")" + Suffix(n, isRoot, mode);
  }

  /** The suffix toNewick gives a node: its branch length in full mode, unless it is the root. */
  function Suffix(n: Node, isRoot: bool, mode: Mode): string
  {
    if mode.Full? && !isRoot then ":" + mode.format(n.branch) else ""
  }

  lemma InternalUnfold(n: Node, isRoot: bool, mode: Mode)
    requires n.Internal?
    ensures var reps := SortPair(ToNewick(n.left, false, mode), ToNewick(n.right, false, mode));
            ToNewick(n, isRoot, mode) == "(" + reps.0 + "," + reps.1 + ")" + Suffix(n, isRoot, mode)
  {
  }

  /** Swapping the two children of a node leaves its encoding unchanged, in either mode. */
  lemma SwapChildren(id: NodeId, l: Node, r: Node, b: BranchLength, isRoot: bool, mode: Mode)
    ensures ToNewick(Internal(id, l, r, b), isRoot, mode) == ToNewick(Internal(id, r, l, b), isRoot, mode)
  {
    SortPairSymmetric(ToNewick(l, false, mode), ToNewick(r, false, mode));
  }

  /**
    t and u are the same tree up to the order of the children of each internal
    node, ignoring node ids, and ignoring branch lengths unless withLengths.
   */
  predicate SameShape(t: Node, u: Node, withLengths: bool)
  {
    match (t, u)
    case (Leaf(_, a, bt), Leaf(_, b, bu)) => a == b && (withLengths ==> bt == bu)
    case (Internal(_, tl, tr, bt), Internal(_, ul, ur, bu)) =>
      (withLengths ==> bt == bu) &&
      ((SameShape(tl, ul, withLengths) && SameShape(tr, ur, withLengths)) ||
       (SameShape(tl, ur, withLengths) && SameShape(tr, ul, withLengths)))
    case _ => false
  }

  /**
    The encoding does not depend on the order children were attached in: trees
    of the same shape have the same topology-only encoding, and trees that also
    agree on every branch length have the same full encoding.
   */
  lemma {:induction false} SameShapeSameEncoding(t: Node, u: Node, isRoot: bool, mode: Mode)
    requires SameShape(t, u, mode.Full?)
    ensures ToNewick(t, isRoot, mode) == ToNewick(u, isRoot, mode)
  {
    match (t, u)
    case (Leaf(_, _, _), Leaf(_, _, _)) =>
    case (Internal(_, tl, tr, _), Internal(id, ul, ur, b)) =>
      if SameShape(tl, ul, mode.Full?) && SameShape(tr, ur, mode.Full?) {
        SameShapeSameEncoding(tl, ul, false, mode);
        SameShapeSameEncoding(tr, ur, false, mode);
      } else {
        SameShapeSameEncoding(tl, ur, false, mode);
        SameShapeSameEncoding(tr, ul, false, mode);
        SwapChildren(id, ul, ur, b, isRoot, mode);
      }
  }

  /** Characters Newick text reserves for its own structure. */
  predicate NewickReserved(c: char)
  {
    c == '(' || c == ')' || c == ',' || c == ':' || c == ';'
  }

  /** A usable taxon: non-empty (so the node is a leaf) and free of reserved characters. */
  predicate ValidTaxon(s: string)
  {
    |s| > 0 && forall i :: 0 <= i < |s| ==> !NewickReserved(s[i])
  }

  predicate ValidTaxa(n: Node)
  {
    match n
    case Leaf(_, taxon, _) => ValidTaxon(taxon)
    case Internal(_, l, r, _) => ValidTaxa(l) && ValidTaxa(r)
  }

  /** What may follow a subtree's encoding inside its parent's: "," or ")" or nothing. */
  predicate Follower(s: string)
  {
    |s| == 0 || s[0] == ',' || s[0] == ')'
  }

  /** The k-th character of a + s. */
  lemma CharOfConcat(a: string, s: string, k: int)
    ensures 0 <= k < |a| ==> (a + s)[k] == a[k]
    ensures |a| <= k < |a| + |s| ==> (a + s)[k] == s[k - |a|]
  {
  }

  /** Two taxa followed by text that starts with a separator can only line up if they are equal. */
  lemma TaxaAlign(a: string, b: string, s1: string, s2: string)
    requires ValidTaxon(a) && ValidTaxon(b) && Follower(s1) && Follower(s2)
    requires a + s1 == b + s2
    ensures a == b && s1 == s2
  {
    if |a| < |b| {
      CharOfConcat(a, s1, |a|);
      CharOfConcat(b, s2, |a|);
      assert false;
    } else if |b| < |a| {
      CharOfConcat(a, s1, |b|);
      CharOfConcat(b, s2, |b|);
      assert false;
    }
    assert a == (a + s1)[..|a|] && b == (b + s2)[..|b|];
  }

  /** The children of an internal node in the order toNewick writes them. */
  function SortedChildren(n: Node): (r: (Node, Node))
    requires n.Internal?
    ensures r == (n.left, n.right) || r == (n.right, n.left)
  {
    if LexLe(ToNewick(n.left, false, TopologyOnly), ToNewick(n.right, false, TopologyOnly))
    then (n.left, n.right) else (n.right, n.left)
  }

  lemma InternalKeyParts(n: Node)
    requires n.Internal?
    ensures var c := SortedChildren(n);
            ToNewick(n, false, TopologyOnly)
            == "(" + ToNewick(c.0, false, TopologyOnly) + "," + ToNewick(c.1, false, TopologyOnly) + ")"
  {
  }

  /** Taking apart "(" + a + "," + b + ")" followed by more text, one piece at a time. */
  lemma Unwrap(a: string, b: string, s: string)
    ensures ("(" + a + "," + b + ")" + s)[0] == '('
    ensures ("(" + a + "," + b + ")" + s)[1..] == a + ("," + b + ")" + s)
    ensures ("," + b + ")" + s)[1..] == b + (")" + s)
    ensures (")" + s)[1..] == s
  {
  }

  /** The first character of a subtree's key: "(" for an internal node, the taxon's first for a leaf. */
  lemma KeyStart(n: Node, s: string)
    requires ValidTaxa(n)
    ensures |ToNewick(n, false, TopologyOnly)| > 0
    ensures (ToNewick(n, false, TopologyOnly) + s)[0] == if n.Leaf? then n.taxon[0] else '('
  {
  }

  /**
    Topology-only encodings are prefix-free in the right sense: if the encodings
    of t and u, each followed by text that starts with a separator, are the
    same string, then the encodings are equal and t and u have the same shape.
   */
  lemma {:induction false} EncodingPrefixUnique(t: Node, u: Node, s1: string, s2: string)
    requires ValidTaxa(t) && ValidTaxa(u) && Follower(s1) && Follower(s2)
    requires ToNewick(t, false, TopologyOnly) + s1 == ToNewick(u, false, TopologyOnly) + s2
    ensures ToNewick(t, false, TopologyOnly) == ToNewick(u, false, TopologyOnly) && s1 == s2
    ensures SameShape(t, u, false)
    decreases t, 1
  {
    if t.Leaf? && u.Leaf? {
      TaxaAlign(t.taxon, u.taxon, s1, s2);
    } else if t.Internal? && u.Internal? {
      InternalPrefixUnique(t, u, s1, s2);
    } else {
      KeyStart(t, s1);
      KeyStart(u, s2);
      assert false;
    }
  }

  /** EncodingPrefixUnique for two internal nodes: their sorted children line up one by one. */
  lemma {:induction false} InternalPrefixUnique(t: Node, u: Node, s1: string, s2: string)
    requires t.Internal? && u.Internal?
    requires ValidTaxa(t) && ValidTaxa(u) && Follower(s1) && Follower(s2)
    requires ToNewick(t, false, TopologyOnly) + s1 == ToNewick(u, false, TopologyOnly) + s2
    ensures ToNewick(t, false, TopologyOnly) == ToNewick(u, false, TopologyOnly) && s1 == s2
    ensures SameShape(t, u, false)
    decreases t, 0
  {
    var tc, uc := SortedChildren(t), SortedChildren(u);
    var a, b := ToNewick(tc.0, false, TopologyOnly), ToNewick(tc.1, false, TopologyOnly);
    var c, d := ToNewick(uc.0, false, TopologyOnly), ToNewick(uc.1, false, TopologyOnly);
    InternalKeyParts(t);
    InternalKeyParts(u);
    Unwrap(a, b, s1);
    Unwrap(c, d, s2);
    EncodingPrefixUnique(tc.0, uc.0, "," + b + ")" + s1, "," + d + ")" + s2);
    EncodingPrefixUnique(tc.1, uc.1, ")" + s1, ")" + s2);
  }

  /**
    The topology-only encoding identifies the topology: two trees whose taxa
    are valid get the same key only if they have the same shape.
   */
  lemma EqualKeysSameShape(t: Node, u: Node)
    requires ValidTaxa(t) && ValidTaxa(u)
    requires TopologyKey(t) == TopologyKey(u)
    ensures SameShape(t, u, false)
  {
    assert ToNewick(t, false, TopologyOnly) + [] == ToNewick(u, false, TopologyOnly) + [];
    EncodingPrefixUnique(t, u, [], []);
  }

  /** Trees of the same shape have the same taxa. */
  lemma {:induction false} SameShapeSameTaxa(t: Node, u: Node, withLengths: bool)
    requires SameShape(t, u, withLengths)
    ensures multiset(LeafTaxa(t)) == multiset(LeafTaxa(u))
  {
    match (t, u)
    case (Leaf(_, _, _), Leaf(_, _, _)) =>
    case (Internal(_, tl, tr, _), Internal(_, ul, ur, _)) =>
      CladeUnion(t);
      CladeUnion(u);
      if SameShape(tl, ul, withLengths) && SameShape(tr, ur, withLengths) {
        SameShapeSameTaxa(tl, ul, withLengths);
        SameShapeSameTaxa(tr, ur, withLengths);
      } else {
        SameShapeSameTaxa(tl, ur, withLengths);
        SameShapeSameTaxa(tr, ul, withLengths);
      }
  }

  /** Trees over different taxa never share a topology key. */
  lemma DifferentTaxaDifferentKeys(t: Node, u: Node)
    requires ValidTaxa(t) && ValidTaxa(u)
    requires multiset(LeafTaxa(t)) != multiset(LeafTaxa(u))
    ensures TopologyKey(t) != TopologyKey(u)
  {
    if TopologyKey(t) == TopologyKey(u) {
      EqualKeysSameShape(t, u);
      SameShapeSameTaxa(t, u, false);
    }
  }

  /**
    The three-taxon tree ((B,C),A): "(" sorts before any letter, so the
    cherry (B,C) is written before A.
   */
  lemma ThreeTaxonKey()
    ensures TopologyKey(Internal(0, Leaf(1, "A", 0.3), Internal(2, Leaf(3, "B", 0.1), Leaf(4, "C", 0.2), 0.4), 0.0))
            == "((B,C),A)"
  {
    var bc := Internal(2, Leaf(3, "B", 0.1), Leaf(4, "C", 0.2), 0.4);
    assert LexLe("B", "C");
    assert ToNewick(bc, false, TopologyOnly) == "(B,C)";
    assert LexLe("(B,C)", "A");
  }
}
