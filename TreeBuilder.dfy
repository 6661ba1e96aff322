/**
  TreeBuilder (trunk/biopy/treeutils.py): builds a tree bottom-up in a node
  table. Leaves are created first, nodes are merged pairwise under fresh
  parents, and the last parent is folded into the table's root.

  The table maps node ids to records holding the node's data (taxon and branch
  length), its parent (`prev`) and its children (`succ`). A fresh table holds
  only its root, id 0; every node added later gets the next unused id.
 */
module Builder {
  import opened Wrappers
  import opened TreeUtils

  datatype NodeRec = NodeRec(taxon: string, branch: BranchLength, prev: Option<NodeId>, succ: seq<NodeId>)

  /** A finished tree: the node table and the id of its root. */
  datatype NodeTable = NodeTable(nodes: map<NodeId, NodeRec>, root: NodeId)

  /** A node with default data: no taxon (the empty string), branch length 0.0, no links. */
  function BlankRec(taxon: string): (r: NodeRec)
    ensures r.taxon == taxon && r.branch == 0.0 && r.prev == None && r.succ == []
  {
    NodeRec(taxon, 0.0, None, [])
  }

  /** Node id's parent link, if it has one, leads to a node of the table that lists id as a child (the root aside). */
  predicate ParentOk(nodes: map<NodeId, NodeRec>, root: NodeId, id: NodeId)
    requires id in nodes
  {
    nodes[id].prev.Some? ==>
      var p := nodes[id].prev.value;
      p in nodes && (p != root ==> id in nodes[p].succ)
  }

  /**
    The table's invariant: the root is present and has no parent, every id
    is below the next free id, no node is its own child, the root is nobody's
    child, and no parent link dangles.
   */
  predicate TableValid(nodes: map<NodeId, NodeRec>, root: NodeId, nextId: NodeId)
  {
    && root in nodes
    && nodes[root].prev == None
    && (forall id :: id in nodes ==> 0 <= id < nextId)
    && (forall id :: id in nodes ==> id !in nodes[id].succ && root !in nodes[id].succ)
    && (forall id :: id in nodes ==> ParentOk(nodes, root, id))
  }

  /** The table of a fresh builder: the root alone, with default data, as id 0. */
  function EmptyTable(): (r: map<NodeId, NodeRec>)
    ensures r.Keys == {0} && r[0].prev == None && r[0].succ == []
  {
    map[0 := BlankRec("")]
  }

  lemma EmptyTableValid()
    ensures TableValid(EmptyTable(), 0, 1)
  {
  }

  /** Adding a node with no links under the next free id keeps the table valid. */
  lemma AddNodeValid(nodes: map<NodeId, NodeRec>, root: NodeId, nextId: NodeId, rec: NodeRec)
    requires TableValid(nodes, root, nextId)
    requires rec.prev == None && rec.succ == []
    ensures nextId !in nodes
    ensures TableValid(nodes[nextId := rec], root, nextId + 1)
  {
    var t := nodes[nextId := rec];
    forall x | x in t
      ensures ParentOk(t, root, x)
    {
      if x != nextId {
        assert ParentOk(nodes, root, x);
      }
    }
  }

  /**
    The table after mergeNodes(n1, h1, n2, h2) with fresh parent id, updated
    in the source's order: the parent is added, n1 then n2 point to it with
    their branch lengths, and the parent's children become [n1, n2].
   */
  function Merged(nodes: map<NodeId, NodeRec>, id: NodeId, n1: NodeId, h1: BranchLength, n2: NodeId, h2: BranchLength)
    : (r: map<NodeId, NodeRec>)
    requires n1 in nodes && n2 in nodes
    ensures r.Keys == nodes.Keys + {id}
  {
    var m1 := nodes[id := BlankRec("")];
    var m2 := m1[n1 := m1[n1].(prev := Some(id), branch := h1)];
    var m3 := m2[n2 := m2[n2].(prev := Some(id), branch := h2)];
    m3[id := m3[id].(succ := m3[id].succ + [n1, n2])]
  }

  /**
    What a merge does to the records, for a fresh parent id: the parent has
    children [n1, n2] and no data; n1 and n2 point to it and carry h1 and h2
    (h2 alone when n1 and n2 are the same node, as the second update wins);
    every other node is unchanged.
   */
  lemma MergedRecords(nodes: map<NodeId, NodeRec>, id: NodeId, n1: NodeId, h1: BranchLength, n2: NodeId, h2: BranchLength)
    requires n1 in nodes && n2 in nodes && id !in nodes
    ensures var r := Merged(nodes, id, n1, h1, n2, h2);
            && r[id] == NodeRec("", 0.0, None, [n1, n2])
            && r[n1] == nodes[n1].(prev := Some(id), branch := if n1 == n2 then h2 else h1)
            && r[n2] == nodes[n2].(prev := Some(id), branch := h2)
            && (forall x :: x in nodes && x != n1 && x != n2 ==> r[x] == nodes[x])
  {
  }

  /** A merge under the next free id, of two nodes other than the root, keeps the table valid. */
  lemma MergeValid(nodes: map<NodeId, NodeRec>, root: NodeId, nextId: NodeId,
                   n1: NodeId, h1: BranchLength, n2: NodeId, h2: BranchLength)
    requires TableValid(nodes, root, nextId)
    requires n1 in nodes && n2 in nodes && n1 != root && n2 != root
    ensures TableValid(Merged(nodes, nextId, n1, h1, n2, h2), root, nextId + 1)
  {
    var t := Merged(nodes, nextId, n1, h1, n2, h2);
    MergedRecords(nodes, nextId, n1, h1, n2, h2);
    forall x | x in t
      ensures ParentOk(t, root, x)
    {
      if x != nextId && x != n1 && x != n2 {
        assert ParentOk(nodes, root, x);
      }
    }
  }

  /**
    The table after finalize(n): n is gone, the root's children are n's
    children, each of those points to the root, and every other node is
    unchanged.
   */
  function AfterFinalize(nodes: map<NodeId, NodeRec>, root: NodeId, n: NodeId): (r: map<NodeId, NodeRec>)
    requires root in nodes && n in nodes
    ensures r.Keys == nodes.Keys - {n}
  {
    map x | x in nodes && x != n ::
      if x == root then nodes[root].(succ := nodes[n].succ)
      else if x in nodes[n].succ then nodes[x].(prev := Some(root))
      else nodes[x]
  }

  /**
    Finalizing a node other than the root keeps the table valid; the root
    then has n's children, and each of them has the root as its parent.
   */
  lemma FinalizeValid(nodes: map<NodeId, NodeRec>, root: NodeId, nextId: NodeId, n: NodeId)
    requires TableValid(nodes, root, nextId)
    requires n in nodes && n != root
    requires forall c :: c in nodes[n].succ ==> c in nodes
    ensures var r := AfterFinalize(nodes, root, n);
            && TableValid(r, root, nextId)
            && r[root].succ == nodes[n].succ
            && (forall c :: c in nodes[n].succ ==> c in r && r[c].prev == Some(root))
  {
    var t := AfterFinalize(nodes, root, n);
    forall x | x in t
      ensures ParentOk(t, root, x)
    {
      assert ParentOk(nodes, root, x);
    }
  }

  /**
    The table part-way through finalize(n), whose children are kids: the
    root already has kids as its children, and the first i of them already
    point to the root.
   */
  function Relinked(nodes: map<NodeId, NodeRec>, root: NodeId, kids: seq<NodeId>, i: nat): (r: map<NodeId, NodeRec>)
    requires root in nodes && i <= |kids|
    ensures r.Keys == nodes.Keys
  {
    map x | x in nodes ::
      if x == root then nodes[root].(succ := kids)
      else if x in kids[..i] then nodes[x].(prev := Some(root))
      else nodes[x]
  }

  lemma RelinkStart(nodes: map<NodeId, NodeRec>, root: NodeId, kids: seq<NodeId>)
    requires root in nodes
    ensures nodes[root := nodes[root].(succ := kids)] == Relinked(nodes, root, kids, 0)
  {
  }

  lemma RelinkStep(nodes: map<NodeId, NodeRec>, root: NodeId, kids: seq<NodeId>, i: nat)
    requires root in nodes && i < |kids| && kids[i] in nodes && kids[i] != root
    ensures var m := Relinked(nodes, root, kids, i);
            m[kids[i] := m[kids[i]].(prev := Some(root))] == Relinked(nodes, root, kids, i + 1)
  {
    assert kids[..i + 1] == kids[..i] + [kids[i]];
  }

  lemma RelinkEnd(nodes: map<NodeId, NodeRec>, root: NodeId, n: NodeId)
    requires root in nodes && n in nodes && n != root
    ensures Relinked(nodes, root, nodes[n].succ, |nodes[n].succ|) - {n} == AfterFinalize(nodes, root, n)
  {
    var kids := nodes[n].succ;
    assert kids[..|kids|] == kids;
  }

  class TreeBuilder {
    var nodes: map<NodeId, NodeRec>
    var root: NodeId
    var nextId: NodeId

    ghost predicate Valid()
      reads this
    {
      TableValid(nodes, root, nextId)
    }

    constructor ()
      ensures Valid()
      ensures nodes == EmptyTable() && root == 0
    {
      nodes := EmptyTable();
      root := 0;
      nextId := 1;
      EmptyTableValid();
    }

    /** createLeaf(name): a fresh node with the given taxon and no links. */
    method CreateLeaf(name: string) returns (id: NodeId)
      requires Valid()
      modifies this
      ensures Valid() && root == old(root)
      ensures id !in old(nodes)
      ensures nodes == old(nodes)[id := BlankRec(name)]
    {
      AddNodeValid(nodes, root, nextId, BlankRec(name));
      id := nextId;
      nodes := nodes[id := BlankRec(name)];
      nextId := nextId + 1;
    }

    /** newNode(): a fresh node with default data and no links. */
    method NewNode() returns (id: NodeId)
      requires Valid()
      modifies this
      ensures Valid() && root == old(root)
      ensures id !in old(nodes)
      ensures nodes == old(nodes)[id := BlankRec("")]
    {
      AddNodeValid(nodes, root, nextId, BlankRec(""));
      id := nextId;
      nodes := nodes[id := BlankRec("")];
      nextId := nextId + 1;
    }

    /** mergeNodes(n1, h1, n2, h2): a fresh parent whose children are n1 and n2 (see Merged). */
    method MergeNodes(n1: NodeId, h1: BranchLength, n2: NodeId, h2: BranchLength) returns (id: NodeId)
      requires Valid()
      requires n1 in nodes && n2 in nodes && n1 != root && n2 != root
      modifies this
      ensures Valid() && root == old(root)
      ensures id !in old(nodes)
      ensures nodes == Merged(old(nodes), id, n1, h1, n2, h2)
    {
      MergeValid(nodes, root, nextId, n1, h1, n2, h2);
      id := nextId;
      nextId := nextId + 1;
      nodes := nodes[id := BlankRec("")];
      nodes := nodes[n1 := nodes[n1].(prev := Some(id), branch := h1)];
      nodes := nodes[n2 := nodes[n2].(prev := Some(id), branch := h2)];
      nodes := nodes[id := nodes[id].(succ := nodes[id].succ + [n1, n2])];
    }

    /** finalize(n): the root takes over n's children and n leaves the table (see AfterFinalize). */
    method Finalize(n: NodeId) returns (tree: NodeTable)
      requires Valid()
      requires n in nodes && n != root
      requires forall c :: c in nodes[n].succ ==> c in nodes
      modifies this
      ensures Valid() && root == old(root)
      ensures nodes == AfterFinalize(old(nodes), root, n)
      ensures tree == NodeTable(nodes, root)
    {
      FinalizeValid(nodes, root, nextId, n);
      ghost var before := nodes;
      var kids := nodes[n].succ;
      RelinkStart(nodes, root, kids);
      nodes := nodes[root := nodes[root].(succ := kids)];
      var i := 0;
      while i < |kids|
        invariant 0 <= i <= |kids|
        invariant root == old(root) && nextId == old(nextId)
        invariant nodes == Relinked(before, root, kids, i)
      {
        var c := kids[i];
        RelinkStep(before, root, kids, i);
        nodes := nodes[c := nodes[c].(prev := Some(root))];
        i := i + 1;
      }
      RelinkEnd(before, root, n);
      nodes := nodes - {n};
      tree := NodeTable(nodes, root);
    }
  }

  /**
    The use the builder is written for: two leaves merged under one parent,
    which is then folded into the root. The root ends up with the two leaves
    as children, in order, each pointing back to it with its branch length.
   */
  method BuildCherry(a: string, ha: BranchLength, b: string, hb: BranchLength) returns (t: NodeTable)
    ensures t.root in t.nodes && |t.nodes[t.root].succ| == 2
    ensures var kids := t.nodes[t.root].succ;
            kids[0] in t.nodes && kids[1] in t.nodes && kids[0] != kids[1]
            && t.nodes[kids[0]] == NodeRec(a, ha, Some(t.root), [])
            && t.nodes[kids[1]] == NodeRec(b, hb, Some(t.root), [])
    ensures |t.nodes| == 3
  {
    var tb := new TreeBuilder();
    var la := tb.CreateLeaf(a);
    var lb := tb.CreateLeaf(b);
    var m := tb.MergeNodes(la, ha, lb, hb);
    t := tb.Finalize(m);
    assert t.nodes.Keys == {0, la, lb};
  }
}
