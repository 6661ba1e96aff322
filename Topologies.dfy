/**
  The first step of the summary-tree script (scripts/summary_tree.py): the
  posterior trees are grouped by their topology-only Newick key, and the
  groups are sorted by support, the number of trees in each.
 */
module Topologies {
  import opened TreeUtils

  /** One entry of the topology dictionary: a key and the trees that have it. */
  datatype Group = Group(key: string, members: seq<Node>)

  function Support(g: Group): nat
  {
    |g.members|
  }

  /** The keys that occur among trees. */
  function KeysOf(trees: seq<Node>): set<string>
  {
    set t | t in trees :: TopologyKey(t)
  }

  /** The trees whose key is k, in input order. */
  function Members(trees: seq<Node>, k: string): seq<Node>
  {
    if trees == [] then []
    else
      var last := trees[|trees| - 1];
      Members(trees[..|trees| - 1], k) + (if TopologyKey(last) == k then [last] else [])
  }

  /** A tree is in the list of key k exactly when it is one of the trees and its key is k. */
  lemma {:induction false} MembersExactly(trees: seq<Node>, k: string, t: Node)
    ensures t in Members(trees, k) <==> t in trees && TopologyKey(t) == k
  {
    if trees != [] {
      var init := trees[..|trees| - 1];
      assert trees == init + [trees[|trees| - 1]];
      MembersExactly(init, k, t);
    }
  }

  /** Every key that occurs has a non-empty list, whose first tree has that key. */
  lemma MembersOfKey(trees: seq<Node>, k: string)
    requires k in KeysOf(trees)
    ensures |Members(trees, k)| > 0 && TopologyKey(Members(trees, k)[0]) == k
  {
    var t :| t in trees && TopologyKey(t) == k;
    MembersExactly(trees, k, t);
    MembersExactly(trees, k, Members(trees, k)[0]);
  }

  /** topology is the grouping of trees: one list per key that occurs, holding the trees with that key in input order. */
  predicate GroupingOf(topology: map<string, seq<Node>>, trees: seq<Node>)
  {
    && topology.Keys == KeysOf(trees)
    && forall k :: k in topology ==> topology[k] == Members(trees, k)
  }

  lemma KeysStep(init: seq<Node>, t: Node)
    ensures KeysOf(init + [t]) == KeysOf(init) + {TopologyKey(t)}
  {
    assert forall u :: u in init + [t] <==> u in init || u == t;
  }

  lemma MembersStep(init: seq<Node>, t: Node, k: string)
    ensures Members(init + [t], k) == Members(init, k) + (if TopologyKey(t) == k then [t] else [])
  {
    assert (init + [t])[..|init|] == init;
  }

  /** A pass of the grouping loop for a key already seen: t joins the end of its key's list. */
  lemma GroupStepSeen(topology: map<string, seq<Node>>, init: seq<Node>, t: Node)
    requires GroupingOf(topology, init) && TopologyKey(t) in topology
    ensures GroupingOf(topology[TopologyKey(t) := topology[TopologyKey(t)] + [t]], init + [t])
  {
    var m := topology[TopologyKey(t) := topology[TopologyKey(t)] + [t]];
    KeysStep(init, t);
    forall k | k in m
      ensures m[k] == Members(init + [t], k)
    {
      MembersStep(init, t, k);
    }
  }

  /** A pass of the grouping loop for a new key: t starts its key's list. */
  lemma GroupStepNew(topology: map<string, seq<Node>>, init: seq<Node>, t: Node)
    requires GroupingOf(topology, init) && TopologyKey(t) !in topology
    ensures GroupingOf(topology[TopologyKey(t) := [t]], init + [t])
  {
    var k := TopologyKey(t);
    var m := topology[k := [t]];
    KeysStep(init, t);
    assert Members(init, k) == [] by {
      if Members(init, k) != [] {
        MembersExactly(init, k, Members(init, k)[0]);
      }
    }
    forall k' | k' in m
      ensures m[k'] == Members(init + [t], k')
    {
      MembersStep(init, t, k');
    }
  }

  /**
    The grouping loop: each tree is appended to the list of its key, which is
    created on the key's first occurrence.
   */
  method GroupByTopology(trees: seq<Node>) returns (topology: map<string, seq<Node>>)
    ensures GroupingOf(topology, trees)
  {
    topology := map[];
    for i := 0 to |trees|
      invariant GroupingOf(topology, trees[..i])
    {
      var tree := trees[i];
      var k := TopologyKey(tree);
      assert trees[..i] + [tree] == trees[..i + 1];
      if k !in topology {
        GroupStepNew(topology, trees[..i], tree);
        topology := topology[k := [tree]];
      } else {
        GroupStepSeen(topology, trees[..i], tree);
        topology := topology[k := topology[k] + [tree]];
      }
    }
    assert trees[..|trees|] == trees;
  }

  /** The sum of the supports of groups. */
  function TotalSupport(groups: seq<Group>): nat
  {
    if groups == [] then 0 else Support(groups[0]) + TotalSupport(groups[1..])
  }

  /** The sum over the keys ks of the number of trees with each key. */
  function MemberCount(trees: seq<Node>, ks: seq<string>): nat
  {
    if ks == [] then 0 else |Members(trees, ks[0])| + MemberCount(trees, ks[1..])
  }

  predicate Distinct<T(==)>(s: seq<T>)
  {
    forall i, j :: 0 <= i < j < |s| ==> s[i] != s[j]
  }

  /** Adding one tree adds one to the count of its own key and nothing to the others. */
  lemma {:induction false} MemberCountStep(init: seq<Node>, t: Node, ks: seq<string>)
    requires Distinct(ks)
    ensures MemberCount(init + [t], ks) == MemberCount(init, ks) + (if TopologyKey(t) in ks then 1 else 0)
  {
    if ks != [] {
      assert (init + [t])[..|init + [t]| - 1] == init;
      assert Distinct(ks[1..]) by {
        forall i, j | 0 <= i < j < |ks[1..]|
          ensures ks[1..][i] != ks[1..][j]
        {
          assert ks[1..][i] == ks[i + 1] && ks[1..][j] == ks[j + 1];
        }
      }
      MemberCountStep(init, t, ks[1..]);
      forall j | 0 <= j < |ks[1..]|
        ensures ks[1..][j] != ks[0]
      {
        assert ks[1..][j] == ks[j + 1];
      }
      assert ks == [ks[0]] + ks[1..];
    }
  }

  /**
    Grouping loses no tree and counts none twice: over any list of distinct
    keys that includes every key that occurs, the list lengths add up to the
    number of trees.
   */
  lemma {:induction false} MemberCountIsTreeCount(trees: seq<Node>, ks: seq<string>)
    requires Distinct(ks)
    requires forall k :: k in KeysOf(trees) ==> k in ks
    ensures MemberCount(trees, ks) == |trees|
  {
    if trees == [] {
      EmptyMemberCount(ks);
    } else {
      var init, t := trees[..|trees| - 1], trees[|trees| - 1];
      assert trees == init + [t];
      assert TopologyKey(t) in KeysOf(trees);
      forall k | k in KeysOf(init)
        ensures k in ks
      {
        var u :| u in init && TopologyKey(u) == k;
        assert u in trees;
      }
      MemberCountIsTreeCount(init, ks);
      MemberCountStep(init, t, ks);
    }
  }

  lemma {:induction false} EmptyMemberCount(ks: seq<string>)
    ensures MemberCount([], ks) == 0
  {
    if ks != [] {
      EmptyMemberCount(ks[1..]);
    }
  }

  /**
    dict.items(): the groups of the dictionary, one per key, in the order
    keyOrder lists the keys (the dictionary's own iteration order, which the
    program does not control).
   */
  function Items(topology: map<string, seq<Node>>, keyOrder: seq<string>): (r: seq<Group>)
    requires forall k :: k in keyOrder ==> k in topology
    ensures |r| == |keyOrder|
    ensures forall i :: 0 <= i < |r| ==> r[i] == Group(keyOrder[i], topology[keyOrder[i]])
  {
    if keyOrder == [] then []
    else [Group(keyOrder[0], topology[keyOrder[0]])] + Items(topology, keyOrder[1..])
  }

  /** The groups of a grouping, whatever their order, hold every tree once. */
  lemma {:induction false} ItemsCoverTrees(trees: seq<Node>, topology: map<string, seq<Node>>, keyOrder: seq<string>)
    requires GroupingOf(topology, trees)
    requires Distinct(keyOrder) && (forall k :: k in keyOrder <==> k in topology)
    ensures TotalSupport(Items(topology, keyOrder)) == |trees|
  {
    ItemsCount(trees, topology, keyOrder);
    MemberCountIsTreeCount(trees, keyOrder);
  }

  lemma {:induction false} ItemsCount(trees: seq<Node>, topology: map<string, seq<Node>>, keyOrder: seq<string>)
    requires forall k :: k in keyOrder ==> k in topology && topology[k] == Members(trees, k)
    ensures TotalSupport(Items(topology, keyOrder)) == MemberCount(trees, keyOrder)
  {
    if keyOrder != [] {
      ItemsCount(trees, topology, keyOrder[1..]);
      assert Items(topology, keyOrder)[1..] == Items(topology, keyOrder[1..]);
    }
  }

  // ---------------------------------------------------------------------------
  // Sorting by support
  // ---------------------------------------------------------------------------

  predicate SortedBySupport(s: seq<Group>)
  {
    forall i, j :: 0 <= i < j < |s| ==> Support(s[i]) >= Support(s[j])
  }

  lemma SortedCons(x: Group, t: seq<Group>)
    requires SortedBySupport(t) && (t == [] || Support(x) >= Support(t[0]))
    ensures SortedBySupport([x] + t)
  {
    var r := [x] + t;
    forall i, j | 0 <= i < j < |r|
      ensures Support(r[i]) >= Support(r[j])
    {
      if i == 0 {
        assert Support(t[0]) >= Support(t[j - 1]) || j == 1;
      }
    }
  }

  lemma SortedTail(s: seq<Group>)
    requires SortedBySupport(s) && s != []
    ensures SortedBySupport(s[1..]) && s == [s[0]] + s[1..]
    ensures |s| > 1 ==> Support(s[0]) >= Support(s[1])
  {
  }

  /**
    g placed into the sorted s ahead of every group with no more support than
    its own, so that among equal supports the earlier group stays first.
   */
  function InsertBySupport(g: Group, s: seq<Group>): (r: seq<Group>)
    requires SortedBySupport(s)
    ensures SortedBySupport(r)
    ensures |r| == |s| + 1
    ensures r[0] == g || (|s| > 0 && r[0] == s[0])
  {
    if s == [] || Support(g) >= Support(s[0]) then
      SortedCons(g, s);
      [g] + s
    else
      SortedTail(s);
      var rest := InsertBySupport(g, s[1..]);
      SortedCons(s[0], rest);
      [s[0]] + rest
  }

  /**
    sort(reverse=1, key=support): the groups in order of non-increasing
    support, a permutation of the input; the sort is stable, as Python's is.
   */
  function SortBySupport(s: seq<Group>): (r: seq<Group>)
    ensures SortedBySupport(r)
    ensures |r| == |s|
  {
    if s == [] then [] else InsertBySupport(s[0], SortBySupport(s[1..]))
  }

  /** Insertion adds g and nothing else. */
  lemma {:induction false} InsertPermutes(g: Group, s: seq<Group>)
    requires SortedBySupport(s)
    ensures multiset(InsertBySupport(g, s)) == multiset(s) + multiset{g}
  {
    if s != [] && Support(g) < Support(s[0]) {
      SortedTail(s);
      InsertPermutes(g, s[1..]);
    }
  }

  /** Sorting is a permutation of the groups. */
  lemma {:induction false} SortPermutes(s: seq<Group>)
    ensures multiset(SortBySupport(s)) == multiset(s)
  {
    if s != [] {
      var tail := s[1..];
      SortPermutes(tail);
      InsertPermutes(s[0], SortBySupport(tail));
      assert s == [s[0]] + tail;
      assert multiset(s) == multiset(tail) + multiset{s[0]};
    }
  }

  lemma {:induction false} InsertKeepsTotal(g: Group, s: seq<Group>)
    requires SortedBySupport(s)
    ensures TotalSupport(InsertBySupport(g, s)) == Support(g) + TotalSupport(s)
  {
    if s != [] && Support(g) < Support(s[0]) {
      InsertKeepsTotal(g, s[1..]);
      assert InsertBySupport(g, s)[1..] == InsertBySupport(g, s[1..]);
    } else {
      assert ([g] + s)[1..] == s;
    }
  }

  /** Sorting keeps the total support. */
  lemma {:induction false} SortKeepsTotal(s: seq<Group>)
    ensures TotalSupport(SortBySupport(s)) == TotalSupport(s)
  {
    if s != [] {
      SortKeepsTotal(s[1..]);
      InsertKeepsTotal(s[0], SortBySupport(s[1..]));
    }
  }
}
