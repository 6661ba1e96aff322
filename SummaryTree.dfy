/**
  The summary-tree script (scripts/summary_tree.py) from the posterior
  trees on: group them by topology, sort the groups by support, choose the
  candidate topologies, and search them for the tree of lowest score.

  Reading the trees, the command line and all printing are not modelled: the
  trees and the options arrive as parameters, and the printed warning is
  returned as a value. The order in which the dictionary of topologies lists
  its keys is the parameter keyOrder.
 */
module SummaryTree {
  import opened Wrappers
  import opened TreeUtils
  import opened Topologies
  import opened Candidates
  import opened Search

  /** The options that matter here: --ntops, --limit, --topology, --matching and --progress. */
  datatype Options = Options(ntops: int, limit: int, target: Option<Node>, matching: bool, progress: bool)

  /** What a run yields: the sorted groups, the candidates tried in order, the tie warning and the search's outcome. */
  datatype Summary = Summary(groups: seq<Group>, candidates: seq<Node>, warning: Option<TieWarning>, outcome: Outcome)

  /** The dictionary of topologies of trees, as a value. */
  function Grouping(trees: seq<Node>): (r: map<string, seq<Node>>)
    ensures r.Keys == KeysOf(trees)
  {
    map k | k in KeysOf(trees) :: Members(trees, k)
  }

  /** The grouping loop builds exactly this dictionary. */
  lemma GroupingUnique(topology: map<string, seq<Node>>, trees: seq<Node>)
    requires GroupingOf(topology, trees)
    ensures topology == Grouping(trees)
  {
  }

  /** Every group of the dictionary has a tree, and its first tree has the group's key. */
  lemma GroupingMembers(trees: seq<Node>, k: string)
    requires k in Grouping(trees)
    ensures |Grouping(trees)[k]| > 0 && TopologyKey(Grouping(trees)[k][0]) == k
  {
    MembersOfKey(trees, k);
  }

  lemma SortKeepsNonEmpty(s: seq<Group>)
    requires NonEmptyGroups(s)
    ensures NonEmptyGroups(SortBySupport(s))
  {
    SortPermutes(s);
    var r := SortBySupport(s);
    forall i | 0 <= i < |r|
      ensures |r[i].members| > 0
    {
      assert r[i] in multiset(s);
    }
  }

  /**
    The sorted groups: every key once, in order of non-increasing support,
    each with a non-empty list, holding every tree once between them.
   */
  lemma SortedGroups(trees: seq<Node>, keyOrder: seq<string>)
    requires Distinct(keyOrder) && (forall k :: k in keyOrder <==> k in KeysOf(trees))
    ensures var groups := SortBySupport(Items(Grouping(trees), keyOrder));
            && SortedBySupport(groups)
            && NonEmptyGroups(groups)
            && |groups| == |keyOrder|
            && TotalSupport(groups) == |trees|
  {
    var items := Items(Grouping(trees), keyOrder);
    forall i | 0 <= i < |items|
      ensures |items[i].members| > 0
    {
      GroupingMembers(trees, keyOrder[i]);
    }
    SortKeepsNonEmpty(items);
    ItemsCoverTrees(trees, Grouping(trees), keyOrder);
    SortKeepsTotal(items);
  }

  /**
    One run of the script on the posterior trees. The groups are the
    grouping's items sorted by support. An explicit target topology is the
    one candidate and switches the time limit off; otherwise, with no time
    limit the candidates are the representatives of allt[:ntops] after the
    clamp, and with one they are every representative, runs of equal support
    shuffled. The search's outcome is that of the candidates in that order.
    The run fails with an IndexError when the tie scan's first lookup is out
    of range (always so when there are no trees), unless the progress line
    before it has already divided by the number of trees, zero, and with a
    ZeroDivisionError when a target is scored against no trees.
   */
  method SummaryTree(trees: seq<Node>, opts: Options, keyOrder: seq<string>, oracle: Oracle, elapsed: nat -> int)
    returns (r: Result<Summary, PyError>)
    requires Distinct(keyOrder) && (forall k :: k in keyOrder <==> k in KeysOf(trees))
    ensures r.Failure? <==>
              || (opts.target.None? && opts.limit <= 0 && !PyIndexOk(|keyOrder|, ClampTops(opts.ntops, |keyOrder|) - 1))
              || (opts.target.Some? && !opts.matching && |trees| == 0)
    ensures r.Failure? && opts.target.None? ==>
              r.error == if opts.progress && |trees| == 0 then ZeroDivisionError else IndexError
    ensures r.Failure? && opts.target.Some? ==> r.error == ZeroDivisionError
    ensures r.Success? ==> r.value.groups == SortBySupport(Items(Grouping(trees), keyOrder))
    ensures r.Success? && opts.target.Some? ==> r.value.candidates == [opts.target.value] && r.value.warning == None
    ensures r.Success? && opts.target.None? && opts.limit <= 0 ==>
              NonEmptyGroups(r.value.groups)
              && r.value.candidates == FirstMembers(PyPrefix(r.value.groups, ClampTops(opts.ntops, |keyOrder|)))
    ensures r.Success? && opts.target.None? && opts.limit <= 0 ==>
              var ntops := ClampTops(opts.ntops, |keyOrder|);
              && |trees| > 0
              && PyIndexOk(|r.value.groups|, ntops - 1)
              && TieReported(r.value.groups, ntops, |trees|, r.value.warning)
    ensures r.Success? && opts.target.None? && opts.limit > 0 ==>
              && NonEmptyGroups(r.value.groups)
              && |r.value.candidates| == |r.value.groups|
              && multiset(r.value.candidates) == multiset(FirstMembers(r.value.groups))
              && RunsPermuted(r.value.groups, r.value.candidates, FirstMembers(r.value.groups), |r.value.groups|)
              && r.value.warning == None
    ensures r.Success? && !opts.matching && |trees| == 0 ==> r.value.outcome == Outcome(Best(None, Infinity), 0)
    ensures r.Success? && Scorable(trees, Grouping(trees), opts.matching) ==>
              var all := Trials(r.value.candidates, trees, Grouping(trees), opts.matching, oracle);
              var limit := if opts.target.Some? then -1 else opts.limit;
              && StopsAt(|all|, r.value.outcome.tried, limit, elapsed)
              && r.value.outcome.best == BestOf(all[..r.value.outcome.tried])
  {
    var topology := GroupByTopology(trees);
    GroupingUnique(topology, trees);
    SortedGroups(trees, keyOrder);
    var allt := SortBySupport(Items(topology, keyOrder));
    var ntops := ClampTops(opts.ntops, |allt|);
    var limit := opts.limit;
    var candidates: seq<Node>;
    var warning: Option<TieWarning> := None;
    if opts.target.Some? {
      candidates := [opts.target.value];
      limit := -1;
    } else if limit <= 0 {
      if opts.progress && |trees| == 0 {
        // The progress line divides the trees covered by the number of trees.
        return Failure(ZeroDivisionError);
      }
      var top := TopCandidates(allt, ntops, |trees|);
      if top.Failure? {
        return Failure(top.error);
      }
      candidates, warning := top.value.0, top.value.1;
    } else {
      candidates := TimedOrder(allt);
    }
    forall k | k in topology
      ensures |topology[k]| > 0
    {
      GroupingMembers(trees, k);
    }
    var outcome := RunSearch(candidates, trees, topology, opts.matching, limit, oracle, elapsed);
    if outcome.Failure? {
      return Failure(outcome.error);
    }
    r := Success(Summary(allt, candidates, warning, outcome.value));
  }
}
