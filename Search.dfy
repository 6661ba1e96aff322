/**
  The search of the summary-tree script (scripts/summary_tree.py): each
  candidate topology in turn is handed, with the posterior trees it is to be
  scored against, to the distance minimiser, and the tree with the lowest
  normalised score is kept. With a time limit the search stops after the
  first candidate that ends past the limit.

  The distance minimiser is the parameter oracle, which returns a tree and
  its raw score. The clock is the parameter elapsed: elapsed(t) is the time
  since the search started, read after the t-th scored candidate.
 */
module Search {
  import opened Wrappers
  import opened TreeUtils
  import opened Topologies
  import opened Candidates

  /** A score: a finite normalised distance, or the starting infinity. */
  datatype Score = Finite(value: real) | Infinity

  predicate Below(a: Score, b: Score)
  {
    a.Finite? && (b.Infinity? || a.value < b.value)
  }

  /** One scored candidate: the tree the minimiser returned and its normalised score. */
  datatype Trial = Trial(tree: Node, score: real)

  /** The best so far: a tree (none before any candidate is scored) and its score. */
  datatype Best = Best(tree: Option<Node>, score: Score)

  type Oracle = (Node, seq<Node>) -> (Node, real)

  /**
    The posterior trees a candidate is scored against: all of them, or in
    matching mode the group of the candidate's own topology, and none (the
    candidate is skipped) when no posterior tree has that topology.
   */
  function PostTrees(c: Node, trees: seq<Node>, topology: map<string, seq<Node>>, matching: bool): (r: Option<seq<Node>>)
    ensures !matching ==> r == Some(trees)
    ensures matching ==> (r.Some? <==> TopologyKey(c) in topology)
    ensures matching && r.Some? ==> r.value == topology[TopologyKey(c)]
  {
    if !matching then Some(trees)
    else if TopologyKey(c) in topology then Some(topology[TopologyKey(c)])
    else None
  }

  /**
    With topology the grouping of the trees, a candidate in matching mode is
    scored against exactly the posterior trees of its own topology, and is
    skipped exactly when there are none.
   */
  lemma PostTreesExactly(c: Node, trees: seq<Node>, topology: map<string, seq<Node>>)
    requires GroupingOf(topology, trees)
    ensures PostTrees(c, trees, topology, true).None? <==> forall t :: t in trees ==> TopologyKey(t) != TopologyKey(c)
    ensures PostTrees(c, trees, topology, true).Some? ==>
              forall t :: t in PostTrees(c, trees, topology, true).value <==> t in trees && TopologyKey(t) == TopologyKey(c)
  {
    if TopologyKey(c) in topology {
      forall t
        ensures t in topology[TopologyKey(c)] <==> t in trees && TopologyKey(t) == TopologyKey(c)
      {
        MembersExactly(trees, TopologyKey(c), t);
      }
    }
  }

  /** Every candidate that is scored is scored against at least one tree. */
  predicate Scorable(trees: seq<Node>, topology: map<string, seq<Node>>, matching: bool)
  {
    if matching then forall k :: k in topology ==> |topology[k]| > 0 else |trees| > 0
  }

  /** The raw score divided by the number of trees it was measured against. */
  function Normalised(raw: real, n: nat): real
    requires n > 0
  {
    raw / n as real
  }

  /** The trial of candidate c: none when it is skipped, else the minimiser's tree and its normalised score. */
  function TrialOf(c: Node, trees: seq<Node>, topology: map<string, seq<Node>>, matching: bool, oracle: Oracle)
    : (r: seq<Trial>)
    requires Scorable(trees, topology, matching)
    ensures |r| <= 1
    ensures |r| == 1 <==> PostTrees(c, trees, topology, matching).Some?
  {
    match PostTrees(c, trees, topology, matching)
    case None => []
    case Some(post) =>
      var (tr, raw) := oracle(c, post);
      [Trial(tr, Normalised(raw, |post|))]
  }

  /** The trials of the candidates, in order: one per candidate that is not skipped. */
  function Trials(cands: seq<Node>, trees: seq<Node>, topology: map<string, seq<Node>>, matching: bool, oracle: Oracle)
    : (r: seq<Trial>)
    requires Scorable(trees, topology, matching)
    ensures |r| <= |cands|
  {
    if cands == [] then []
    else
      Trials(cands[..|cands| - 1], trees, topology, matching, oracle)
      + TrialOf(cands[|cands| - 1], trees, topology, matching, oracle)
  }

  lemma TrialsStep(cands: seq<Node>, i: nat, trees: seq<Node>, topology: map<string, seq<Node>>, matching: bool, oracle: Oracle)
    requires Scorable(trees, topology, matching) && i < |cands|
    ensures Trials(cands[..i + 1], trees, topology, matching, oracle)
            == Trials(cands[..i], trees, topology, matching, oracle) + TrialOf(cands[i], trees, topology, matching, oracle)
  {
    assert cands[..i + 1][..i] == cands[..i];
  }

  /**
    Only skipped candidates go without a trial: outside matching mode, and in
    matching mode when every candidate's topology has a group, there is one
    trial per candidate.
   */
  lemma {:induction false} TrialsCount(cands: seq<Node>, trees: seq<Node>, topology: map<string, seq<Node>>, matching: bool, oracle: Oracle)
    requires Scorable(trees, topology, matching)
    requires matching ==> forall i :: 0 <= i < |cands| ==> TopologyKey(cands[i]) in topology
    ensures |Trials(cands, trees, topology, matching, oracle)| == |cands|
  {
    if cands != [] {
      var init := cands[..|cands| - 1];
      assert forall i :: 0 <= i < |init| ==> init[i] == cands[i];
      TrialsCount(init, trees, topology, matching, oracle);
    }
  }

  /** A skipped candidate adds no trial. */
  lemma SkippedStep(cands: seq<Node>, i: nat, trees: seq<Node>, topology: map<string, seq<Node>>, matching: bool, oracle: Oracle)
    requires Scorable(trees, topology, matching) && i < |cands|
    requires PostTrees(cands[i], trees, topology, matching) == None
    ensures Trials(cands[..i + 1], trees, topology, matching, oracle) == Trials(cands[..i], trees, topology, matching, oracle)
  {
    TrialsStep(cands, i, trees, topology, matching, oracle);
  }

  /** A scored candidate adds its trial: the tree the minimiser returns, with the raw score divided by the number of trees. */
  lemma ScoredStep(cands: seq<Node>, i: nat, trees: seq<Node>, topology: map<string, seq<Node>>, matching: bool,
                   oracle: Oracle, post: seq<Node>)
    requires Scorable(trees, topology, matching) && i < |cands|
    requires PostTrees(cands[i], trees, topology, matching) == Some(post)
    ensures |post| > 0
    ensures Trials(cands[..i + 1], trees, topology, matching, oracle)
            == Trials(cands[..i], trees, topology, matching, oracle)
               + [Trial(oracle(cands[i], post).0, Normalised(oracle(cands[i], post).1, |post|))]
  {
    TrialsStep(cands, i, trees, topology, matching, oracle);
  }

  /** The trials of a prefix of the candidates are a prefix of the trials. */
  lemma {:induction false} TrialsPrefix(cands: seq<Node>, i: nat, trees: seq<Node>, topology: map<string, seq<Node>>, matching: bool, oracle: Oracle)
    requires Scorable(trees, topology, matching) && i <= |cands|
    ensures var all := Trials(cands, trees, topology, matching, oracle);
            var part := Trials(cands[..i], trees, topology, matching, oracle);
            |part| <= |all| && part == all[..|part|]
  {
    if i < |cands| {
      var init := cands[..|cands| - 1];
      TrialsPrefix(init, i, trees, topology, matching, oracle);
      assert init[..i] == cands[..i];
    } else {
      assert cands[..i] == cands;
    }
  }

  /** The best of a sequence of trials, taken in order: a trial replaces the best only with a strictly lower score. */
  function BestOf(ts: seq<Trial>): Best
  {
    if ts == [] then Best(None, Infinity)
    else
      var b := BestOf(ts[..|ts| - 1]);
      var t := ts[|ts| - 1];
      if Below(Finite(t.score), b.score) then Best(Some(t.tree), Finite(t.score)) else b
  }

  lemma BestStep(ts: seq<Trial>, t: Trial)
    ensures BestOf(ts + [t])
            == if Below(Finite(t.score), BestOf(ts).score) then Best(Some(t.tree), Finite(t.score)) else BestOf(ts)
  {
    assert (ts + [t])[..|ts|] == ts;
  }

  /** m is the first position of a lowest score among the trials. */
  predicate EarliestMinimum(ts: seq<Trial>, m: int)
  {
    && 0 <= m < |ts|
    && (forall j :: 0 <= j < |ts| ==> ts[m].score <= ts[j].score)
    && (forall j :: 0 <= j < m ==> ts[j].score > ts[m].score)
  }

  /**
    The best is the earliest trial with the lowest score: its returned tree
    and its score. Before any trial, there is no tree and the score is
    infinite.
   */
  lemma {:induction false} BestIsEarliestMinimum(ts: seq<Trial>)
    ensures ts == [] ==> BestOf(ts) == Best(None, Infinity)
    ensures ts != [] ==> exists m :: EarliestMinimum(ts, m) && BestOf(ts) == Best(Some(ts[m].tree), Finite(ts[m].score))
  {
    if ts != [] {
      var init, t := ts[..|ts| - 1], ts[|ts| - 1];
      BestIsEarliestMinimum(init);
      if init == [] {
        assert EarliestMinimum(ts, 0);
      } else {
        var m :| EarliestMinimum(init, m) && BestOf(init) == Best(Some(init[m].tree), Finite(init[m].score));
        if t.score < init[m].score {
          assert EarliestMinimum(ts, |ts| - 1);
        } else {
          assert EarliestMinimum(ts, m);
        }
      }
    }
  }

  /** The clock's reading after t scored candidates is past a positive limit. */
  predicate TimeUp(limit: int, elapsed: nat -> int, t: nat)
  {
    limit > 0 && elapsed(t) >= limit
  }

  /** The time was not up after any of the first n trials. */
  predicate InTime(limit: int, elapsed: nat -> int, n: nat)
  {
    forall t :: 1 <= t <= n ==> !TimeUp(limit, elapsed, t)
  }

  lemma InTimeStep(limit: int, elapsed: nat -> int, n: nat)
    requires InTime(limit, elapsed, n) && !TimeUp(limit, elapsed, n + 1)
    ensures InTime(limit, elapsed, n + 1)
  {
  }

  /**
    Of n trials, the search makes tried: all of them, or fewer when the time
    was up after the tried-th, and never after an earlier one.
   */
  predicate StopsAt(n: nat, tried: nat, limit: int, elapsed: nat -> int)
  {
    && tried <= n
    && (forall t :: 1 <= t < tried ==> !TimeUp(limit, elapsed, t))
    && (tried == n || (tried >= 1 && TimeUp(limit, elapsed, tried)))
  }

  /**
    The stopping point is determined by the clock: there is exactly one, and
    with no limit (limit <= 0, as an explicit topology forces) it is the end;
    the search scores at least one candidate when there is one to score.
   */
  lemma StopsAtUnique(n: nat, t1: nat, t2: nat, limit: int, elapsed: nat -> int)
    requires StopsAt(n, t1, limit, elapsed) && StopsAt(n, t2, limit, elapsed)
    ensures t1 == t2
    ensures limit <= 0 ==> t1 == n
    ensures n > 0 ==> t1 >= 1
  {
  }

  /**
    Where the loop ends, the trials made so far are the first tried of all
    trials, and tried is where the search stops: the loop ran out of
    candidates, or the time was up after the last trial and not before.
   */
  lemma SearchEnd(cands: seq<Node>, i: nat, done: seq<Trial>, tried: nat, trees: seq<Node>,
                  topology: map<string, seq<Node>>, matching: bool, oracle: Oracle, limit: int, elapsed: nat -> int)
    requires Scorable(trees, topology, matching) && i <= |cands|
    requires done == Trials(cands[..i], trees, topology, matching, oracle) && tried == |done|
    requires (i == |cands| && InTime(limit, elapsed, tried))
             || (tried >= 1 && InTime(limit, elapsed, tried - 1) && TimeUp(limit, elapsed, tried))
    ensures var all := Trials(cands, trees, topology, matching, oracle);
            StopsAt(|all|, tried, limit, elapsed) && done == all[..tried]
  {
    TrialsPrefix(cands, i, trees, topology, matching, oracle);
    if i == |cands| {
      assert cands[..i] == cands;
    }
  }

  /** What the search leaves behind: the best tree and score, and the number of candidates scored. */
  datatype Outcome = Outcome(best: Best, tried: nat)

  /**
    The search loop. In matching mode a candidate whose topology has no group
    is skipped without being counted; otherwise it is scored against its
    posterior trees and counted, and with a positive limit the clock is read.
    Outside matching mode with no posterior trees, the first normalisation
    divides by zero.
   */
  method RunSearch(candidates: seq<Node>, trees: seq<Node>, topology: map<string, seq<Node>>, matching: bool,
                   limit: int, oracle: Oracle, elapsed: nat -> int)
    returns (r: Result<Outcome, PyError>)
    requires forall k :: k in topology ==> |topology[k]| > 0
    ensures r.Failure? <==> !matching && |trees| == 0 && |candidates| > 0
    ensures r.Failure? ==> r.error == ZeroDivisionError
    ensures r.Success? && !matching && |trees| == 0 ==> r.value == Outcome(Best(None, Infinity), 0)
    ensures r.Success? && Scorable(trees, topology, matching) ==>
              var all := Trials(candidates, trees, topology, matching, oracle);
              && StopsAt(|all|, r.value.tried, limit, elapsed)
              && r.value.best == BestOf(all[..r.value.tried])
  {
    if !matching && |trees| == 0 {
      // Every candidate is scored against all the trees, so the first normalisation divides by zero.
      if |candidates| > 0 {
        return Failure(ZeroDivisionError);
      }
      return Success(Outcome(Best(None, Infinity), 0));
    }
    var bestTree: Option<Node> := None;
    var bestScore := Infinity;
    var nTried := 0;
    var postTrees := trees;
    ghost var done: seq<Trial> := [];
    var i := 0;
    while i < |candidates|
      invariant 0 <= i <= |candidates|
      invariant !matching ==> postTrees == trees
      invariant done == Trials(candidates[..i], trees, topology, matching, oracle)
      invariant nTried == |done| && Best(bestTree, bestScore) == BestOf(done)
      invariant InTime(limit, elapsed, nTried)
    {
      var tree := candidates[i];
      if matching {
        var k := TopologyKey(tree);
        if k !in topology {
          SkippedStep(candidates, i, trees, topology, matching, oracle);
          i := i + 1;
          continue;
        }
        postTrees := topology[k];
      }
      ScoredStep(candidates, i, trees, topology, matching, oracle, postTrees);
      var (tr, raw) := oracle(tree, postTrees);
      var score := Normalised(raw, |postTrees|);
      BestStep(done, Trial(tr, score));
      done := done + [Trial(tr, score)];
      if Below(Finite(score), bestScore) {
        bestScore := Finite(score);
        bestTree := Some(tr);
      }
      nTried := nTried + 1;
      i := i + 1;
      if TimeUp(limit, elapsed, nTried) {
        break;
      }
      InTimeStep(limit, elapsed, nTried - 1);
    }
    SearchEnd(candidates, i, done, nTried, trees, topology, matching, oracle, limit, elapsed);
    r := Success(Outcome(Best(bestTree, bestScore), nTried));
  }
}
