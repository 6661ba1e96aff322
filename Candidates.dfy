/**
  The choice of candidate topologies in the summary-tree script
  (scripts/summary_tree.py): with no time limit, the first ntops groups by
  support, with a warning when the ntops-th group ties with the ones after
  it; with a time limit, every group, in order of support, each run of
  groups with equal support in a random order.

  Indices follow Python: a negative index counts from the end of the list,
  and a slice bound past either end is cut back to it.
 */
module Candidates {
  import opened Wrappers
  import opened TreeUtils
  import opened Topologies

  datatype PyError = IndexError | ZeroDivisionError

  /** Every group has at least one tree, as every group of a grouping has. */
  predicate NonEmptyGroups(allt: seq<Group>)
  {
    forall i :: 0 <= i < |allt| ==> |allt[i].members| > 0
  }

  /** The first tree of each group, the group's representative. */
  function FirstMembers(allt: seq<Group>): (r: seq<Node>)
    requires NonEmptyGroups(allt)
    ensures |r| == |allt|
    ensures forall i :: 0 <= i < |r| ==> r[i] == allt[i].members[0]
  {
    seq(|allt|, i requires 0 <= i < |allt| => allt[i].members[0])
  }

  /** Representatives of groups with different keys are different trees, when every tree of a group has the group's key. */
  lemma FirstMembersDistinct(allt: seq<Group>)
    requires NonEmptyGroups(allt)
    requires forall i :: 0 <= i < |allt| ==> TopologyKey(allt[i].members[0]) == allt[i].key
    requires forall i, j :: 0 <= i < j < |allt| ==> allt[i].key != allt[j].key
    ensures Distinct(FirstMembers(allt))
  {
  }

  // ---------------------------------------------------------------------------
  // Python indexing
  // ---------------------------------------------------------------------------

  /** k is a valid Python index into a list of length n. */
  predicate PyIndexOk(n: nat, k: int)
  {
    -(n as int) <= k < n
  }

  /** s[k] in Python. */
  function PyAt<T>(s: seq<T>, k: int): (r: T)
    requires PyIndexOk(|s|, k)
    ensures k >= 0 ==> r == s[k]
    ensures k < 0 ==> r == s[|s| + k]
  {
    if k < 0 then s[|s| + k] else s[k]
  }

  /**
    s[:stop] in Python: a prefix of s whose i-th element is s[i], as long as
    stop when that is in range, counted from the end when stop is negative.
   */
  function PyPrefix<T>(s: seq<T>, stop: int): (r: seq<T>)
    ensures |r| <= |s| && forall i :: 0 <= i < |r| ==> r[i] == PyAt(s, i)
    ensures 0 <= stop <= |s| ==> r == s[..stop]
    ensures stop > |s| ==> r == s
    ensures -|s| <= stop < 0 ==> r == s[..|s| + stop]
    ensures stop < -|s| ==> r == []
  {
    if stop >= 0 then s[..if stop <= |s| then stop else |s|]
    else if -stop <= |s| then s[..|s| + stop]
    else []
  }

  // ---------------------------------------------------------------------------
  // No time limit: the top ntops groups, and ties at the ntops-th
  // ---------------------------------------------------------------------------

  /** ntops is cut down to the number of groups. */
  function ClampTops(ntops: int, groups: nat): (r: int)
    ensures r <= groups
    ensures ntops <= groups ==> r == ntops
    ensures ntops > groups ==> r == groups
  {
    if ntops > groups then groups else ntops
  }

  /**
    k is where the scan for ties with the ntops-th group stops: with start
    the index ntops-1, every index from start up to k names a group with the
    support of allt[start], and k is the end of the list or names a group
    with another support.
   */
  predicate TieEnd(allt: seq<Group>, ntops: int, k: int)
    requires PyIndexOk(|allt|, ntops - 1)
  {
    var start := ntops - 1;
    && start <= k <= |allt|
    && (forall j :: start <= j < k ==> Support(PyAt(allt, j)) == Support(PyAt(allt, start)))
    && (k == |allt| || Support(PyAt(allt, k)) != Support(PyAt(allt, start)))
  }

  /**
    The tie scan: k starts at ntops-1 and moves past every group with the
    support of the ntops-th. The first lookup fails when ntops-1 is not a
    valid index, which is the case for every ntops when there are no groups.
   */
  method ScanTies(allt: seq<Group>, ntops: int) returns (r: Result<int, PyError>)
    requires ntops <= |allt|
    ensures r.Failure? <==> !PyIndexOk(|allt|, ntops - 1)
    ensures r.Failure? ==> r.error == IndexError
    ensures r.Success? ==> TieEnd(allt, ntops, r.value)
  {
    var k := ntops - 1;
    if !PyIndexOk(|allt|, k) {
      return Failure(IndexError);
    }
    var lLast := Support(PyAt(allt, k));
    while k < |allt| && lLast == Support(PyAt(allt, k))
      invariant ntops - 1 <= k <= |allt|
      invariant forall j :: ntops - 1 <= j < k ==> Support(PyAt(allt, j)) == lLast
      decreases |allt| - k
    {
      k := k + 1;
    }
    r := Success(k);
  }

  /**
    With the groups sorted by support and ntops a position in the list, the
    scan ends after exactly the groups that tie with the ntops-th: those
    before k have its support, those from k on have less.
   */
  lemma TiesExactly(allt: seq<Group>, ntops: int, k: int)
    requires SortedBySupport(allt) && 1 <= ntops <= |allt|
    requires TieEnd(allt, ntops, k)
    ensures forall j :: ntops <= j < |allt| ==>
              (Support(allt[j]) == Support(allt[ntops - 1]) <==> j < k)
    ensures k > ntops <==> ntops < |allt| && Support(allt[ntops]) == Support(allt[ntops - 1])
  {
    var top := Support(allt[ntops - 1]);
    assert PyAt(allt, ntops - 1) == allt[ntops - 1];
    forall j | ntops - 1 <= j < k
      ensures Support(allt[j]) == top
    {
      assert PyAt(allt, j) == allt[j];
    }
    if k < |allt| {
      assert PyAt(allt, k) == allt[k];
      assert Support(allt[k]) < top;
    }
    forall j | k <= j < |allt|
      ensures Support(allt[j]) < top
    {
      assert Support(allt[k]) >= Support(allt[j]);
    }
  }

  /**
    The warning about ties: how many groups tie beyond the ntops-th, the
    position ntops, its support, and the figure printed as its share of the
    trees.
   */
  datatype TieWarning = TieWarning(extra: int, position: int, support: nat, share: real)

  /**
    The figure the warning prints for a group with support lLast: the
    fraction of the trees the group holds (the script divides with true
    division), printed under a "%" sign.
   */
  function TieShareAsWritten(lLast: nat, nTrees: nat): (r: real)
    requires nTrees > 0
    ensures lLast <= nTrees ==> 0.0 <= r <= 1.0
    ensures r * nTrees as real == lLast as real
  {
    lLast as real / nTrees as real
  }

  /** The share of the trees a group with support lLast holds, as a percentage, which the warning's "%" announces. */
  function TiePercent(lLast: nat, nTrees: nat): (r: real)
    requires nTrees > 0
    ensures lLast <= nTrees ==> 0.0 <= r <= 100.0
    ensures lLast > 0 ==> r > 0.0
    ensures r * nTrees as real == 100.0 * lLast as real
  {
    var share := lLast as real / nTrees as real;
    assert share * nTrees as real == lLast as real;
    100.0 * share
  }

  /**
    The printed figure is a hundredth of the percentage its "%" announces,
    and falls short of it for every group with trees: a group holding one
    tree of two is printed as 0.5 where 50 is meant.
   */
  lemma TieShareUnderstated(lLast: nat, nTrees: nat)
    requires nTrees > 0
    ensures 100.0 * TieShareAsWritten(lLast, nTrees) == TiePercent(lLast, nTrees)
    ensures lLast > 0 ==> TieShareAsWritten(lLast, nTrees) < TiePercent(lLast, nTrees)
    ensures TieShareAsWritten(1, 2) == 0.5 && TiePercent(1, 2) == 50.0
  {
  }

  /** Two different groups hold no more trees between them than all groups do. */
  lemma {:induction false} TwoWithinTotal(allt: seq<Group>, i: int, j: int)
    requires 0 <= i < j < |allt|
    ensures Support(allt[i]) + Support(allt[j]) <= TotalSupport(allt)
  {
    if i > 0 {
      assert allt[1..][i - 1] == allt[i] && allt[1..][j - 1] == allt[j];
      TwoWithinTotal(allt[1..], i - 1, j - 1);
    } else {
      OneWithinTotal(allt[1..], j - 1);
      assert allt[1..][j - 1] == allt[j];
    }
  }

  lemma {:induction false} OneWithinTotal(allt: seq<Group>, i: int)
    requires 0 <= i < |allt|
    ensures Support(allt[i]) <= TotalSupport(allt)
  {
    if i > 0 {
      assert allt[1..][i - 1] == allt[i];
      OneWithinTotal(allt[1..], i - 1);
    }
  }

  /**
    Whenever the warning is issued, the ntops-th group ties with the next
    one, so it holds at most half of the trees: the printed figure is at most
    0.5, and the percentage it stands for at most 50.
   */
  lemma TieShareAtMostHalf(allt: seq<Group>, ntops: int, k: int, nTrees: nat)
    requires NonEmptyGroups(allt) && TotalSupport(allt) == nTrees
    requires 1 <= ntops <= |allt| && TieEnd(allt, ntops, k) && k > ntops
    ensures nTrees > 0
    ensures 0.0 < TieShareAsWritten(Support(allt[ntops - 1]), nTrees) <= 0.5
    ensures 0.0 < TiePercent(Support(allt[ntops - 1]), nTrees) <= 50.0
  {
    assert PyAt(allt, ntops - 1) == allt[ntops - 1] && PyAt(allt, ntops) == allt[ntops];
    TwoWithinTotal(allt, ntops - 1, ntops);
    var l := Support(allt[ntops - 1]);
    TieShareUnderstated(l, nTrees);
    AtMostHalf(l, nTrees);
  }

  /** A group of at most half the trees is printed with a figure of at most 0.5. */
  lemma AtMostHalf(l: nat, nTrees: nat)
    requires 0 < nTrees && 2 * l <= nTrees
    ensures TieShareAsWritten(l, nTrees) <= 0.5
  {
    HalfQuotient(l as real, nTrees as real);
  }

  /** x / n is at most one half when 2x is at most n. */
  lemma HalfQuotient(x: real, n: real)
    requires 0.0 < n && 2.0 * x <= n
    ensures x / n <= 0.5
  {
    var q := x / n;
    assert q * n == x;
    if q > 0.5 {
      ScaleStrict(0.5, q, n);
      assert false;
    }
  }

  lemma ScaleStrict(a: real, b: real, c: real)
    requires a < b && c > 0.0
    ensures a * c < b * c
  {
  }

  /**
    warning is what the tie scan reports about the ntops-th group: the scan
    ends at some k, and there is a warning exactly when k is past ntops,
    giving how many more groups tie, the position, the support and the
    printed share of the trees.
   */
  predicate TieReported(allt: seq<Group>, ntops: int, nTrees: nat, warning: Option<TieWarning>)
    requires PyIndexOk(|allt|, ntops - 1) && nTrees > 0
  {
    exists k :: && ntops - 1 <= k <= |allt| && TieEnd(allt, ntops, k)
                && (warning.Some? <==> k > ntops)
                && (k > ntops ==>
                      var lLast := Support(PyAt(allt, ntops - 1));
                      warning == Some(TieWarning(k - ntops, ntops, lLast, TieShareAsWritten(lLast, nTrees))))
  }

  /**
    The whole no-time-limit branch for an already clamped ntops: the tie
    scan, the warning when the scan went past ntops, and the representatives
    of the groups in allt[:ntops].
   */
  method TopCandidates(allt: seq<Group>, ntops: int, nTrees: nat) returns (r: Result<(seq<Node>, Option<TieWarning>), PyError>)
    requires NonEmptyGroups(allt) && ntops <= |allt|
    requires TotalSupport(allt) == nTrees
    ensures r.Failure? <==> !PyIndexOk(|allt|, ntops - 1)
    ensures r.Failure? ==> r.error == IndexError
    ensures r.Success? ==> r.value.0 == FirstMembers(PyPrefix(allt, ntops))
    ensures r.Success? ==> nTrees > 0 && TieReported(allt, ntops, nTrees, r.value.1)
  {
    var scan := ScanTies(allt, ntops);
    if scan.Failure? {
      return Failure(scan.error);
    }
    var k := scan.value;
    var lLast := Support(PyAt(allt, ntops - 1));
    SupportWithinTotal(allt, ntops - 1);
    var warning := None;
    if k > ntops {
      warning := Some(TieWarning(k - ntops, ntops, lLast, TieShareAsWritten(lLast, nTrees)));
    }
    var top := PyPrefix(allt, ntops);
    r := Success((FirstMembers(top), warning));
  }

  /** A group's support is part of the total, so a list with a group has a positive total. */
  lemma {:induction false} SupportWithinTotal(allt: seq<Group>, k: int)
    requires PyIndexOk(|allt|, k) && NonEmptyGroups(allt)
    ensures 0 < Support(PyAt(allt, k)) <= TotalSupport(allt)
  {
    var i := if k < 0 then |allt| + k else k;
    if i > 0 {
      assert allt[1..][i - 1] == allt[i];
      SupportWithinTotal(allt[1..], i - 1);
    }
  }

  /** Among valid, clamped ntops from 0 on, the candidates are the representatives of the first ntops groups. */
  lemma TopCandidatesArePrefix(allt: seq<Group>, ntops: int)
    requires NonEmptyGroups(allt) && 0 <= ntops <= |allt|
    ensures FirstMembers(PyPrefix(allt, ntops)) == FirstMembers(allt)[..ntops]
  {
  }

  // ---------------------------------------------------------------------------
  // Time limit: every group, equal-support runs shuffled
  // ---------------------------------------------------------------------------

  /** allt[s..e] is a whole run of groups with equal support: it cannot be extended either way. */
  predicate IsRun(allt: seq<Group>, s: int, e: int)
  {
    && 0 <= s < e <= |allt|
    && (forall j :: s <= j < e ==> Support(allt[j]) == Support(allt[s]))
    && (s == 0 || Support(allt[s - 1]) != Support(allt[s]))
    && (e == |allt| || Support(allt[e]) != Support(allt[s]))
  }

  /** Every group of a run has the support of the run's first group. */
  lemma RunMember(allt: seq<Group>, s: int, e: int, x: int)
    ensures IsRun(allt, s, e) && s <= x < e ==> Support(allt[x]) == Support(allt[s])
  {
  }

  /** Two runs that overlap are the same run. */
  lemma RunsDisjoint(allt: seq<Group>, s: int, e: int, s': int, e': int)
    requires IsRun(allt, s, e) && IsRun(allt, s', e')
    requires s' < e && s < e'
    ensures s == s' && e == e'
  {
    RunMember(allt, s, e, s' - 1);
    RunMember(allt, s, e, s');
    RunMember(allt, s', e', s - 1);
    RunMember(allt, s', e', s);
    RunMember(allt, s, e, e');
    RunMember(allt, s', e', e);
  }

  /** The run order is kept by cands up to position e: every whole run that ends by e is a permutation of the same run of representatives. */
  ghost predicate RunsPermuted(allt: seq<Group>, cands: seq<Node>, firsts: seq<Node>, upTo: int)
    requires |firsts| == |allt| && upTo <= |cands|
  {
    forall s, e :: IsRun(allt, s, e) && e <= upTo ==> multiset(cands[s..e]) == multiset(firsts[s..e])
  }

  /** Appending a shuffle of the run [start, k) keeps every run permuted. */
  lemma RunAppended(allt: seq<Group>, firsts: seq<Node>, cands: seq<Node>, shuffled: seq<Node>, k: int)
    requires |firsts| == |allt| && |cands| < k <= |allt|
    requires IsRun(allt, |cands|, k)
    requires multiset(shuffled) == multiset(firsts[|cands|..k])
    requires RunsPermuted(allt, cands, firsts, |cands|)
    requires multiset(cands) == multiset(firsts[..|cands|])
    ensures |cands + shuffled| == k
    ensures RunsPermuted(allt, cands + shuffled, firsts, k)
    ensures multiset(cands + shuffled) == multiset(firsts[..k])
    ensures k < |allt| ==> Support(allt[k - 1]) != Support(allt[k])
  {
    var start := |cands|;
    var c := cands + shuffled;
    assert |multiset(shuffled)| == k - start;
    assert firsts[..k] == firsts[..start] + firsts[start..k];
    RunMember(allt, start, k, k - 1);
    forall s, e | IsRun(allt, s, e) && e <= k
      ensures multiset(c[s..e]) == multiset(firsts[s..e])
    {
      if e <= start {
        assert c[s..e] == cands[s..e];
      } else {
        RunsDisjoint(allt, s, e, start, k);
        assert c[s..e] == shuffled;
      }
    }
  }

  /**
    The inner loop of the time-limited order: from a position where a run
    starts, collect the representatives of the groups with the support of
    the first, up to where the run ends.
   */
  method CollectRun(allt: seq<Group>, firsts: seq<Node>, start: int) returns (l: seq<Node>, k: int)
    requires NonEmptyGroups(allt) && firsts == FirstMembers(allt)
    requires 0 <= start < |allt|
    requires start == 0 || Support(allt[start - 1]) != Support(allt[start])
    ensures IsRun(allt, start, k)
    ensures l == firsts[start..k]
  {
    l := [];
    k := start;
    var lFirst := Support(allt[k]);
    while k < |allt| && lFirst == Support(allt[k])
      invariant start <= k <= |allt|
      invariant l == firsts[start..k]
      invariant forall j :: start <= j < k ==> Support(allt[j]) == lFirst
      decreases |allt| - k
    {
      l := l + [allt[k].members[0]];
      k := k + 1;
    }
  }

  /**
    The time-limited candidate order: repeatedly collect the representatives
    of the next run of equal support, shuffle them, and append them. Every
    group's representative appears once, and each run of equal support is a
    permutation of the same run of representatives.
   */
  method TimedOrder(allt: seq<Group>) returns (candidates: seq<Node>)
    requires NonEmptyGroups(allt)
    ensures |candidates| == |allt|
    ensures multiset(candidates) == multiset(FirstMembers(allt))
    ensures RunsPermuted(allt, candidates, FirstMembers(allt), |allt|)
  {
    var firsts := FirstMembers(allt);
    candidates := [];
    while |candidates| < |allt|
      invariant |candidates| <= |allt|
      invariant 0 < |candidates| < |allt| ==> Support(allt[|candidates| - 1]) != Support(allt[|candidates|])
      invariant multiset(candidates) == multiset(firsts[..|candidates|])
      invariant RunsPermuted(allt, candidates, firsts, |candidates|)
      decreases |allt| - |candidates|
    {
      var l, k := CollectRun(allt, firsts, |candidates|);
      var shuffled :| multiset(shuffled) == multiset(l);
      RunAppended(allt, firsts, candidates, shuffled, k);
      candidates := candidates + shuffled;
    }
    assert firsts[..|allt|] == firsts;
  }

  /** The run of equal support that position i lies in. */
  function RunStart(allt: seq<Group>, i: nat): (s: nat)
    requires i < |allt|
    ensures s <= i
    ensures forall j :: s <= j <= i ==> Support(allt[j]) == Support(allt[i])
    ensures s == 0 || Support(allt[s - 1]) != Support(allt[i])
  {
    if i > 0 && Support(allt[i - 1]) == Support(allt[i]) then RunStart(allt, i - 1) else i
  }

  function RunEnd(allt: seq<Group>, i: nat): (e: nat)
    requires i < |allt|
    ensures i < e <= |allt|
    ensures forall j :: i <= j < e ==> Support(allt[j]) == Support(allt[i])
    ensures e == |allt| || Support(allt[e]) != Support(allt[i])
    decreases |allt| - i
  {
    if i + 1 < |allt| && Support(allt[i + 1]) == Support(allt[i]) then RunEnd(allt, i + 1) else i + 1
  }

  /**
    Shuffling within runs keeps the order of support: the candidate at
    position i represents a group whose support is that of allt[i], so over
    sorted groups the candidates come in order of non-increasing support.
   */
  lemma CandidateKeepsSupport(allt: seq<Group>, candidates: seq<Node>, i: nat)
    requires NonEmptyGroups(allt) && |candidates| == |allt| && i < |allt|
    requires RunsPermuted(allt, candidates, FirstMembers(allt), |allt|)
    ensures exists j :: 0 <= j < |allt| && candidates[i] == allt[j].members[0] && Support(allt[j]) == Support(allt[i])
  {
    var firsts := FirstMembers(allt);
    var s, e := RunStart(allt, i), RunEnd(allt, i);
    RunAround(allt, i);
    assert multiset(candidates[s..e]) == multiset(firsts[s..e]);
    var j := SameElementsWithin(candidates, firsts, s, e, i);
    RunMember(allt, s, e, j);
    RunMember(allt, s, e, i);
  }

  /** The run found around group i is a whole run. */
  lemma RunAround(allt: seq<Group>, i: nat)
    requires i < |allt|
    ensures IsRun(allt, RunStart(allt, i), RunEnd(allt, i))
  {
  }

  /** An element of a slice is found in any slice with the same elements. */
  lemma SameElementsWithin<T>(a: seq<T>, b: seq<T>, s: int, e: int, i: int) returns (j: int)
    requires 0 <= s <= i < e <= |a| && e <= |b|
    requires multiset(a[s..e]) == multiset(b[s..e])
    ensures s <= j < e && b[j] == a[i]
  {
    assert a[s..e][i - s] == a[i];
    assert a[i] in multiset(b[s..e]);
    var k :| 0 <= k < e - s && b[s..e][k] == a[i];
    j := s + k;
  }
}
