/**
 * `merge_sets`: coalesce a list of filename sets into groups, merging any two
 * sets that share a filename, until no two groups share one.  The result is
 * the partition of the union into the connected components of the relation
 * "occur together in an input set".
 */
module GroupMerger {

  /** Every filename of every set. */
  function Union(ss: seq<set<string>>): set<string>
  {
    set i, x | 0 <= i < |ss| && x in ss[i] :: x
  }

  /** No filename is in two of the sets. */
  predicate PairwiseDisjoint(ss: seq<set<string>>)
  {
    forall i, j :: 0 <= i < |ss| && 0 <= j < |ss| && i != j ==> ss[i] * ss[j] == {}
  }

  /** part lies inside one of the groups. */
  predicate InSomeGroup(part: set<string>, groups: seq<set<string>>)
  {
    exists j :: 0 <= j < |groups| && part <= groups[j]
  }

  /** Every set of parts lies inside some group. */
  predicate Covers(parts: seq<set<string>>, groups: seq<set<string>>)
  {
    forall k :: 0 <= k < |parts| ==> InSomeGroup(parts[k], groups)
  }

  /** path lists indices of ss in which each set shares a filename with the next. */
  ghost predicate IsChain(ss: seq<set<string>>, path: seq<int>)
  {
    && |path| > 0
    && (forall i :: 0 <= i < |path| ==> 0 <= path[i] < |ss|)
    && (forall i :: 0 <= i < |path| - 1 ==> ss[path[i]] * ss[path[i + 1]] != {})
  }

  /** x and y are connected through a chain of sets of ss. */
  ghost predicate Linked(ss: seq<set<string>>, x: string, y: string)
  {
    exists path :: IsChain(ss, path) && x in ss[path[0]] && y in ss[path[|path| - 1]]
  }

  /** Any two filenames of one group are connected through the sets of ss. */
  ghost predicate GroupsLinked(ss: seq<set<string>>, groups: seq<set<string>>)
  {
    forall j, x, y :: 0 <= j < |groups| && x in groups[j] && y in groups[j] ==> Linked(ss, x, y)
  }

  /** groups is a partition of the filenames of ss into connected, mutually disjoint groups. */
  ghost predicate IsGrouping(ss: seq<set<string>>, groups: seq<set<string>>)
  {
    && PairwiseDisjoint(groups)
    && Union(groups) == Union(ss)
    && Covers(ss, groups)
    && GroupsLinked(ss, groups)
  }

  // ----- helper facts about Union and Linked -----

  lemma UnionAppend(ss: seq<set<string>>, s: set<string>)
    ensures Union(ss + [s]) == Union(ss) + s
  {
    var t := ss + [s];
    forall x | x in Union(ss) ensures x in Union(t) {
      var i :| 0 <= i < |ss| && x in ss[i];
      assert t[i] == ss[i];
    }
    forall x | x in s ensures x in Union(t) {
      assert t[|ss|] == s;
    }
  }

  lemma UnionCons(s: set<string>, ss: seq<set<string>>)
    ensures Union([s] + ss) == s + Union(ss)
  {
    var t := [s] + ss;
    forall x | x in Union(ss) ensures x in Union(t) {
      var i :| 0 <= i < |ss| && x in ss[i];
      assert t[i + 1] == ss[i];
    }
    forall x | x in s ensures x in Union(t) {
      assert t[0] == s;
    }
  }

  /** A single set connects any two of its own filenames. */
  lemma LinkedInSet(ss: seq<set<string>>, k: int, x: string, y: string)
    requires 0 <= k < |ss| && x in ss[k] && y in ss[k]
    ensures Linked(ss, x, y)
  {
    assert IsChain(ss, [k]);
  }

  /** Chains join end to end. */
  lemma LinkedTrans(ss: seq<set<string>>, x: string, y: string, z: string)
    requires Linked(ss, x, y) && Linked(ss, y, z)
    ensures Linked(ss, x, z)
  {
    var p :| IsChain(ss, p) && x in ss[p[0]] && y in ss[p[|p| - 1]];
    var q :| IsChain(ss, q) && y in ss[q[0]] && z in ss[q[|q| - 1]];
    var path := p + q;
    forall i | 0 <= i < |path| - 1
      ensures ss[path[i]] * ss[path[i + 1]] != {}
    {
      if i < |p| - 1 {
        assert path[i] == p[i] && path[i + 1] == p[i + 1];
      } else if i == |p| - 1 {
        assert path[i] == p[|p| - 1] && path[i + 1] == q[0];
        assert y in ss[path[i]] * ss[path[i + 1]];
      } else {
        assert path[i] == q[i - |p|] && path[i + 1] == q[i - |p| + 1];
      }
    }
    assert IsChain(ss, path);
    assert path[0] == p[0] && path[|path| - 1] == q[|q| - 1];
  }

  /**
   * A chain through groups that are each internally connected through ss is a
   * connection through ss.
   */
  lemma {:induction false} LinkedLift(ss: seq<set<string>>, groups: seq<set<string>>, path: seq<int>, x: string, y: string)
    requires GroupsLinked(ss, groups)
    requires IsChain(groups, path) && x in groups[path[0]] && y in groups[path[|path| - 1]]
    ensures Linked(ss, x, y)
    decreases |path|
  {
    if |path| == 1 {
    } else {
      var z :| z in groups[path[0]] * groups[path[1]];
      var rest := path[1..];
      assert IsChain(groups, rest) by {
        forall i | 0 <= i < |rest| - 1 ensures groups[rest[i]] * groups[rest[i + 1]] != {} {
          assert rest[i] == path[i + 1] && rest[i + 1] == path[i + 2];
        }
      }
      assert rest[|rest| - 1] == path[|path| - 1];
      LinkedLift(ss, groups, rest, z, y);
      LinkedTrans(ss, x, z, y);
    }
  }

  // ----- the merge -----

  /**
   * merge_sets: pop the sets of the list one by one from its end; absorb each
   * popped set into every already placed group it shares a filename with, or
   * place it as a new group when it shares none; when some popped set touched
   * two or more placed groups, those groups now overlap, so run the whole
   * merge again over the placed groups.
   */
  method MergeSets(setList: seq<set<string>>) returns (result: seq<set<string>>)
    ensures PairwiseDisjoint(result)
    ensures Union(result) == Union(setList)
    ensures Covers(setList, result)
    ensures GroupsLinked(setList, result)
    decreases |setList|
  {
    var input := setList;
    var merged: seq<set<string>> := [];
    var recurse := false;
    while |input| > 0
      invariant |input| <= |setList| && input == setList[..|input|]
      invariant |merged| + |input| <= |setList|
      invariant recurse ==> |merged| + |input| < |setList|
      invariant !recurse ==> PairwiseDisjoint(merged)
      invariant Union(merged) == Union(setList[|input|..])
      invariant Covers(setList[|input|..], merged)
      invariant GroupsLinked(setList, merged)
    {
      var s := input[|input| - 1];
      input := input[..|input| - 1];
      ghost var k := |input|;
      assert s == setList[k];
      ghost var before := merged;
      var mergeCount := 0;
      ghost var hit := 0;
      var i := 0;
      while i < |merged|
        invariant 0 <= i <= |merged| == |before|
        invariant forall j :: 0 <= j < i ==> merged[j] == if s * before[j] != {} then before[j] + s else before[j]
        invariant forall j :: i <= j < |merged| ==> merged[j] == before[j]
        invariant mergeCount == 0 ==> forall j :: 0 <= j < i ==> s * before[j] == {}
        invariant mergeCount >= 1 ==> 0 <= hit < i && s * before[hit] != {}
        invariant mergeCount == 1 ==> forall j :: 0 <= j < i && j != hit ==> s * before[j] == {}
      {
        if s * merged[i] != {} {
          merged := merged[i := merged[i] + s];
          if mergeCount == 0 {
            hit := i;
          }
          mergeCount := mergeCount + 1;
        }
        i := i + 1;
      }
      if mergeCount == 0 {
        merged := merged + [s];
      }
      if mergeCount > 1 {
        recurse := true;
      }
      MergeStep(setList, k, before, merged, mergeCount == 0, hit);
      if !recurse {
        DisjointStep(before, s, merged, mergeCount == 0, hit);
      }
    }
    assert setList[0..] == setList;
    result := merged;
    if recurse {
      result := MergeSets(merged);
      RegroupPreserves(setList, merged, result);
    }
  }

  /**
   * One pass step: after setList[k] was absorbed into the groups it meets (or
   * appended when it meets none), the placed groups still cover, connect and
   * exhaust the sets popped so far.
   */
  lemma MergeStep(setList: seq<set<string>>, k: int, before: seq<set<string>>, merged: seq<set<string>>,
                  appended: bool, hit: int)
    requires 0 <= k < |setList|
    requires Union(before) == Union(setList[k + 1..])
    requires Covers(setList[k + 1..], before)
    requires GroupsLinked(setList, before)
    requires appended ==> merged == before + [setList[k]]
    requires appended ==> forall j :: 0 <= j < |before| ==> setList[k] * before[j] == {}
    requires !appended ==> |merged| == |before| && 0 <= hit < |before| && setList[k] * before[hit] != {}
    requires !appended ==> forall j :: 0 <= j < |before| ==>
      merged[j] == if setList[k] * before[j] != {} then before[j] + setList[k] else before[j]
    ensures Union(merged) == Union(setList[k..])
    ensures Covers(setList[k..], merged)
    ensures GroupsLinked(setList, merged)
  {
    var s := setList[k];
    assert setList[k..] == [s] + setList[k + 1..];
    UnionCons(s, setList[k + 1..]);
    if appended {
      UnionAppend(before, s);
    } else {
      forall x | x in Union(merged) ensures x in Union(before) + s {
        var j :| 0 <= j < |merged| && x in merged[j];
        if x !in s {
          assert x in before[j];
        }
      }
      forall x | x in Union(before) + s ensures x in Union(merged) {
        if x in s {
          assert x in merged[hit];
        } else {
          var j :| 0 <= j < |before| && x in before[j];
          assert x in merged[j];
        }
      }
    }
    // cover
    forall m | 0 <= m < |setList[k..]|
      ensures InSomeGroup(setList[k..][m], merged)
    {
      if m == 0 {
        if appended {
          assert setList[k..][0] <= merged[|before|];
        } else {
          assert setList[k..][0] <= merged[hit];
        }
      } else {
        assert setList[k..][m] == setList[k + 1..][m - 1];
        assert InSomeGroup(setList[k + 1..][m - 1], before);
        var j :| 0 <= j < |before| && setList[k + 1..][m - 1] <= before[j];
        assert before[j] <= merged[j];
      }
    }
    // connection
    forall j, x, y | 0 <= j < |merged| && x in merged[j] && y in merged[j]
      ensures Linked(setList, x, y)
    {
      if appended && j == |before| {
        LinkedInSet(setList, k, x, y);
      } else if x in before[j] && y in before[j] {
      } else if x in s && y in s {
        LinkedInSet(setList, k, x, y);
      } else {
        var z :| z in s * before[j];
        if x in before[j] {
          LinkedInSet(setList, k, z, y);
          LinkedTrans(setList, x, z, y);
        } else {
          LinkedInSet(setList, k, x, z);
          LinkedTrans(setList, x, z, y);
        }
      }
    }
  }

  /** Absorbing a set into the one group it meets, or appending it when it meets none, keeps the groups disjoint. */
  lemma DisjointStep(before: seq<set<string>>, s: set<string>, merged: seq<set<string>>, appended: bool, hit: int)
    requires PairwiseDisjoint(before)
    requires appended ==> merged == before + [s]
    requires appended ==> forall j :: 0 <= j < |before| ==> s * before[j] == {}
    requires !appended ==> |merged| == |before| && 0 <= hit < |before|
    requires !appended ==> forall j :: 0 <= j < |before| && j != hit ==> s * before[j] == {}
    requires !appended ==> forall j :: 0 <= j < |before| ==>
      merged[j] == if s * before[j] != {} then before[j] + s else before[j]
    ensures PairwiseDisjoint(merged)
  {
  }

  /** Regrouping already connected groups keeps the union, the cover and the connections. */
  lemma RegroupPreserves(setList: seq<set<string>>, merged: seq<set<string>>, result: seq<set<string>>)
    requires Union(merged) == Union(setList)
    requires Covers(setList, merged)
    requires GroupsLinked(setList, merged)
    requires Union(result) == Union(merged)
    requires Covers(merged, result)
    requires GroupsLinked(merged, result)
    ensures Covers(setList, result)
    ensures GroupsLinked(setList, result)
  {
    forall m | 0 <= m < |setList|
      ensures InSomeGroup(setList[m], result)
    {
      assert InSomeGroup(setList[m], merged);
      var a :| 0 <= a < |merged| && setList[m] <= merged[a];
      assert InSomeGroup(merged[a], result);
      var b :| 0 <= b < |result| && merged[a] <= result[b];
      assert setList[m] <= result[b];
    }
    forall j, x, y | 0 <= j < |result| && x in result[j] && y in result[j]
      ensures Linked(setList, x, y)
    {
      assert Linked(merged, x, y);
      var path :| IsChain(merged, path) && x in merged[path[0]] && y in merged[path[|path| - 1]];
      LinkedLift(setList, merged, path, x, y);
    }
  }

  // ----- what a grouping determines -----

  /** Walking along a chain never leaves the group of its first set. */
  lemma {:induction false} ChainInOneGroup(ss: seq<set<string>>, groups: seq<set<string>>, path: seq<int>, j: int, i: int)
    requires PairwiseDisjoint(groups) && Covers(ss, groups)
    requires IsChain(ss, path) && 0 <= j < |groups| && ss[path[0]] <= groups[j]
    requires 0 <= i < |path|
    ensures ss[path[i]] <= groups[j]
    decreases i
  {
    if i > 0 {
      ChainInOneGroup(ss, groups, path, j, i - 1);
      var z :| z in ss[path[i - 1]] * ss[path[i]];
      assert InSomeGroup(ss[path[i]], groups);
      var j' :| 0 <= j' < |groups| && ss[path[i]] <= groups[j'];
      assert z in groups[j] * groups[j'];
    }
  }

  /**
   * Input sets joined by a chain of non-empty intersections end up inside the
   * same group.
   */
  lemma LinkedSetsShareGroup(ss: seq<set<string>>, groups: seq<set<string>>, path: seq<int>)
    requires PairwiseDisjoint(groups) && Covers(ss, groups)
    requires IsChain(ss, path)
    ensures exists j :: 0 <= j < |groups| && forall i :: 0 <= i < |path| ==> ss[path[i]] <= groups[j]
  {
    assert InSomeGroup(ss[path[0]], groups);
    var j :| 0 <= j < |groups| && ss[path[0]] <= groups[j];
    forall i | 0 <= i < |path| ensures ss[path[i]] <= groups[j] {
      ChainInOneGroup(ss, groups, path, j, i);
    }
  }

  /** Each group is exactly the connected component of any of its filenames. */
  lemma GroupIsComponent(ss: seq<set<string>>, groups: seq<set<string>>, j: int, x: string, y: string)
    requires IsGrouping(ss, groups)
    requires 0 <= j < |groups| && x in groups[j]
    ensures y in groups[j] <==> Linked(ss, x, y)
  {
    if Linked(ss, x, y) {
      var path :| IsChain(ss, path) && x in ss[path[0]] && y in ss[path[|path| - 1]];
      assert InSomeGroup(ss[path[0]], groups);
      var j0 :| 0 <= j0 < |groups| && ss[path[0]] <= groups[j0];
      assert x in groups[j] * groups[j0];
      ChainInOneGroup(ss, groups, path, j, |path| - 1);
    }
  }

  /** The groups as an unordered collection, leaving out empty groups. */
  function NonEmptyGroups(groups: seq<set<string>>): set<set<string>>
  {
    set j | 0 <= j < |groups| && groups[j] != {} :: groups[j]
  }

  lemma GroupingIncluded(ss: seq<set<string>>, g1: seq<set<string>>, g2: seq<set<string>>)
    requires IsGrouping(ss, g1) && IsGrouping(ss, g2)
    ensures NonEmptyGroups(g1) <= NonEmptyGroups(g2)
  {
    forall group | group in NonEmptyGroups(g1) ensures group in NonEmptyGroups(g2) {
      var j :| 0 <= j < |g1| && g1[j] != {} && g1[j] == group;
      var x :| x in group;
      assert x in Union(g2);
      var k :| 0 <= k < |g2| && x in g2[k];
      forall y ensures y in g1[j] <==> y in g2[k] {
        GroupIsComponent(ss, g1, j, x, y);
        GroupIsComponent(ss, g2, k, x, y);
      }
      assert g1[j] == g2[k];
    }
  }

  /** Two groupings of the same sets consist of the same non-empty groups. */
  lemma GroupingUnique(ss: seq<set<string>>, g1: seq<set<string>>, g2: seq<set<string>>)
    requires IsGrouping(ss, g1) && IsGrouping(ss, g2)
    ensures NonEmptyGroups(g1) == NonEmptyGroups(g2)
  {
    GroupingIncluded(ss, g1, g2);
    GroupingIncluded(ss, g2, g1);
  }

  /** A grouping of a list is a grouping of any reordering of it. */
  lemma GroupingReordered(ss1: seq<set<string>>, ss2: seq<set<string>>, groups: seq<set<string>>)
    requires multiset(ss1) == multiset(ss2)
    requires IsGrouping(ss1, groups)
    ensures IsGrouping(ss2, groups)
  {
    forall x | x in Union(ss1) ensures x in Union(ss2) {
      var i :| 0 <= i < |ss1| && x in ss1[i];
      assert ss1[i] in multiset(ss2);
      var i2 :| 0 <= i2 < |ss2| && ss2[i2] == ss1[i];
    }
    forall x | x in Union(ss2) ensures x in Union(ss1) {
      var i :| 0 <= i < |ss2| && x in ss2[i];
      assert ss2[i] in multiset(ss1);
      var i1 :| 0 <= i1 < |ss1| && ss1[i1] == ss2[i];
    }
    forall k | 0 <= k < |ss2| ensures InSomeGroup(ss2[k], groups) {
      assert ss2[k] in multiset(ss1);
      var k1 :| 0 <= k1 < |ss1| && ss1[k1] == ss2[k];
      assert InSomeGroup(ss1[k1], groups);
    }
    forall j, a, b | 0 <= j < |ss1| && a in ss1[j] && b in ss1[j] ensures Linked(ss2, a, b) {
      assert ss1[j] in multiset(ss2);
      var j2 :| 0 <= j2 < |ss2| && ss2[j2] == ss1[j];
      LinkedInSet(ss2, j2, a, b);
    }
    forall j, x, y | 0 <= j < |groups| && x in groups[j] && y in groups[j] ensures Linked(ss2, x, y) {
      assert Linked(ss1, x, y);
      var path :| IsChain(ss1, path) && x in ss1[path[0]] && y in ss1[path[|path| - 1]];
      LinkedLift(ss2, ss1, path, x, y);
    }
  }

  /** The merge does not depend on the order of its input: reorderings give the same groups. */
  lemma GroupingOrderIndependent(ss1: seq<set<string>>, ss2: seq<set<string>>, g1: seq<set<string>>, g2: seq<set<string>>)
    requires multiset(ss1) == multiset(ss2)
    requires IsGrouping(ss1, g1) && IsGrouping(ss2, g2)
    ensures NonEmptyGroups(g1) == NonEmptyGroups(g2)
  {
    GroupingReordered(ss1, ss2, g1);
    GroupingUnique(ss2, g1, g2);
  }

  /** Merging groups that are already disjoint gives back the same groups: the merge is idempotent. */
  lemma GroupingIdempotent(groups: seq<set<string>>, regrouped: seq<set<string>>)
    requires PairwiseDisjoint(groups)
    requires IsGrouping(groups, regrouped)
    ensures NonEmptyGroups(regrouped) == NonEmptyGroups(groups)
  {
    forall k | 0 <= k < |groups| ensures InSomeGroup(groups[k], groups) {
      assert groups[k] <= groups[k];
    }
    forall j, x, y | 0 <= j < |groups| && x in groups[j] && y in groups[j] ensures Linked(groups, x, y) {
      LinkedInSet(groups, j, x, y);
    }
    assert IsGrouping(groups, groups);
    GroupingUnique(groups, regrouped, groups);
  }

  // ----- a worked example -----

  function ChainSets(): seq<set<string>>
  {
    [{"a", "b"}, {"b", "c"}, {"d", "e"}]
  }

  function ChainGroups(): seq<set<string>>
  {
    [{"a", "b", "c"}, {"d", "e"}]
  }

  lemma ChainUnions()
    ensures Union(ChainSets()) == {"a", "b", "c", "d", "e"}
    ensures Union(ChainGroups()) == {"a", "b", "c", "d", "e"}
  {
    var ss, gs := ChainSets(), ChainGroups();
    assert ss[0] + ss[1] + ss[2] <= Union(ss);
    assert gs[0] + gs[1] <= Union(gs);
  }

  lemma ChainGroupsLinked()
    ensures GroupsLinked(ChainSets(), ChainGroups())
  {
    var ss, gs := ChainSets(), ChainGroups();
    forall j, x, y | 0 <= j < |gs| && x in gs[j] && y in gs[j]
      ensures Linked(ss, x, y)
    {
      if j == 0 {
        if x == "c" { LinkedInSet(ss, 1, x, "b"); } else { LinkedInSet(ss, 0, x, "b"); }
        if y == "c" { LinkedInSet(ss, 1, "b", y); } else { LinkedInSet(ss, 0, "b", y); }
        LinkedTrans(ss, x, "b", y);
      } else {
        LinkedInSet(ss, 2, x, y);
      }
    }
  }

  lemma ChainGrouping()
    ensures IsGrouping(ChainSets(), ChainGroups())
  {
    var ss, gs := ChainSets(), ChainGroups();
    assert gs[0] * gs[1] == {};
    assert PairwiseDisjoint(gs);
    ChainUnions();
    assert InSomeGroup(ss[0], gs) && InSomeGroup(ss[1], gs) by {
      assert ss[0] <= gs[0] && ss[1] <= gs[0];
    }
    assert InSomeGroup(ss[2], gs) by {
      assert ss[2] <= gs[1];
    }
    ChainGroupsLinked();
  }

  lemma ChainNonEmpty()
    ensures NonEmptyGroups(ChainGroups()) == {{"a", "b", "c"}, {"d", "e"}}
  {
    var gs := ChainGroups();
    assert gs[0] in NonEmptyGroups(gs) && gs[1] in NonEmptyGroups(gs);
  }

  /** The match sets {a, b}, {b, c} and {d, e} group into {a, b, c} and {d, e}. */
  lemma ChainExample(groups: seq<set<string>>)
    requires IsGrouping(ChainSets(), groups)
    ensures NonEmptyGroups(groups) == {{"a", "b", "c"}, {"d", "e"}}
  {
    ChainGrouping();
    GroupingUnique(ChainSets(), groups, ChainGroups());
    ChainNonEmpty();
  }
}
