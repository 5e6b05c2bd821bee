/**
 * The two queries of the search script: a single search for the images close
 * to one probe hash, and the full scan that searches around one hash per
 * stored image, keeps the results that found more than the image itself and
 * merges them into similarity groups.
 */
module QueryWorkflows {
  import opened HashCodec
  import opened HashIndex
  import opened SimilaritySearch
  import opened GroupMerger

  /**
   * do_single_search without the image decoding and the printing: the hash
   * string produced for the probe image is split into bytes and searched.
   */
  method SingleSearch(table: Table, hashString: string, maxDist: int) returns (matches: set<string>)
    requires IsHashString(hashString)
    ensures matches == Within(table, HashOfString(hashString), maxDist)
  {
    var tupleHash := HashOfString(hashString);
    matches := SearchSimilarImages(table, tupleHash, maxDist, [], 0);
    PrefixMatchesEmpty(table, tupleHash, maxDist);
  }

  /** A stored image probed with its own printed hash and budget zero finds itself. */
  lemma ProbeFindsStoredImage(table: Table, r: Record)
    requires r in table
    ensures IsHashString(ToHex(r.hash))
    ensures r.filename in Within(table, HashOfString(ToHex(r.hash)), 0)
  {
    HashOfStringToHex(r.hash);
    SelfMatch(table, r, 0);
  }

  /**
   * The match sets the full scan collects, in scan order: for each
   * representative row, the search result around its hash when it holds more
   * than one filename.
   */
  function MatchSets(table: Table, reps: seq<Record>, maxDist: int): (sets: seq<set<string>>)
    ensures |sets| <= |reps|
    ensures forall k :: 0 <= k < |sets| ==> |sets[k]| > 1
  {
    if |reps| == 0 then []
    else
      var matches := Within(table, reps[|reps| - 1].hash, maxDist);
      MatchSets(table, reps[..|reps| - 1], maxDist) + (if |matches| > 1 then [matches] else [])
  }

  /** m is the search result, holding more than one filename, around some representative. */
  ghost predicate FoundByRepresentative(table: Table, reps: seq<Record>, maxDist: int, m: set<string>)
  {
    exists i :: 0 <= i < |reps| && m == Within(table, reps[i].hash, maxDist) && |m| > 1
  }

  /** Every collected match set is the result, holding more than one filename, of some representative's search. */
  lemma {:induction false} MatchSetsSound(table: Table, reps: seq<Record>, maxDist: int)
    ensures forall k :: 0 <= k < |MatchSets(table, reps, maxDist)| ==>
      FoundByRepresentative(table, reps, maxDist, MatchSets(table, reps, maxDist)[k])
  {
    if |reps| > 0 {
      var n := |reps| - 1;
      var front := reps[..n];
      MatchSetsSound(table, front, maxDist);
      var ms := MatchSets(table, reps, maxDist);
      var msFront := MatchSets(table, front, maxDist);
      forall k | 0 <= k < |ms|
        ensures FoundByRepresentative(table, reps, maxDist, ms[k])
      {
        if k < |msFront| {
          assert FoundByRepresentative(table, front, maxDist, msFront[k]);
          var i :| 0 <= i < |front| && msFront[k] == Within(table, front[i].hash, maxDist) && |msFront[k]| > 1;
          assert ms[k] == msFront[k] && front[i] == reps[i];
        } else {
          assert ms[k] == Within(table, reps[n].hash, maxDist);
        }
      }
    }
  }

  /** Every representative's search result holding more than one filename is collected. */
  lemma {:induction false} MatchSetsComplete(table: Table, reps: seq<Record>, maxDist: int)
    ensures forall i :: 0 <= i < |reps| && |Within(table, reps[i].hash, maxDist)| > 1 ==>
      Within(table, reps[i].hash, maxDist) in MatchSets(table, reps, maxDist)
  {
    if |reps| > 0 {
      var n := |reps| - 1;
      var front := reps[..n];
      MatchSetsComplete(table, front, maxDist);
      forall i | 0 <= i < |reps| && |Within(table, reps[i].hash, maxDist)| > 1
        ensures Within(table, reps[i].hash, maxDist) in MatchSets(table, reps, maxDist)
      {
        if i < n {
          assert front[i] == reps[i];
        }
      }
    }
  }

  /**
   * do_full_search without the progress bar and the printing: search around
   * the hash of each row of reps, keep the results with more than one
   * filename, and merge them.  The groups are a grouping of those match sets.
   * reps stands for the rows of the per-filename query; the result holds for
   * whichever row of each filename the database returns (see
   * RepresentativeRows), and for any other list of rows as well.
   */
  method FullSearch(table: Table, reps: seq<Record>, maxDist: int) returns (groups: seq<set<string>>)
    ensures IsGrouping(MatchSets(table, reps, maxDist), groups)
  {
    var matchList: seq<set<string>> := [];
    var imageCount := 0;
    while imageCount < |reps|
      invariant 0 <= imageCount <= |reps|
      invariant matchList == MatchSets(table, reps[..imageCount], maxDist)
    {
      var refHash := reps[imageCount].hash;
      var matches := SearchSimilarImages(table, refHash, maxDist, [], 0);
      PrefixMatchesEmpty(table, refHash, maxDist);
      if |matches| > 1 {
        matchList := matchList + [matches];
      }
      imageCount := imageCount + 1;
      assert reps[..imageCount][..imageCount - 1] == reps[..imageCount - 1];
    }
    assert reps[..|reps|] == reps;
    groups := MergeSets(matchList);
  }

  /**
   * Two stored images within the budget of each other, one of them a
   * representative, end up in the same group of the full scan.
   */
  lemma NeighboursGrouped(table: Table, reps: seq<Record>, maxDist: int, groups: seq<set<string>>, i: int, other: Record)
    requires RepresentativeRows(table, reps)
    requires IsGrouping(MatchSets(table, reps, maxDist), groups)
    requires 0 <= i < |reps|
    requires other in table && other.filename != reps[i].filename
    requires Distance(other.hash, reps[i].hash) <= maxDist
    ensures exists j :: 0 <= j < |groups| && reps[i].filename in groups[j] && other.filename in groups[j]
  {
    var rep := reps[i];
    var matches := Within(table, rep.hash, maxDist);
    SelfMatch(table, rep, maxDist);
    assert other.filename in matches;
    assert {rep.filename, other.filename} <= matches;
    assert |{rep.filename, other.filename}| == 2;
    SubsetSize({rep.filename, other.filename}, matches);
    MatchSetsComplete(table, reps, maxDist);
    var ms := MatchSets(table, reps, maxDist);
    var k :| 0 <= k < |ms| && ms[k] == matches;
    assert InSomeGroup(ms[k], groups);
  }

  /** Every grouped filename was found by a search that found at least one other filename. */
  lemma GroupedHaveNeighbour(table: Table, reps: seq<Record>, maxDist: int, groups: seq<set<string>>, f: string)
    requires IsGrouping(MatchSets(table, reps, maxDist), groups)
    requires f in Union(groups)
    ensures exists m :: FoundByRepresentative(table, reps, maxDist, m) && f in m
  {
    var ms := MatchSets(table, reps, maxDist);
    MatchSetsSound(table, reps, maxDist);
    var k :| 0 <= k < |ms| && f in ms[k];
    assert FoundByRepresentative(table, reps, maxDist, ms[k]);
  }

  lemma SubsetSize(a: set<string>, b: set<string>)
    requires a <= b
    ensures |a| <= |b|
  {
    assert b == a + (b - a);
  }
}
