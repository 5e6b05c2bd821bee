/**
 * The branch-and-bound walk of `search_similar_images` over the eight-level
 * byte trie formed by the columns H0..H7, proved against the plain
 * specification "every filename stored with a hash within the budget".
 */
module SimilaritySearch {
  import opened HashCodec
  import opened HashIndex

  /** The specification: filenames of all rows whose hash is within maxDist of refHash. */
  function Within(table: Table, refHash: Hash, maxDist: int): (names: set<string>)
    ensures names <= Filenames(table)
    ensures maxDist < 0 ==> names == {}
    ensures maxDist >= 64 ==> names == Filenames(table)
  {
    set r | r in table && Distance(r.hash, refHash) <= maxDist :: r.filename
  }

  /** Filenames of the rows within budget whose hash starts with prefix. */
  function PrefixMatches(table: Table, refHash: Hash, maxDist: int, prefix: seq<Byte>): set<string>
    requires |prefix| <= 8
  {
    set r | r in table && r.hash[..|prefix|] == prefix && Distance(r.hash, refHash) <= maxDist :: r.filename
  }

  /** Filenames of the rows within budget that start with prefix and continue with one of values. */
  function BranchMatches(table: Table, refHash: Hash, maxDist: int, prefix: seq<Byte>, values: set<Byte>): set<string>
    requires |prefix| < 8
  {
    set r | r in table && r.hash[..|prefix|] == prefix && r.hash[|prefix|] in values
              && Distance(r.hash, refHash) <= maxDist :: r.filename
  }

  /** The empty prefix (the search's default arguments) selects every row. */
  lemma PrefixMatchesEmpty(table: Table, refHash: Hash, maxDist: int)
    ensures PrefixMatches(table, refHash, maxDist, []) == Within(table, refHash, maxDist)
  {
  }

  /** Branching on the distinct values at the next column loses no row. */
  lemma BranchesCover(table: Table, refHash: Hash, maxDist: int, prefix: seq<Byte>)
    requires |prefix| < 8
    ensures BranchMatches(table, refHash, maxDist, prefix, DistinctAtLevel(table, prefix))
         == PrefixMatches(table, refHash, maxDist, prefix)
  {
  }

  /** Adding one value to the explored branches adds that branch's rows. */
  lemma BranchesAdd(table: Table, refHash: Hash, maxDist: int, prefix: seq<Byte>, done: set<Byte>, v: Byte)
    requires |prefix| < 8
    ensures BranchMatches(table, refHash, maxDist, prefix, done + {v})
         == BranchMatches(table, refHash, maxDist, prefix, done) + PrefixMatches(table, refHash, maxDist, prefix + [v])
  {
  }

  /** Every row below a prefix is at least as far from the reference as the prefix itself. */
  lemma PrefixBound(refHash: Hash, prefix: seq<Byte>, r: Record)
    requires |prefix| <= 8
    requires r.hash[..|prefix|] == prefix
    ensures Distance(prefix, refHash[..|prefix|]) <= Distance(r.hash, refHash)
  {
    DistancePrefix(r.hash, refHash, |prefix|);
  }

  /** A prefix already over budget has no rows within budget below it: pruning is safe. */
  lemma {:induction false} PruneSafe(table: Table, refHash: Hash, maxDist: int, prefix: seq<Byte>)
    requires |prefix| <= 8
    requires Distance(prefix, refHash[..|prefix|]) > maxDist
    ensures PrefixMatches(table, refHash, maxDist, prefix) == {}
  {
    forall r | r in table && r.hash[..|prefix|] == prefix
      ensures Distance(r.hash, refHash) > maxDist
    {
      PrefixBound(refHash, prefix, r);
    }
  }

  /** At the last level the candidate is a whole hash: its rows are the exact-match rows. */
  lemma LeafMatches(table: Table, refHash: Hash, maxDist: int, hash: Hash)
    requires Distance(hash, refHash) <= maxDist
    ensures PrefixMatches(table, refHash, maxDist, hash) == ExactLookup(table, hash)
  {
  }

  /**
   * search_similar_images: at level |candHash| list the distinct bytes of the
   * next column below the candidate prefix and explore each of them
   * (SearchBranch).  The result is exactly the set of filenames within budget
   * below the candidate prefix.
   */
  method SearchSimilarImages(table: Table, refHash: Hash, maxDist: int, candHash: seq<Byte>, candDist: nat)
    returns (matches: set<string>)
    requires |candHash| < 8
    requires candDist == Distance(candHash, refHash[..|candHash|])
    ensures matches == PrefixMatches(table, refHash, maxDist, candHash)
    decreases 8 - |candHash|, 1
  {
    var hashBytes := DistinctAtLevel(table, candHash);
    var remaining := hashBytes;
    matches := {};
    while remaining != {}
      invariant remaining <= hashBytes
      invariant matches == BranchMatches(table, refHash, maxDist, candHash, hashBytes - remaining)
      decreases remaining
    {
      var hashByte :| hashByte in remaining;
      ghost var done := hashBytes - remaining;
      remaining := remaining - {hashByte};
      assert hashBytes - remaining == done + {hashByte};
      BranchesAdd(table, refHash, maxDist, candHash, done, hashByte);
      var found := SearchBranch(table, refHash, maxDist, candHash, candDist, hashByte);
      matches := matches + found;
    }
    BranchesCover(table, refHash, maxDist, candHash);
  }

  /**
   * The body of the search's loop for one byte of the next column: add the
   * byte's differing bits to the candidate distance, drop the byte when that
   * goes over maxDist, otherwise recurse below it or, at the last level,
   * collect the filenames stored with the completed hash.
   */
  method SearchBranch(table: Table, refHash: Hash, maxDist: int, candHash: seq<Byte>, candDist: nat, hashByte: Byte)
    returns (found: set<string>)
    requires |candHash| < 8
    requires candDist == Distance(candHash, refHash[..|candHash|])
    ensures found == PrefixMatches(table, refHash, maxDist, candHash + [hashByte])
    decreases 8 - |candHash|, 0
  {
    var hashLevel := |candHash|;
    var newCandDist := ByteDistance(hashByte, refHash[hashLevel], candDist);
    var newCandHash := candHash + [hashByte];
    assert refHash[..hashLevel + 1] == refHash[..hashLevel] + [refHash[hashLevel]];
    DistanceExtend(candHash, refHash[..hashLevel], hashByte, refHash[hashLevel]);
    if newCandDist <= maxDist {
      if hashLevel < 7 {
        found := SearchSimilarImages(table, refHash, maxDist, newCandHash, newCandDist);
      } else {
        assert refHash[..8] == refHash;
        LeafMatches(table, refHash, maxDist, newCandHash);
        found := ExactLookup(table, newCandHash);
      }
    } else {
      PruneSafe(table, refHash, maxDist, newCandHash);
      found := {};
    }
  }

  // ----- properties of the specification -----

  /** For any budget of 0 or more, a row's own filename is among the results for its hash. */
  lemma SelfMatch(table: Table, r: Record, maxDist: int)
    requires r in table && maxDist >= 0
    ensures r.filename in Within(table, r.hash, maxDist)
  {
    DistanceZero(r.hash, r.hash);
  }

  /** With a budget of zero the search finds exactly the rows holding the reference hash. */
  lemma {:induction false} WithinZero(table: Table, refHash: Hash)
    ensures Within(table, refHash, 0) == ExactLookup(table, refHash)
  {
    forall r | r in table
      ensures Distance(r.hash, refHash) <= 0 <==> r.hash == refHash
    {
      DistanceZero(r.hash, refHash);
    }
  }

  /** A larger budget never loses a result. */
  lemma WithinMonotone(table: Table, refHash: Hash, d1: int, d2: int)
    requires d1 <= d2
    ensures Within(table, refHash, d1) <= Within(table, refHash, d2)
  {
  }

  /** Two rows within budget of each other each find the other: the relation is symmetric. */
  lemma WithinSymmetric(table: Table, a: Record, b: Record, maxDist: int)
    requires a in table && b in table
    requires Distance(a.hash, b.hash) <= maxDist
    ensures b.filename in Within(table, a.hash, maxDist)
    ensures a.filename in Within(table, b.hash, maxDist)
  {
    DistanceSymmetric(a.hash, b.hash);
  }

  // ----- a worked example -----

  /** Two hashes that agree on their first seven bytes differ only by the last byte's bits. */
  lemma DistanceLastByte(a: Hash, b: Hash)
    requires a[..7] == b[..7]
    ensures Distance(a, b) == PopCount(Xor(a[7], b[7]))
  {
    DistanceZero(a[..7], b[..7]);
  }

  function ExampleTable(): Table
  {
    [Record("a", [0, 0, 0, 0, 0, 0, 0, 0]), Record("b", [0, 0, 0, 0, 0, 0, 0, 1]),
     Record("c", [0, 0, 0, 0, 0, 0, 0, 255])]
  }

  lemma ExampleDistances()
    ensures Distance(ExampleTable()[0].hash, ExampleTable()[0].hash) == 0
    ensures Distance(ExampleTable()[1].hash, ExampleTable()[0].hash) == 1
    ensures Distance(ExampleTable()[2].hash, ExampleTable()[0].hash) == 8
  {
    var t := ExampleTable();
    DistanceLastByte(t[0].hash, t[0].hash);
    DistanceLastByte(t[1].hash, t[0].hash);
    DistanceLastByte(t[2].hash, t[0].hash);
    assert Xor(1, 0) == 1;
    assert Xor(255, 0) == 255;
    assert PopCount(255) == 8;
  }

  /**
   * Images "a", "b" and "c" stored with hashes 0x0000000000000000,
   * 0x0000000000000001 and 0x00000000000000ff: around the zero hash a budget
   * of 0 finds "a", a budget of 1 adds "b", and a budget of 8 finds all three.
   */
  lemma ThreeImageExample()
    ensures Within(ExampleTable(), ExampleTable()[0].hash, 0) == {"a"}
    ensures Within(ExampleTable(), ExampleTable()[0].hash, 1) == {"a", "b"}
    ensures Within(ExampleTable(), ExampleTable()[0].hash, 8) == {"a", "b", "c"}
  {
    var t := ExampleTable();
    ExampleDistances();
    forall d | d in {0, 1, 8}
      ensures Within(t, t[0].hash, d) == (set i | 0 <= i < 3 && Distance(t[i].hash, t[0].hash) <= d :: t[i].filename)
    {
      forall r | r in t ensures exists i :: 0 <= i < 3 && t[i] == r {
        var i :| 0 <= i < |t| && t[i] == r;
      }
    }
  }
}
