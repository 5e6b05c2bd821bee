/**
 * The table `images(filename, H0, ..., H7)` as the search reads it: a
 * sequence of records, with the two queries the trie search issues and the
 * query that picks one hash per filename for the full scan.
 */
module HashIndex {
  import opened HashCodec

  /** One row: a filename and one of its (up to four) rotation hashes. */
  datatype Record = Record(filename: string, hash: Hash)

  type Table = seq<Record>

  /** All filenames that occur in the rows. */
  function Filenames(rows: seq<Record>): set<string>
  {
    set r | r in rows :: r.filename
  }

  /**
   * `SELECT DISTINCT H<level> FROM images WHERE H0=? AND ... ` with the
   * prefix as parameters: the byte values found at column |prefix| in the
   * rows whose first |prefix| columns equal the prefix.
   */
  function DistinctAtLevel(table: Table, prefix: seq<Byte>): (values: set<Byte>)
    requires |prefix| < 8
    ensures forall r :: r in table && r.hash[..|prefix|] == prefix ==> r.hash[|prefix|] in values
    ensures forall v :: v in values ==> exists r :: r in table && r.hash[..|prefix|] == prefix && r.hash[|prefix|] == v
  {
    set r | r in table && r.hash[..|prefix|] == prefix :: r.hash[|prefix|]
  }

  /** `SELECT filename FROM images WHERE H0=? AND ... AND H7=?`: the filenames stored with exactly this hash. */
  function ExactLookup(table: Table, hash: Hash): (names: set<string>)
    ensures names <= Filenames(table)
    ensures forall r :: r in table && r.hash == hash ==> r.filename in names
    ensures forall f :: f in names ==> exists r :: r in table && r.hash == hash && r.filename == f
  {
    set r | r in table && r.hash == hash :: r.filename
  }

  /**
   * The rows of `table` whose filename is not in `seen`, keeping only the
   * first row of each filename.
   */
  function FirstPerFilename(table: Table, seen: set<string>): (reps: seq<Record>)
    ensures forall i :: 0 <= i < |reps| ==> reps[i] in table && reps[i].filename !in seen
    ensures forall i, j :: 0 <= i < j < |reps| ==> reps[i].filename != reps[j].filename
    ensures Filenames(reps) == Filenames(table) - seen
  {
    if |table| == 0 then []
    else if table[0].filename in seen then
      assert Filenames(table) == {table[0].filename} + Filenames(table[1..]) by {
        assert table == [table[0]] + table[1..];
      }
      FirstPerFilename(table[1..], seen)
    else
      var rest := FirstPerFilename(table[1..], seen + {table[0].filename});
      assert Filenames(table) == {table[0].filename} + Filenames(table[1..]) by {
        assert table == [table[0]] + table[1..];
      }
      assert Filenames([table[0]] + rest) == {table[0].filename} + Filenames(rest);
      [table[0]] + rest
  }

  /**
   * What the per-filename query may return: table rows, no filename twice,
   * every filename of the table present.  Which row of a filename is chosen
   * is left open.
   */
  predicate RepresentativeRows(table: Table, reps: seq<Record>)
  {
    && (forall i :: 0 <= i < |reps| ==> reps[i] in table)
    && (forall i, j :: 0 <= i < j < |reps| ==> reps[i].filename != reps[j].filename)
    && Filenames(reps) == Filenames(table)
  }

  /**
   * The representative rows of the full scan: exactly one row per distinct
   * filename, each a row of the table.
   */
  function Representatives(table: Table): (reps: seq<Record>)
    ensures RepresentativeRows(table, reps)
  {
    FirstPerFilename(table, {})
  }
}
