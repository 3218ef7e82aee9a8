/** The `naslinks` table as a sequence of rows in scan order (insertion
    order), and what each SQL statement the program issues does to it.
    The class in module Registry runs these step by step; the functions here
    say what the steps add up to, and the lemmas say what that means. */
module Table {
  import opened Wrappers
  import opened Hasher
  import opened Integrity

  /** `filepath.Abs`: a result is never empty, and a result is its own
      canonical form. */
  type Canonicaliser = f: string -> string
    | forall p :: f(p) != "" && f(f(p)) == f(p)
    witness (p: string) => if |p| > 0 && p[0] == '/' then p else "/" + p

  /** One row: `uuid`, `filePath`, `hash`, `size`. */
  datatype Row = Row(id: string, path: string, hash: string, size: int)

  /** The column a query selects on. */
  datatype Key = ById(id: string) | ByPath(path: string)

  predicate Matches(r: Row, key: Key) {
    match key
    case ById(id) => r.id == id
    case ByPath(p) => r.path == p
  }

  /** The index of the last row a `SELECT ... WHERE key` scan delivers. */
  function LastMatch(rows: seq<Row>, key: Key): (found: Option<nat>)
    ensures found.Some? ==> found.value < |rows| && Matches(rows[found.value], key)
    ensures found.Some? ==> forall j :: found.value < j < |rows| ==> !Matches(rows[j], key)
    ensures found.None? <==> forall j :: 0 <= j < |rows| ==> !Matches(rows[j], key)
  {
    if rows == [] then None
    else if Matches(rows[|rows| - 1], key) then Some(|rows| - 1)
    else LastMatch(rows[..|rows| - 1], key)
  }

  /** `getNasLink`'s answer when it reports the link found: the last row with
      the identifier, provided its path is not empty. */
  function Lookup(rows: seq<Row>, id: string): (found: Option<Row>)
    ensures found.Some? ==> found.value in rows && found.value.id == id && found.value.path != ""
  {
    match LastMatch(rows, ById(id))
    case None => None
    case Some(k) => if rows[k].path != "" then Some(rows[k]) else None
  }

  /** `linkExists`: the identifier of the last row for the path, "" if none. */
  function LinkId(rows: seq<Row>, path: string): string {
    match LastMatch(rows, ByPath(path))
    case None => ""
    case Some(k) => rows[k].id
  }

  /** `DELETE FROM naslinks WHERE uuid = id`. */
  function Without(rows: seq<Row>, id: string): (kept: seq<Row>)
    ensures |kept| <= |rows|
  {
    if rows == [] then []
    else (if rows[0].id == id then [] else [rows[0]]) + Without(rows[1..], id)
  }

  /** The table after `deleteLink` on the canonical path `path`: the rows
      carrying the identifier `linkExists` finds are removed; nothing
      happens when it finds none. */
  function Deleted(rows: seq<Row>, path: string): seq<Row> {
    var id := LinkId(rows, path);
    if id == "" then rows else Without(rows, id)
  }

  /** The table every sequence of registrations produces: identifiers are
      non-empty and distinct, at most one row per path, every path
      canonical. */
  ghost predicate WellFormed(rows: seq<Row>, abs: Canonicaliser) {
    && (forall i :: 0 <= i < |rows| ==> rows[i].id != "" && abs(rows[i].path) == rows[i].path)
    && (forall i, j :: 0 <= i < j < |rows| ==> rows[i].id != rows[j].id && rows[i].path != rows[j].path)
  }

  /** The row passes `integrityCheck` on `fs`. */
  predicate Passes(fs: FileSystem, digest: DigestFn, r: Row) {
    IntegrityCheck(fs, digest, r.path, r.hash, r.size)
  }

  /** The rows that pass the integrity check, in table order. */
  function KeepIntact(rows: seq<Row>, fs: FileSystem, digest: DigestFn): seq<Row> {
    if rows == [] then []
    else
      var last := rows[|rows| - 1];
      KeepIntact(rows[..|rows| - 1], fs, digest) + (if Passes(fs, digest, last) then [last] else [])
  }

  /** One iteration of `cleanNaslinks` for the scanned row `r`. */
  function CleanStep(table: seq<Row>, r: Row, fs: FileSystem, digest: DigestFn, abs: Canonicaliser): seq<Row> {
    if Passes(fs, digest, r) then table else Deleted(table, abs(r.path))
  }

  /** The table after `cleanNaslinks` has processed the scanned rows
      `scanned`, starting from `table`. */
  function Cleaned(table: seq<Row>, scanned: seq<Row>, fs: FileSystem, digest: DigestFn, abs: Canonicaliser): seq<Row> {
    if scanned == [] then table
    else CleanStep(Cleaned(table, scanned[..|scanned| - 1], fs, digest, abs), scanned[|scanned| - 1], fs, digest, abs)
  }

  // ---------------------------------------------------------------------
  // Deleting by identifier and by path

  /** `DELETE ... WHERE uuid = id` keeps exactly the rows with another
      identifier. */
  lemma {:induction false} WithoutMembers(rows: seq<Row>, id: string)
    ensures forall r :: r in Without(rows, id) <==> r in rows && r.id != id
  {
    if rows != [] {
      WithoutMembers(rows[1..], id);
      assert rows == [rows[0]] + rows[1..];
    }
  }

  /** The filter keeps exactly the rows that pass. */
  lemma {:induction false} KeepIntactMembers(rows: seq<Row>, fs: FileSystem, digest: DigestFn)
    ensures forall r :: r in KeepIntact(rows, fs, digest) <==> r in rows && Passes(fs, digest, r)
  {
    if rows != [] {
      var init := rows[..|rows| - 1];
      KeepIntactMembers(init, fs, digest);
      assert rows == init + [rows[|rows| - 1]];
    }
  }

  /** Deleting an identifier no row carries changes nothing. */
  lemma {:induction false} WithoutAbsent(rows: seq<Row>, id: string)
    requires forall j :: 0 <= j < |rows| ==> rows[j].id != id
    ensures Without(rows, id) == rows
  {
    if rows != [] {
      WithoutAbsent(rows[1..], id);
    }
  }

  /** Deleting an identifier exactly one row carries removes that row and
      keeps the others in order. */
  lemma {:induction false} WithoutOnly(rows: seq<Row>, k: nat)
    requires k < |rows|
    requires forall j :: 0 <= j < |rows| && j != k ==> rows[j].id != rows[k].id
    ensures Without(rows, rows[k].id) == rows[..k] + rows[k + 1..]
  {
    var id, tail := rows[k].id, rows[1..];
    if k == 0 {
      WithoutAbsent(tail, id);
    } else {
      assert tail[k - 1] == rows[k];
      WithoutOnly(tail, k - 1);
      assert Without(rows, id) == [rows[0]] + Without(tail, id);
      assert tail[..k - 1] == rows[1..k];
      assert tail[k..] == rows[k + 1..];
      assert rows[..k] == [rows[0]] + rows[1..k];
    }
  }

  /** Under the one-row-per-path discipline, deleting a path removes exactly
      the row for it. */
  lemma DeletedOnly(rows: seq<Row>, k: nat)
    requires k < |rows| && rows[k].id != ""
    requires forall j :: 0 <= j < |rows| && j != k ==> rows[j].path != rows[k].path && rows[j].id != rows[k].id
    ensures Deleted(rows, rows[k].path) == rows[..k] + rows[k + 1..]
  {
    var found := LastMatch(rows, ByPath(rows[k].path));
    assert found == Some(k);
    WithoutOnly(rows, k);
  }

  /** Deleting a path with no row is a no-op. */
  lemma DeletedAbsent(rows: seq<Row>, path: string)
    requires forall j :: 0 <= j < |rows| ==> rows[j].path != path
    ensures Deleted(rows, path) == rows
  {
  }

  /** Removing one row keeps the table well formed. */
  lemma RemoveAtWellFormed(rows: seq<Row>, abs: Canonicaliser, k: nat)
    requires WellFormed(rows, abs) && k < |rows|
    ensures WellFormed(rows[..k] + rows[k + 1..], abs)
  {
    var rest := rows[..k] + rows[k + 1..];
    assert forall i :: 0 <= i < |rest| ==> rest[i] == rows[if i < k then i else i + 1];
  }

  /** Removing the row of a path from a well-formed table keeps exactly the
      rows for other paths. */
  lemma RemoveAtMembers(rows: seq<Row>, abs: Canonicaliser, k: nat)
    requires WellFormed(rows, abs) && k < |rows|
    ensures forall r :: r in rows[..k] + rows[k + 1..] <==> r in rows && r.path != rows[k].path
  {
    var rest := rows[..k] + rows[k + 1..];
    assert forall i :: 0 <= i < |rest| ==> rest[i] == rows[if i < k then i else i + 1];
    forall r
      ensures r in rest <==> r in rows && r.path != rows[k].path
    {
      if r in rows && r.path != rows[k].path {
        var i :| 0 <= i < |rows| && rows[i] == r;
        assert rest[if i < k then i else i - 1] == r;
      }
    }
  }

  /** Appending a row whose identifier and path are new keeps the table well
      formed. */
  lemma AppendWellFormed(rows: seq<Row>, abs: Canonicaliser, r: Row)
    requires WellFormed(rows, abs)
    requires r.id != "" && abs(r.path) == r.path
    requires forall x <- rows :: x.id != r.id && x.path != r.path
    ensures WellFormed(rows + [r], abs)
  {
    var grown := rows + [r];
    assert forall i :: 0 <= i < |rows| ==> grown[i] == rows[i] && rows[i] in rows;
  }

  /** On a well-formed table, `deleteLink` of a path removes the row for that
      path, if there is one, and nothing else; the table stays well formed. */
  lemma DeletedWellFormed(rows: seq<Row>, abs: Canonicaliser, path: string)
    requires WellFormed(rows, abs)
    ensures WellFormed(Deleted(rows, path), abs)
    ensures forall r :: r in Deleted(rows, path) <==> r in rows && r.path != path
    ensures forall j :: 0 <= j < |Deleted(rows, path)| ==> Deleted(rows, path)[j].path != path
  {
    if k :| 0 <= k < |rows| && rows[k].path == path {
      DeletedOnly(rows, k);
      RemoveAtWellFormed(rows, abs, k);
      RemoveAtMembers(rows, abs, k);
    } else {
      DeletedAbsent(rows, path);
    }
  }

  // ---------------------------------------------------------------------
  // Cleaning

  /** The rows that pass, taken from a well-formed table, form a well-formed
      table. */
  lemma {:induction false} KeepIntactWellFormed(rows: seq<Row>, fs: FileSystem, digest: DigestFn, abs: Canonicaliser)
    requires WellFormed(rows, abs)
    ensures WellFormed(KeepIntact(rows, fs, digest), abs)
  {
    if rows != [] {
      var init, last := rows[..|rows| - 1], rows[|rows| - 1];
      KeepIntactWellFormed(init, fs, digest, abs);
      KeepIntactMembers(init, fs, digest);
      if Passes(fs, digest, last) {
        forall x <- KeepIntact(init, fs, digest)
          ensures x.id != last.id && x.path != last.path
        {
          var i :| 0 <= i < |init| && init[i] == x;
        }
        AppendWellFormed(KeepIntact(init, fs, digest), abs, last);
      }
    }
  }

  /** Deleting the path of the scanned row `rows[n]` from a table made of
      rows scanned before it followed by the unscanned rest removes exactly
      that row. */
  lemma DeleteScanned(rows: seq<Row>, abs: Canonicaliser, kept: seq<Row>, n: nat)
    requires WellFormed(rows, abs) && n < |rows|
    requires forall x <- kept :: x in rows[..n]
    ensures Deleted(kept + rows[n..], rows[n].path) == kept + rows[n + 1..]
  {
    var table, r, k := kept + rows[n..], rows[n], |kept|;
    assert table[k] == r;
    forall j | 0 <= j < |table| && j != k
      ensures table[j].path != r.path && table[j].id != r.id
    {
      if j < k {
        assert table[j] in kept;
        var m :| 0 <= m < n && rows[..n][m] == table[j];
      } else {
        assert table[j] == rows[j - k + n];
      }
    }
    DeletedOnly(table, k);
    assert table[..k] == kept;
    assert table[k + 1..] == rows[n + 1..];
  }

  /** Scanning one more row: the filter grows by that row if it passes. */
  lemma KeepIntactExtend(rows: seq<Row>, fs: FileSystem, digest: DigestFn, n: nat)
    requires n < |rows|
    ensures KeepIntact(rows[..n + 1], fs, digest)
         == KeepIntact(rows[..n], fs, digest) + (if Passes(fs, digest, rows[n]) then [rows[n]] else [])
  {
    var prefix := rows[..n + 1];
    assert prefix[..n] == rows[..n];
  }

  /** Scanning one more row: `cleanNaslinks` takes one more step. */
  lemma CleanedExtend(table: seq<Row>, rows: seq<Row>, fs: FileSystem, digest: DigestFn, abs: Canonicaliser, n: nat)
    requires n < |rows|
    ensures Cleaned(table, rows[..n + 1], fs, digest, abs)
         == CleanStep(Cleaned(table, rows[..n], fs, digest, abs), rows[n], fs, digest, abs)
  {
    var prefix := rows[..n + 1];
    assert prefix[..n] == rows[..n];
  }

  /** A row that passes moves from the unscanned rest to the kept part. */
  lemma PassedStays(kept: seq<Row>, rows: seq<Row>, n: nat)
    requires n < |rows|
    ensures kept + rows[n..] == (kept + [rows[n]]) + rows[n + 1..]
  {
    assert rows[n..] == [rows[n]] + rows[n + 1..];
  }

  /** Once `cleanNaslinks` has processed the first `i` scanned rows of a
      well-formed table, the processed part holds exactly the rows that
      passed and the rest is untouched. */
  lemma {:induction false} CleanedPrefix(rows: seq<Row>, fs: FileSystem, digest: DigestFn, abs: Canonicaliser, i: nat)
    requires WellFormed(rows, abs) && i <= |rows|
    ensures Cleaned(rows, rows[..i], fs, digest, abs) == KeepIntact(rows[..i], fs, digest) + rows[i..]
  {
    if i > 0 {
      var n := i - 1;
      var r := rows[n];
      CleanedPrefix(rows, fs, digest, abs, n);
      CleanedExtend(rows, rows, fs, digest, abs, n);
      KeepIntactExtend(rows, fs, digest, n);
      var kept := KeepIntact(rows[..n], fs, digest);
      KeepIntactMembers(rows[..n], fs, digest);
      var before := Cleaned(rows, rows[..n], fs, digest, abs);
      assert before == kept + rows[n..];
      if Passes(fs, digest, r) {
        PassedStays(kept, rows, n);
        assert KeepIntact(rows[..i], fs, digest) == kept + [r];
      } else {
        assert abs(r.path) == r.path;
        DeleteScanned(rows, abs, kept, n);
        assert kept + [] == kept;
        assert KeepIntact(rows[..i], fs, digest) == kept;
        assert Cleaned(rows, rows[..i], fs, digest, abs) == Deleted(before, r.path);
      }
    }
  }

  /** Given an unchanged file system, `cleanNaslinks` on a well-formed table
      keeps exactly the rows that pass the integrity check. */
  lemma CleanKeepsExactlyIntact(rows: seq<Row>, fs: FileSystem, digest: DigestFn, abs: Canonicaliser)
    requires WellFormed(rows, abs)
    ensures Cleaned(rows, rows, fs, digest, abs) == KeepIntact(rows, fs, digest)
    ensures forall r <- Cleaned(rows, rows, fs, digest, abs) :: Passes(fs, digest, r)
    ensures forall r <- rows :: Passes(fs, digest, r) ==> r in Cleaned(rows, rows, fs, digest, abs)
  {
    CleanedPrefix(rows, fs, digest, abs, |rows|);
    assert rows[..|rows|] == rows;
    KeepIntactMembers(rows, fs, digest);
  }
}
