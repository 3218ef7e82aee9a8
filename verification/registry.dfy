/** The `naslinks` table held by the server (`NasLink`), and the operations
    that read and change it row by row: `getNasLink`, `linkExists`,
    `deleteLink`, `createLink`, `cleanNaslinks` and `ServeHTTP`.

    `abs` stands for `filepath.Abs` and `digest` for SHA-256 with hex
    encoding; the file system is passed to each operation, since it may
    change between operations but not during one. */
module Registry {
  import opened Wrappers
  import opened Hasher
  import opened Integrity
  import opened Table
  import opened Paths
  import opened Dispatch

  class NasLink {
    /** The rows of the table, in the order a scan delivers them. */
    var rows: seq<Row>
    const abs: Canonicaliser
    const digest: DigestFn

    /** The invariant every registration keeps. */
    ghost predicate Valid()
      reads this
    {
      WellFormed(rows, abs)
    }

    /** Opening the store: the table holds whatever earlier runs left. */
    constructor (abs: Canonicaliser, digest: DigestFn, stored: seq<Row>)
      ensures rows == stored && this.abs == abs && this.digest == digest
      ensures Valid() <==> WellFormed(stored, abs)
    {
      this.abs := abs;
      this.digest := digest;
      rows := stored;
    }

    /** `getNasLink(id)`: the fields of the last row with the identifier
        (empty values if there is none), and whether its path is
        non-empty. */
    method GetNasLink(id: string) returns (found: bool, path: string, hash: string, size: int)
      ensures found <==> Lookup(rows, id).Some?
      ensures found ==> Lookup(rows, id) == Some(Row(id, path, hash, size))
      ensures LastMatch(rows, ById(id)).None? ==> path == "" && hash == "" && size == 0
      ensures LastMatch(rows, ById(id)).Some? ==> rows[LastMatch(rows, ById(id)).value] == Row(id, path, hash, size)
    {
      path, hash, size := "", "", 0;
      var i := 0;
      while i < |rows|
        invariant 0 <= i <= |rows|
        invariant LastMatch(rows[..i], ById(id)).None? ==> path == "" && hash == "" && size == 0
        invariant LastMatch(rows[..i], ById(id)).Some? ==> rows[LastMatch(rows[..i], ById(id)).value] == Row(id, path, hash, size)
      {
        assert rows[..i + 1][..i] == rows[..i];
        if rows[i].id == id {
          path, hash, size := rows[i].path, rows[i].hash, rows[i].size;
        }
        i := i + 1;
      }
      assert rows[..i] == rows;
      found := path != "";
    }

    /** `linkExists(path)`: the identifier of the last row for the path, ""
        if there is none. */
    method LinkExists(path: string) returns (id: string)
      ensures LastMatch(rows, ByPath(path)).None? ==> id == ""
      ensures LastMatch(rows, ByPath(path)).Some? ==> id == rows[LastMatch(rows, ByPath(path)).value].id
      ensures id == LinkId(rows, path)
    {
      id := "";
      var i := 0;
      while i < |rows|
        invariant 0 <= i <= |rows|
        invariant LastMatch(rows[..i], ByPath(path)).None? ==> id == ""
        invariant LastMatch(rows[..i], ByPath(path)).Some? ==> id == rows[LastMatch(rows[..i], ByPath(path)).value].id
      {
        assert rows[..i + 1][..i] == rows[..i];
        if rows[i].path == path {
          id := rows[i].id;
        }
        i := i + 1;
      }
      assert rows[..i] == rows;
    }

    /** `deleteLink(path)`: canonicalise, find the link for the path and
        delete every row with its identifier; a path without a link leaves
        the table alone. On a valid table exactly the row for the path
        goes. */
    method DeleteLink(path: string)
      modifies this
      ensures rows == Deleted(old(rows), abs(path))
      ensures old(Valid()) ==> Valid()
      ensures old(Valid()) ==> forall r :: r in rows <==> r in old(rows) && r.path != abs(path)
      ensures (forall r <- old(rows) :: r.path != abs(path)) ==> rows == old(rows)
    {
      var p := abs(path);
      var id := LinkExists(p);
      if id != "" {
        rows := Without(rows, id);
      }
      if old(Valid()) {
        DeletedWellFormed(old(rows), abs, p);
      }
      if forall r <- old(rows) :: r.path != p {
        assert forall j :: 0 <= j < |old(rows)| ==> old(rows)[j] in old(rows);
        DeletedAbsent(old(rows), p);
      }
    }

    /** `createLink(path)` with `newId` as the fresh identifier
        `uuid.New()` draws: canonicalise, retire any link the path already
        has, hash the file and append the new row. When hashing fails
        nothing is appended, but the old link is already gone. */
    method CreateLink(path: string, fs: FileSystem, newId: string) returns (created: Option<string>)
      requires newId != "" && forall r <- rows :: r.id != newId
      modifies this
      ensures var p := abs(path);
        created.None? <==> p !in fs
      ensures var p := abs(path);
        p !in fs ==> rows == Deleted(old(rows), p)
      ensures var p := abs(path);
        p in fs ==> (created == Some(newId)
          && rows == Deleted(old(rows), p) + [Row(newId, p, Fingerprint(fs, digest, p).value, |fs[p]|)])
      ensures old(Valid()) ==> Valid()
      ensures old(Valid()) ==> forall r :: r in rows && r.path != abs(path) <==> r in old(rows) && r.path != abs(path)
    {
      var p := abs(path);
      var existing := LinkExists(p);
      if existing != "" {
        DeleteLink(p);
      }
      assert rows == Deleted(old(rows), p);
      var hash := HashFile(fs, digest, p);
      if hash.None? {
        if old(Valid()) {
          DeletedWellFormed(old(rows), abs, p);
        }
        return None;
      }
      var row := Row(newId, p, hash.value, |fs[p]|);
      ghost var cleared := rows;
      rows := rows + [row];
      created := Some(newId);
      if old(Valid()) {
        DeletedWellFormed(old(rows), abs, p);
        forall x <- cleared
          ensures x.id != newId && x.path != p
        {
          var j :| 0 <= j < |cleared| && cleared[j] == x;
        }
        AppendWellFormed(cleared, abs, row);
      }
    }

    /** `cleanNaslinks`: scan the table and delete the link of every row
        that fails the integrity check. On a valid table and an unchanged
        file system exactly the rows that pass remain. */
    method CleanNaslinks(fs: FileSystem)
      modifies this
      ensures rows == Cleaned(old(rows), old(rows), fs, digest, abs)
      ensures old(Valid()) ==> Valid() && rows == KeepIntact(old(rows), fs, digest)
      ensures old(Valid()) ==> forall r :: r in rows <==> r in old(rows) && Passes(fs, digest, r)
    {
      var scanned := rows;
      var i := 0;
      while i < |scanned|
        invariant 0 <= i <= |scanned| && scanned == old(rows)
        invariant rows == Cleaned(scanned, scanned[..i], fs, digest, abs)
      {
        var r := scanned[i];
        CleanedExtend(scanned, scanned, fs, digest, abs, i);
        if !IntegrityCheck(fs, digest, r.path, r.hash, r.size) {
          DeleteLink(r.path);
        }
        i := i + 1;
      }
      assert scanned[..i] == scanned;
      if old(Valid()) {
        CleanKeepsExactlyIntact(scanned, fs, digest, abs);
        KeepIntactWellFormed(scanned, fs, digest, abs);
        KeepIntactMembers(scanned, fs, digest);
      }
    }

    /** The request path's work once the identifier is known: look the
        link up, serve it if its file is intact, delete it if not. */
    method ResolveLink(id: string, fs: FileSystem) returns (d: Decision)
      modifies this
      ensures d == Resolve(old(rows), fs, digest, id)
      ensures d.Invalidated? ==> rows == Deleted(old(rows), abs(d.path))
      ensures !d.Invalidated? ==> rows == old(rows)
      ensures old(Valid()) ==> Valid()
      ensures old(Valid()) && d.Invalidated? ==> forall r :: r in rows <==> r in old(rows) && r.path != d.path
    {
      var valid, path, hash, size := GetNasLink(id);
      if !valid {
        return NotFound;
      }
      assert Lookup(rows, id) == Some(Row(id, path, hash, size));
      if IntegrityCheck(fs, digest, path, hash, size) {
        return Serve(path, Base(path));
      }
      if Valid() {
        assert abs(path) == path by {
          assert rows[LastMatch(rows, ById(id)).value].path == path;
        }
      }
      DeleteLink(path);
      return Invalidated(path);
    }

    /** `ServeHTTP` for the request path `urlPath`: the decision `Route`
        describes; a link that fails its check is deleted, and every other
        request leaves the table as it was. */
    method ServeHTTP(urlPath: string, fs: FileSystem) returns (d: Decision)
      modifies this
      ensures d == Route(old(rows), fs, digest, urlPath)
      ensures d.Invalidated? ==> rows == Deleted(old(rows), abs(d.path))
      ensures !d.Invalidated? ==> rows == old(rows)
      ensures old(Valid()) ==> Valid()
      ensures old(Valid()) && d.Invalidated? ==> forall r :: r in rows <==> r in old(rows) && r.path != d.path
    {
      var id := RequestId(urlPath);
      if id in StaticAssets {
        return StaticAsset(id);
      }
      if id == "" {
        return IndexPage;
      }
      d := ResolveLink(id, fs);
    }
  }
}
