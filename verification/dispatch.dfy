/** What `ServeHTTP` decides for a request path, and what `start` listens
    on. The decision is a value; writing the response (the page, the file,
    the headers, the log line) is left to the transport. */
module Dispatch {
  import opened Wrappers
  import opened Hasher
  import opened Integrity
  import opened Table
  import opened Paths

  /** The two images served from the program's own directory. */
  const StaticAssets: set<string> := {"favicon.ico", "logo.png"}

  datatype Decision =
    | StaticAsset(name: string)                 // images/<name>
    | IndexPage                                 // the welcome page
    | Serve(path: string, filename: string)     // the file, as an attachment named `filename`
    | Invalidated(path: string)                 // the link failed its check and was deleted; 404
    | NotFound                                  // 404

  /** The decision `ServeHTTP` takes for `urlPath` against the table `rows`
      and the file system `fs`. */
  function Route(rows: seq<Row>, fs: FileSystem, digest: DigestFn, urlPath: string): Decision {
    var id := RequestId(urlPath);
    if id in StaticAssets then StaticAsset(id)
    else if id == "" then IndexPage
    else Resolve(rows, fs, digest, id)
  }

  /** The decision for a link identifier: look it up, check the file it
      names, serve or invalidate. */
  function Resolve(rows: seq<Row>, fs: FileSystem, digest: DigestFn, id: string): Decision {
    match Lookup(rows, id)
    case None => NotFound
    case Some(r) =>
      if IntegrityCheck(fs, digest, r.path, r.hash, r.size) then Serve(r.path, Base(r.path))
      else Invalidated(r.path)
  }

  /** A plain identifier requested as "/<id>" is resolved as itself. */
  lemma RoutePlainId(rows: seq<Row>, fs: FileSystem, digest: DigestFn, id: string)
    requires PlainId(id) && id !in StaticAssets
    ensures Route(rows, fs, digest, "/" + id) == Resolve(rows, fs, digest, id)
  {
    RequestIdOfPlain(id);
  }

  /** A file is served only through the last row carrying the requested
      identifier, only while that row passes the integrity check, and under
      the last element of its path. */
  lemma ServedOnlyWhenIntact(rows: seq<Row>, fs: FileSystem, digest: DigestFn, urlPath: string)
    requires Route(rows, fs, digest, urlPath).Serve?
    ensures var d := Route(rows, fs, digest, urlPath);
      exists k :: 0 <= k < |rows| && rows[k].id == RequestId(urlPath) && rows[k].path == d.path
        && (forall j :: k < j < |rows| ==> rows[j].id != rows[k].id)
        && Passes(fs, digest, rows[k]) && d.filename == Base(d.path)
        && (d.filename == "/" || '/' !in d.filename)
  {
    var id, d := RequestId(urlPath), Route(rows, fs, digest, urlPath);
    assert id !in StaticAssets && id != "";
    assert d == Resolve(rows, fs, digest, id);
    var found := LastMatch(rows, ById(id));
    assert found.Some?;
    var k := found.value;
    var r := rows[k];
    assert Lookup(rows, id) == Some(r);
    assert d == Serve(r.path, Base(r.path)) && Passes(fs, digest, r);
    assert forall j :: k < j < |rows| ==> rows[j].id != r.id;
    assert d.filename == "/" || '/' !in d.filename;
    assert 0 <= k < |rows| && rows[k].id == id && rows[k].path == d.path
        && (forall j :: k < j < |rows| ==> rows[j].id != rows[k].id)
        && Passes(fs, digest, rows[k]) && d.filename == Base(d.path)
        && (d.filename == "/" || '/' !in d.filename);
  }

  /** On a well-formed table, requesting a row's identifier serves its file
      when the file is intact and invalidates the link otherwise. */
  lemma ResolveRow(rows: seq<Row>, abs: Canonicaliser, fs: FileSystem, digest: DigestFn, k: nat)
    requires WellFormed(rows, abs) && k < |rows|
    requires PlainId(rows[k].id) && rows[k].id !in StaticAssets
    ensures Route(rows, fs, digest, "/" + rows[k].id)
         == if Passes(fs, digest, rows[k]) then Serve(rows[k].path, Base(rows[k].path))
            else Invalidated(rows[k].path)
  {
    RoutePlainId(rows, fs, digest, rows[k].id);
    assert LastMatch(rows, ById(rows[k].id)) == Some(k);
    assert abs(rows[k].path) == rows[k].path;
  }

  /** An identifier no row carries is not found, and nothing is
      invalidated. */
  lemma UnknownIdNotFound(rows: seq<Row>, fs: FileSystem, digest: DigestFn, id: string)
    requires PlainId(id) && id !in StaticAssets
    requires forall r <- rows :: r.id != id
    ensures Route(rows, fs, digest, "/" + id) == NotFound
  {
    RoutePlainId(rows, fs, digest, id);
  }

  /** Registering a file and then requesting the new identifier serves that
      file. */
  lemma ResolveAfterCreate(rows: seq<Row>, abs: Canonicaliser, fs: FileSystem, digest: DigestFn, path: string, newId: string)
    requires WellFormed(rows, abs) && abs(path) in fs
    requires PlainId(newId) && newId !in StaticAssets && forall r <- rows :: r.id != newId
    ensures var p := abs(path);
      var after := Deleted(rows, p) + [Row(newId, p, Fingerprint(fs, digest, p).value, |fs[p]|)];
      Route(after, fs, digest, "/" + newId) == Serve(p, Base(p))
  {
    var p := abs(path);
    var row := Row(newId, p, Fingerprint(fs, digest, p).value, |fs[p]|);
    DeletedWellFormed(rows, abs, p);
    var cleared := Deleted(rows, p);
    var after := cleared + [row];
    forall x <- cleared
      ensures x.id != newId && x.path != p
    {
      var j :| 0 <= j < |cleared| && cleared[j] == x;
    }
    AppendWellFormed(cleared, abs, row);
    RecordedIsIntact(fs, digest, p);
    assert after[|after| - 1] == row;
    ResolveRow(after, abs, fs, digest, |after| - 1);
  }

  /** Registering the same path again retires the first identifier: it is
      no longer found. */
  lemma RecreateRetiresOldId(rows: seq<Row>, abs: Canonicaliser, fs: FileSystem, digest: DigestFn, k: nat, newId: string)
    requires WellFormed(rows, abs) && k < |rows| && rows[k].path in fs
    requires PlainId(rows[k].id) && rows[k].id !in StaticAssets
    requires newId != "" && forall r <- rows :: r.id != newId
    ensures var p := rows[k].path;
      var after := Deleted(rows, p) + [Row(newId, p, Fingerprint(fs, digest, p).value, |fs[p]|)];
      Route(after, fs, digest, "/" + rows[k].id) == NotFound
  {
    var p := rows[k].path;
    var after := Deleted(rows, p) + [Row(newId, p, Fingerprint(fs, digest, p).value, |fs[p]|)];
    GoneAfterDelete(rows, abs, k);
    assert rows[k] in rows;
    UnknownIdNotFound(after, fs, digest, rows[k].id);
  }

  /** After `deleteLink` of a row's path no row carries its identifier. */
  lemma GoneAfterDelete(rows: seq<Row>, abs: Canonicaliser, k: nat)
    requires WellFormed(rows, abs) && k < |rows|
    ensures forall r <- Deleted(rows, rows[k].path) :: r.id != rows[k].id
  {
    DeletedOnly(rows, k);
    var rest := rows[..k] + rows[k + 1..];
    forall r <- rest
      ensures r.id != rows[k].id
    {
      var j :| 0 <= j < |rest| && rest[j] == r;
      assert r == rows[if j < k then j else j + 1];
    }
  }

  /** Deleting a registered path makes its identifier not found. */
  lemma ResolveAfterDelete(rows: seq<Row>, abs: Canonicaliser, fs: FileSystem, digest: DigestFn, k: nat)
    requires WellFormed(rows, abs) && k < |rows|
    requires PlainId(rows[k].id) && rows[k].id !in StaticAssets
    ensures Route(Deleted(rows, rows[k].path), fs, digest, "/" + rows[k].id) == NotFound
  {
    GoneAfterDelete(rows, abs, k);
    UnknownIdNotFound(Deleted(rows, rows[k].path), fs, digest, rows[k].id);
  }

  /** A file that changed after registration (here: changed size) is
      invalidated on request; once the link is deleted, the identifier is
      not found again and no row of the table names it. */
  lemma ChangedFileInvalidated(rows: seq<Row>, abs: Canonicaliser, fs: FileSystem, digest: DigestFn, k: nat)
    requires WellFormed(rows, abs) && k < |rows|
    requires PlainId(rows[k].id) && rows[k].id !in StaticAssets
    requires rows[k].path !in fs || |fs[rows[k].path]| != rows[k].size
    ensures Route(rows, fs, digest, "/" + rows[k].id) == Invalidated(rows[k].path)
    ensures forall r <- Deleted(rows, abs(rows[k].path)) :: r.id != rows[k].id
    ensures Route(Deleted(rows, abs(rows[k].path)), fs, digest, "/" + rows[k].id) == NotFound
  {
    ResolveRow(rows, abs, fs, digest, k);
    assert abs(rows[k].path) == rows[k].path;
    ResolveAfterDelete(rows, abs, fs, digest, k);
    GoneAfterDelete(rows, abs, k);
  }

  const DefaultHost: string := "0.0.0.0"
  const DefaultPort: string := "8080"

  /** `start`'s listen address: one option is the port, two are host and
      port; any other number of options leaves both at their defaults. */
  function ListenAddress(options: seq<string>): (addr: string)
    ensures |options| == 1 ==> addr == DefaultHost + ":" + options[0]
    ensures |options| == 2 ==> addr == options[0] + ":" + options[1]
    ensures |options| != 1 && |options| != 2 ==> addr == DefaultHost + ":" + DefaultPort
  {
    var host := if |options| == 2 then options[0] else DefaultHost;
    var port := if |options| == 1 then options[0] else if |options| == 2 then options[1] else DefaultPort;
    host + ":" + port
  }
}
