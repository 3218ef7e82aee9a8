# naslink: the link registry and its integrity check

naslink hands out short links (`/<uuid>`) to files on a NAS. Each link is a row
`(uuid, filePath, hash, size)` of the `naslinks` table. The hash is a
SHA-256 fingerprint: over the whole file up to 16 MiB, and over three 1 MiB
windows (head, middle, tail) for larger files. A request for a link serves
the file only while it still has the recorded size and fingerprint. A link
whose file changed is deleted and answered with 404. `cleanNaslinks` sweeps
the table the same way.

This project models that core:

- `Hasher`: `hashFile`'s choice of the bytes to hash. `ReadSample` appends
  the chunks one by one and gives up on a short read.
- `Integrity`: `integrityCheck` and the order of its checks.
- `Table`: the table as a sequence of rows in scan order. It defines what
  each query does to that sequence. Its lemmas cover "last row wins" lookup,
  the one-row-per-path invariant and exact cleaning.
- `Paths`: `strings.TrimLeft`, `TrimRight`, `TrimSpace` and `filepath.Base`
  as `ServeHTTP` uses them.
- `Dispatch`: the decision `ServeHTTP` takes for a request path, and
  `start`'s listen address.
- `Registry`: class `NasLink`, whose field `rows` is the table. Its methods
  `GetNasLink`, `LinkExists`, `DeleteLink`, `CreateLink`, `CleanNaslinks`
  and `ServeHTTP` scan and change the table step by step. Each is proved
  against the functions in `Table` and `Dispatch`.

The outside world becomes parameters:

- The file system is a `map<string, seq<byte>>`. A path that is not a key is
  one `os.Stat` cannot find.
- SHA-256 with hex encoding is a function-valued parameter `digest`.
- `filepath.Abs` is a `Canonicaliser`: a function whose results are
  non-empty and are their own canonical form.
- `uuid.New()` is a fresh identifier passed to `CreateLink`. It is required
  to be non-empty and unused in the table.

## Model

| member | source | states |
|---|---|---|
| Hasher.ReadChunk | naslink.go:219-237 | a 1 MiB `ReadAt` delivers at most 1 MiB; it delivers exactly 1 MiB iff the window lies inside the file, and then those bytes |
| Hasher.SampleInput | naslink.go:210-245 | the sampling rule: the whole content up to 16 MiB; above that a sample exists iff all three windows can be read in full, and it is then 3 MiB long |
| Hasher.ReadSample | naslink.go:210-245 | the buffer built chunk by chunk is the sample input: the whole content up to 16 MiB, otherwise the three windows appended in order, and nothing once a read comes back short |
| Hasher.Fingerprint | naslink.go:204-250 | on a file system that does not change while it runs, hashing yields a fingerprint iff the file exists |
| Hasher.HashFile | naslink.go:204-250 | `hashFile` returns the fingerprint of the sample input, and fails iff the path is absent from the file-system map |
| Hasher.WindowsReadableIffNotShrunk | naslink.go:213-237 | for a file over 16 MiB, all three windows read in full iff the content is still at least the reported size |
| Hasher.SnapshotReadsInFull | naslink.go:205-245 | when stat and the reads see the same content, no read is short and a sample exists |
| Hasher.ShortReadFails | naslink.go:219-237 | a large file that shrank below its reported size yields no sample rather than a short buffer |
| Hasher.SmallFileHashedWhole | naslink.go:240-245 | a file of at most 16 MiB is hashed whole |
| Hasher.LargeFileSample | naslink.go:213-238 | for a file over 16 MiB the input is exactly 3 MiB: the windows at 0, size/2 and size-1 MiB, in that order, each inside the file |
| Hasher.UnsampledChangeInvisible | naslink.go:202-203 | rewriting a byte of a large file outside the three windows leaves the hashed input unchanged |
| Hasher.SampledChangeVisible | naslink.go:213-238 | rewriting a byte inside a window changes the hashed input |
| Integrity.Inspect | naslink.go:252-266 | the check stops at the first failing step: stat fails iff the path is missing, size differs iff it exists with another length, intact iff it exists with the recorded size and fingerprint; the `Unreadable` verdict is unreachable, since every path in the map can be read |
| Integrity.IntegrityCheck | naslink.go:252-266 | true iff the file exists, has the recorded size, its sample exists and digests to the recorded hash |
| Integrity.RecordedIsIntact | naslink.go:139-150 | the hash and size recorded at registration pass the check while the file is left alone |
| Integrity.ResizedFails | naslink.go:257-259 | a size change fails the check at the size step, before any hashing, whatever hash was recorded |
| Integrity.UnsampledRewriteUndetected | naslink.go:202-203 | a rewrite of a large file outside the windows does not change the check's answer |
| Table.LastMatch | naslink.go:79-84 | a scan that overwrites its result on every match ends on the last matching row: it matches, no later row matches, and there is none iff no row matches |
| Table.Lookup | naslink.go:69-87 | `getNasLink`'s answer: the last row with the identifier, reported only when its path is non-empty; a reported row is in the table, carries the identifier and has a non-empty path |
| Table.LinkId | naslink.go:156-169 | `linkExists`'s answer: the identifier of the last row for the path, "" if none (definition; `Registry.NasLink.LinkExists` is proved against it) |
| Table.Without | naslink.go:177 | `DELETE ... WHERE uuid = id`: the rows with another identifier, in order; never longer than the table |
| Table.Deleted | naslink.go:171-185 | `deleteLink` on a canonical path: delete every row with the identifier `linkExists` finds, or nothing when it finds none (definition; see `Table.DeletedWellFormed`, `Table.DeletedOnly`, `Table.DeletedAbsent`) |
| Table.WithoutMembers | naslink.go:177 | `DELETE ... WHERE uuid` keeps exactly the rows with another identifier |
| Table.WithoutAbsent | naslink.go:177 | deleting an identifier no row carries changes nothing |
| Table.WithoutOnly | naslink.go:177 | deleting an identifier exactly one row carries removes that row and keeps the rest in order |
| Table.DeletedOnly | naslink.go:171-185 | with distinct non-empty identifiers and one row per path, deleting a row's path removes exactly that row |
| Table.DeletedAbsent | naslink.go:182-184 | deleting a path without a link is a no-op |
| Table.RemoveAtWellFormed | naslink.go:171-185 | removing a row keeps identifiers distinct and one row per path |
| Table.RemoveAtMembers | naslink.go:171-185 | removing a row of a well-formed table keeps exactly the rows of other paths |
| Table.AppendWellFormed | naslink.go:150 | inserting a row with a fresh non-empty identifier and a canonical path without a link keeps a well-formed table well formed |
| Table.DeletedWellFormed | naslink.go:171-185 | on a well-formed table, deleting a path keeps it well formed, keeps exactly the rows for other paths and leaves no row for the path |
| Table.KeepIntact | naslink.go:89-109 | the reference filter: the rows that pass the check, in table order (definition; see `Table.KeepIntactMembers`, `Table.CleanKeepsExactlyIntact`) |
| Table.CleanStep | naslink.go:101-104 | one sweep step: a row that passes leaves the table alone, a failing row has its path deleted (definition) |
| Table.Cleaned | naslink.go:95-105 | the sweep over the scanned rows, step by step in scan order (definition; `Registry.NasLink.CleanNaslinks` is proved to compute it) |
| Table.KeepIntactMembers | naslink.go:89-109 | the filter keeps exactly the rows that pass the check |
| Table.KeepIntactWellFormed | naslink.go:89-109 | the rows that pass, taken from a well-formed table, form a well-formed table |
| Table.DeleteScanned | naslink.go:101-104 | on a well-formed table, during the sweep, deleting the scanned row's path removes exactly that row from the part not yet scanned |
| Table.KeepIntactExtend | naslink.go:95-105 | unfolding step: the filter of the first n+1 rows is the filter of the first n followed by row n if it passes |
| Table.CleanedExtend | naslink.go:95-105 | unfolding step: sweeping the first n+1 rows is one `CleanStep` on row n after sweeping the first n |
| Table.PassedStays | naslink.go:95-105 | sequence identity used by the sweep proof: the kept part followed by rows n.. equals the kept part plus row n, followed by rows n+1.. |
| Table.CleanedPrefix | naslink.go:95-105 | on a well-formed table, after the first i rows are swept, the table is the rows among them that passed, followed by the untouched rest |
| Table.CleanKeepsExactlyIntact | naslink.go:89-109 | on a well-formed table and an unchanged file system, cleaning leaves exactly the rows that pass: every remaining row passes and every passing row remains |
| Paths.TrimLeft | naslink.go:270 | `strings.TrimLeft` returns a suffix whose first character is outside the set |
| Paths.TrimRight | naslink.go:271 | `strings.TrimRight` returns a prefix whose last character is outside the set |
| Paths.TrimLeftOnlyCut | naslink.go:270 | everything `TrimLeft` removes belongs to the set |
| Paths.TrimRightOnlyCut | naslink.go:271 | everything `TrimRight` removes belongs to the set |
| Paths.TrimSpace | naslink.go:272 | `strings.TrimSpace`: both ends trimmed of the 25 characters `unicode.IsSpace` accepts (definition; see `Paths.RequestIdTrimmed`) |
| Paths.RequestId | naslink.go:270-272 | the identifier: leading '/' trimmed, then trailing '/', then white space (definition; see `Paths.RequestIdOfPlain`, `Paths.RequestIdTrimmed`) |
| Paths.TrimmedEnds | naslink.go:270-271 | trimming both ends with the same set leaves neither end in the set |
| Paths.RequestIdTrimmed | naslink.go:270-272 | the identifier read from a URL path has no white space at either end |
| Paths.TrimLeftKeeps | naslink.go:270 | a string whose first character is outside the set is its own `TrimLeft` |
| Paths.TrimRightKeeps | naslink.go:271 | a string whose last character is outside the set is its own `TrimRight` |
| Paths.PlainIdSpaceFree | naslink.go:272 | an identifier with no white space at its ends is its own `TrimSpace` |
| Paths.RequestIdOfSlashed | naslink.go:270-272 | a path that trims to a plain identifier reads as that identifier |
| Paths.RequestIdOfPlain | naslink.go:270-272 | "/<id>" reads as `id` for a plain identifier |
| Paths.RequestIdOfPlainDir | naslink.go:270-272 | "/<id>/" reads as `id` too |
| Paths.AfterLastSlash | naslink.go:287 | the last element is a suffix without '/' and is preceded by '/' or the start |
| Paths.Base | naslink.go:287 | `filepath.Base` is never empty and is "/" or contains no '/' |
| Paths.BaseOfFilePath | naslink.go:287 | a path that contains '/' and does not end in '/' is the prefix before its base name, which ends in '/', followed by that base name |
| Dispatch.Route | naslink.go:268-298 | the `ServeHTTP` decision: a static asset for "favicon.ico" or "logo.png", the index page for "", otherwise `Resolve` (definition; see the `Dispatch` lemmas) |
| Dispatch.Resolve | naslink.go:284-298 | look the identifier up; serve the file under its base name if it passes the check, invalidate the link if not, 404 if not found (definition; see `Dispatch.ServedOnlyWhenIntact`, `Dispatch.ResolveRow`) |
| Dispatch.RoutePlainId | naslink.go:268-293 | a plain identifier that is not a static asset is resolved as itself |
| Dispatch.ServedOnlyWhenIntact | naslink.go:284-290 | a file is served only through the last row with the requested identifier, only while that row passes the check, and under the base name of its path |
| Dispatch.ResolveRow | naslink.go:284-293 | on a well-formed table, requesting a row's identifier serves its file iff the row passes, and invalidates the link otherwise |
| Dispatch.UnknownIdNotFound | naslink.go:284-298 | a plain identifier that is not a static asset and that no row carries is answered with 404 |
| Dispatch.ResolveAfterCreate | naslink.go:128-154 | on a well-formed table, after registering a file, requesting the new identifier serves that file |
| Dispatch.RecreateRetiresOldId | naslink.go:134-137 | on a well-formed table, registering a path again retires its first identifier: it is no longer found |
| Dispatch.GoneAfterDelete | naslink.go:171-185 | on a well-formed table, after deleting a row's path no row carries its identifier |
| Dispatch.ResolveAfterDelete | naslink.go:171-185 | on a well-formed table, after deleting a row's path its identifier is answered with 404 |
| Dispatch.ChangedFileInvalidated | naslink.go:284-293 | on a well-formed table, a file that is missing or whose size changed is invalidated; its link is deleted and the identifier is then not found |
| Dispatch.ListenAddress | naslink.go:111-123 | one option is the port, two are host and port, any other count keeps 0.0.0.0:8080 |
| Registry.NasLink.constructor | naslink.go:65-67 | the server starts from the stored table, which is valid iff the stored rows are well formed |
| Registry.NasLink.GetNasLink | naslink.go:69-87 | returns the fields of the last row with the identifier (empty values if none); found iff that row's path is non-empty |
| Registry.NasLink.LinkExists | naslink.go:156-169 | returns the identifier of the last row for the path, "" if none |
| Registry.NasLink.DeleteLink | naslink.go:171-185 | removes every row with the identifier found for the canonical path and nothing if there is none; on a well-formed table exactly the path's row goes and the table stays well formed |
| Registry.NasLink.CreateLink | naslink.go:128-154 | retires the path's old link, then appends one row with the fresh identifier, the canonical path, its fingerprint and size; fails iff the canonical path is absent from the file-system map, with the old link already gone; on a well-formed table it keeps the table well formed (one row per path) and leaves rows of other paths alone |
| Registry.NasLink.CleanNaslinks | naslink.go:89-109 | sweeps the rows as scanned, deleting the link of each failing row; on a well-formed table the result is exactly the passing rows, in order, and stays well formed |
| Registry.NasLink.ResolveLink | naslink.go:284-298 | looks the identifier up, serves an intact file, and for a changed file deletes the rows carrying the identifier `linkExists` finds for its path; on a well-formed table exactly that file's row goes and the table stays well formed |
| Registry.NasLink.ServeHTTP | naslink.go:268-298 | takes the decision `Route` describes; only an invalidated link changes the table, by deleting its path; on a well-formed table exactly that path's row goes and the table stays well formed |

## Left out

- HTTP is not modelled: `http.ListenAndServe`, `http.ServeFile`, the
  `Content-Disposition` header, status codes and the HTML pages. The model
  stops at the `Decision` value.
- The log lines are not modelled.
- SQLite is not modelled: the driver, the SQL text, the schema and row
  cursors. The table is the row sequence in scan order.
- Store errors are not modelled: failing `Query`, `Scan`, `Exec` or
  `rows.Err`. So `getNasLink`'s early `false` on a query or scan error
  is not represented.
- The model assumes a scan sees rows in insertion order, as the rowid order
  of a table without an index gives.
- `CleanNaslinks` scans the rows as they were when the sweep began. Whether
  SQLite's open cursor would see rows deleted during the scan is not
  modelled. This makes no difference on a well-formed table. Nor is the
  likelier store behaviour: the `DELETE` of `deleteLink` runs on another
  pooled connection while the sweep's `SELECT` cursor is still open, and in
  SQLite's default rollback-journal mode that write can be refused, ending
  the sweep in `log.Fatal` at the first failing row.
- SHA-256 and its hex encoding are a function parameter. Nothing depends on
  what it computes, so hash collisions are not ruled out or considered.
- `uuid.New()` is a fresh identifier supplied by the caller.
- `filepath.Abs` is the `Canonicaliser` parameter. Its failure path (the
  `log.Fatal` when the working directory is unknown) is not modelled.
- `log.Fatal` after a failed `hashFile` or `os.Stat` in `createLink`
  becomes a `None` result. The table is left as the process would leave
  it, with the old link already deleted.
- Each operation sees one snapshot of the file system. A file that changes
  between `os.Stat` and the reads is covered only by `ReadSample`, which
  takes the reported size and the content read separately.
- Sizes are unbounded integers. The `int64` width of `size` never matters
  for lengths of byte sequences.
- Concurrent requests on the same identifier are not modelled.
- A path that `os.Stat` finds but that cannot be opened or read (mode 000,
  a directory, an I/O error) is not represented: every path in the map can
  be read in full. The `os.Open` and `os.ReadFile` failures of `hashFile`
  are therefore not modelled, and `integrityCheck`'s `Unreadable` step is
  unreachable. With such a file Go's `ServeHTTP` deletes the link and
  answers 404, where the model's `Route` would serve it.
- Request paths are sequences of characters. Go's `r.URL.Path` is a byte
  string that can carry invalid UTF-8, which `strings.TrimSpace` decodes
  rune by rune. Such request paths are not represented.
- `filepath.Abs` results are not assumed to be absolute. The model only
  assumes they are non-empty and are their own canonical form.
  `BaseOfFilePath` therefore asks only that the path contain a '/'.
- `main`, command-line parsing, `basePath`, `printUsage` and `showAll` are
  not modelled: they only print or call the core.
- Registry.NasLink.CleanNaslinks: the exact-filter and well-formedness
  guarantees are stated only for a well-formed starting table. On an
  arbitrary table the contract gives the sweep's result as the fold
  `Cleaned`, and the exact-filter property does not hold there, in the
  source as in the model. With two rows for one path, a failing earlier row
  makes `deleteLink` remove the later row (the one `linkExists` finds),
  which may be the row that passes, while the failing row stays.
- `filepath.Base` is the Unix one: there is no volume name and `\` is not
  a separator.
