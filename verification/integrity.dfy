/** `integrityCheck`: does the live file still match what was recorded for it?
    The checks run in a fixed order and stop at the first that fails; the
    hash, the expensive step, is only reached when the file exists and has
    the recorded size. Nothing is cached and nothing is changed. */
module Integrity {
  import opened Wrappers
  import opened Hasher

  /** The step at which the check decided. */
  datatype Verdict =
    | StatFailed     // os.Stat failed: the file is gone
    | SizeChanged    // the live size differs from the recorded size
    | Unreadable     // hashFile failed
    | HashChanged    // the fingerprint differs from the recorded one
    | Intact

  function Inspect(fs: FileSystem, digest: DigestFn, path: string, hash: string, size: int): (v: Verdict)
    ensures v == StatFailed <==> path !in fs
    ensures v == SizeChanged <==> path in fs && |fs[path]| != size
    ensures v == Intact <==> path in fs && |fs[path]| == size && Fingerprint(fs, digest, path) == Some(hash)
    ensures v != Unreadable
  {
    if path !in fs then StatFailed
    else if |fs[path]| != size then SizeChanged
    else match Fingerprint(fs, digest, path)
      case None => Unreadable
      case Some(current) => if current == hash then Intact else HashChanged
  }

  /** `integrityCheck(path, hash, size)`: true when the file exists, has the
      recorded size and its sampled bytes digest to the recorded hash. */
  function IntegrityCheck(fs: FileSystem, digest: DigestFn, path: string, hash: string, size: int): (ok: bool)
    ensures ok <==> path in fs && |fs[path]| == size && SampleInput(size, fs[path]).Some?
                    && digest(SampleInput(size, fs[path]).value) == hash
  {
    Inspect(fs, digest, path, hash, size) == Intact
  }

  /** What was recorded when a file was registered passes the check as long
      as the file is left alone. */
  lemma RecordedIsIntact(fs: FileSystem, digest: DigestFn, path: string)
    requires path in fs
    ensures Fingerprint(fs, digest, path).Some?
    ensures IntegrityCheck(fs, digest, path, Fingerprint(fs, digest, path).value, |fs[path]|)
  {
  }

  /** A file whose size differs from the recorded size fails without being
      hashed, whatever hash was recorded. */
  lemma ResizedFails(fs: FileSystem, digest: DigestFn, path: string, hash: string, size: int)
    requires path in fs && |fs[path]| != size
    ensures Inspect(fs, digest, path, hash, size) == SizeChanged
    ensures !IntegrityCheck(fs, digest, path, hash, size)
  {
  }

  /** Rewriting one byte of a large file outside the sampled windows goes
      undetected: the verdict is the same as before. */
  lemma UnsampledRewriteUndetected(fs: FileSystem, digest: DigestFn, path: string, hash: string, k: int, b: byte)
    requires path in fs && |fs[path]| > WholeFileLimit
    requires 0 <= k < |fs[path]| && !Sampled(|fs[path]|, k)
    ensures IntegrityCheck(fs[path := fs[path][k := b]], digest, path, hash, |fs[path]|)
        == IntegrityCheck(fs, digest, path, hash, |fs[path]|)
  {
    UnsampledChangeInvisible(|fs[path]|, fs[path], k, b);
  }
}
