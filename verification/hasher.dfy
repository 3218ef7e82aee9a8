/** The fingerprint of a file: the whole content for files up to 16 MiB, and
    three 1 MiB windows (head, middle, tail) for larger ones.

    The file system is a map from path to content; a path that is not a key
    is one that `os.Stat` cannot find. SHA-256 with hex encoding is a
    function-valued parameter `digest`: nothing below depends on what it
    computes. */
module Hasher {
  import opened Wrappers

  newtype byte = b: int | 0 <= b < 256

  type FileSystem = map<string, seq<byte>>

  /** SHA-256 of the bytes, rendered as lower-case hex. */
  type DigestFn = seq<byte> -> string

  const MEGABYTE: nat := 1024 * 1024

  /** Files of at most this many bytes are hashed whole. */
  const WholeFileLimit: nat := 16 * MEGABYTE

  /** `file.ReadAt(buf, off)` with a 1 MiB buffer, on a file whose content is
      `content`: the bytes delivered, which fall short of 1 MiB exactly when
      the window does not lie inside the file. */
  function ReadChunk(content: seq<byte>, off: int): (chunk: seq<byte>)
    ensures |chunk| <= MEGABYTE
    ensures |chunk| == MEGABYTE <==> Readable(content, off)
    ensures |chunk| == MEGABYTE ==> chunk == Window(content, off)
  {
    if off < 0 || |content| <= off then []
    else if off + MEGABYTE <= |content| then content[off..off + MEGABYTE]
    else content[off..]
  }

  /** The 1 MiB window at `off` lies inside `content`. */
  predicate Readable(content: seq<byte>, off: int) {
    0 <= off && off + MEGABYTE <= |content|
  }

  function Window(content: seq<byte>, off: int): seq<byte>
    requires Readable(content, off)
  {
    content[off..off + MEGABYTE]
  }

  /** Every one of the three sample windows of a file whose size was reported
      as `size` can be read in full from `content`. */
  predicate WindowsReadable(size: int, content: seq<byte>) {
    Readable(content, 0) && Readable(content, size / 2) && Readable(content, size - MEGABYTE)
  }

  /** The bytes that are hashed, given the size `os.Stat` reported and the
      content the reads then see; None when a sample read comes back short. */
  function SampleInput(size: int, content: seq<byte>): (input: Option<seq<byte>>)
    ensures size > WholeFileLimit ==> (input.Some? <==> WindowsReadable(size, content))
    ensures size > WholeFileLimit && input.Some? ==> |input.value| == 3 * MEGABYTE
  {
    if size <= WholeFileLimit then Some(content)
    else if WindowsReadable(size, content) then
      Some(Window(content, 0) + Window(content, size / 2) + Window(content, size - MEGABYTE))
    else None
  }

  /** The fingerprint `hashFile` produces for `path` on a file system that
      does not change while it runs. */
  function Fingerprint(fs: FileSystem, digest: DigestFn, path: string): (h: Option<string>)
    ensures h.Some? <==> path in fs
  {
    if path !in fs then None
    else
      SnapshotReadsInFull(|fs[path]|, fs[path]);
      match SampleInput(|fs[path]|, fs[path])
      case None => None
      case Some(data) => Some(digest(data))
  }

  /** `hashFile`'s sampling: stat gave `size`, the reads see `content`. The
      buffer is built by appending one window after the other, and the
      first short read abandons it. */
  method ReadSample(size: int, content: seq<byte>) returns (data: Option<seq<byte>>)
    ensures data == SampleInput(size, content)
  {
    if size <= WholeFileLimit {
      return Some(content);
    }
    var buf: seq<byte> := [];
    var chunk := ReadChunk(content, 0);
    if |chunk| != MEGABYTE {
      return None;
    }
    buf := buf + chunk;
    assert buf == Window(content, 0);
    chunk := ReadChunk(content, size / 2);
    if |chunk| != MEGABYTE {
      return None;
    }
    buf := buf + chunk;
    assert buf == Window(content, 0) + Window(content, size / 2);
    chunk := ReadChunk(content, size - MEGABYTE);
    if |chunk| != MEGABYTE {
      return None;
    }
    buf := buf + chunk;
    return Some(buf);
  }

  /** `hashFile(path)`: stat, sample, digest. */
  method HashFile(fs: FileSystem, digest: DigestFn, path: string) returns (h: Option<string>)
    ensures h == Fingerprint(fs, digest, path)
    ensures h.Some? <==> path in fs
  {
    if path !in fs {
      return None;
    }
    var content := fs[path];
    var data := ReadSample(|content|, content);
    h := if data.Some? then Some(digest(data.value)) else None;
  }

  /** For a large file the three windows can be read in full exactly when the
      content is still at least as long as the size that was reported. */
  lemma WindowsReadableIffNotShrunk(size: int, content: seq<byte>)
    requires size > WholeFileLimit
    ensures WindowsReadable(size, content) <==> size <= |content|
  {
    assert size / 2 + MEGABYTE <= size;
  }

  /** When stat and the reads see the same content, no read is short. */
  lemma SnapshotReadsInFull(size: int, content: seq<byte>)
    requires size == |content|
    ensures SampleInput(size, content).Some?
  {
    if size > WholeFileLimit {
      WindowsReadableIffNotShrunk(size, content);
    }
  }

  /** A short read makes the sampling fail: a large file that shrank below its
      reported size has no sample. */
  lemma ShortReadFails(size: int, content: seq<byte>)
    requires size > WholeFileLimit && |content| < size
    ensures SampleInput(size, content) == None
  {
    WindowsReadableIffNotShrunk(size, content);
  }

  /** A file of at most 16 MiB is hashed whole. */
  lemma SmallFileHashedWhole(fs: FileSystem, digest: DigestFn, path: string)
    requires path in fs && |fs[path]| <= WholeFileLimit
    ensures Fingerprint(fs, digest, path) == Some(digest(fs[path]))
  {
  }

  /** A larger file is hashed over exactly 3 MiB: the windows at offsets 0,
      size/2 and size - 1 MiB, in that order, each inside the file. */
  lemma LargeFileSample(size: int, content: seq<byte>)
    requires size > WholeFileLimit && size == |content|
    ensures 0 < size / 2 && size / 2 + MEGABYTE < size - MEGABYTE
    ensures MEGABYTE <= size / 2
    ensures SampleInput(size, content).Some?
    ensures var s := SampleInput(size, content).value;
      && |s| == 3 * MEGABYTE
      && s[..MEGABYTE] == content[..MEGABYTE]
      && s[MEGABYTE..2 * MEGABYTE] == content[size / 2..size / 2 + MEGABYTE]
      && s[2 * MEGABYTE..] == content[size - MEGABYTE..]
  {
    SnapshotReadsInFull(size, content);
    var s := SampleInput(size, content).value;
    var a, b, c := Window(content, 0), Window(content, size / 2), Window(content, size - MEGABYTE);
    assert s == a + b + c;
    assert s[..MEGABYTE] == a;
    assert s[MEGABYTE..2 * MEGABYTE] == b;
    assert s[2 * MEGABYTE..] == c;
  }

  /** A byte of a large file at position `k` lies in one of the sampled
      windows. */
  predicate Sampled(size: int, k: int) {
    (0 <= k < MEGABYTE) || (size / 2 <= k < size / 2 + MEGABYTE) || (size - MEGABYTE <= k < size)
  }

  /** The accepted blind spot: rewriting a byte of a large file outside the
      three windows leaves the hashed input, and so the fingerprint, as it
      was. */
  lemma UnsampledChangeInvisible(size: int, content: seq<byte>, k: int, b: byte)
    requires size > WholeFileLimit && size == |content|
    requires 0 <= k < size && !Sampled(size, k)
    ensures SampleInput(size, content[k := b]) == SampleInput(size, content)
  {
    var changed := content[k := b];
    LargeFileSample(size, content);
    LargeFileSample(size, changed);
    assert Window(changed, 0) == Window(content, 0);
    assert Window(changed, size / 2) == Window(content, size / 2);
    assert Window(changed, size - MEGABYTE) == Window(content, size - MEGABYTE);
  }

  /** Rewriting a byte inside a sampled window changes the hashed input. */
  lemma SampledChangeVisible(size: int, content: seq<byte>, k: int, b: byte)
    requires size > WholeFileLimit && size == |content|
    requires 0 <= k < size && Sampled(size, k) && content[k] != b
    ensures SampleInput(size, content[k := b]) != SampleInput(size, content)
  {
    var changed := content[k := b];
    LargeFileSample(size, content);
    LargeFileSample(size, changed);
    var s, t := SampleInput(size, content).value, SampleInput(size, changed).value;
    if k < MEGABYTE {
      assert s[k] == content[k] && t[k] == b;
    } else if size / 2 <= k < size / 2 + MEGABYTE {
      var i := MEGABYTE + (k - size / 2);
      assert s[MEGABYTE..2 * MEGABYTE][k - size / 2] == content[k];
      assert t[MEGABYTE..2 * MEGABYTE][k - size / 2] == b;
      assert s[i] != t[i];
    } else {
      var i := 2 * MEGABYTE + (k - (size - MEGABYTE));
      assert s[2 * MEGABYTE..][k - (size - MEGABYTE)] == content[k];
      assert t[2 * MEGABYTE..][k - (size - MEGABYTE)] == b;
      assert s[i] != t[i];
    }
  }
}
