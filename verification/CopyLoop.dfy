/**
 The direct file copy benchmark: read at an offset, write at the same offset, and
 repeat, where both calls may move fewer bytes than asked for and may fail.
 */
module CopyLoop {
  import opened Bytes
  import opened Arithmetic

  const ALIGNMENT: nat := 4096

  function AlignDown(x: nat, alignment: nat): nat
    requires alignment > 0
  {
    (x / alignment) * alignment
  }

  /** `align_up`, in `size_t` arithmetic. */
  function AlignUp(n: nat, alignment: nat): nat
    requires alignment > 0
  {
    AlignDown((n + alignment - 1) % TWO64, alignment)
  }

  lemma AlignedDown(x: nat, alignment: nat)
    requires alignment > 0
    ensures var r := AlignDown(x, alignment); r % alignment == 0 && r <= x < r + alignment
  {
    DivMod(x, alignment);
    Euclid((x / alignment) * alignment, alignment, x / alignment, 0);
  }

  /** The smallest multiple of the alignment that is not below `n`, exactly when the sum does not wrap;
      if it wraps the result is below `n`. */
  lemma AlignUpIsLeast(n: nat, alignment: nat, m: nat)
    requires 0 < alignment < TWO64 && n < TWO64
    ensures AlignUp(n, alignment) % alignment == 0
    ensures n <= AlignUp(n, alignment) <==> n + alignment - 1 < TWO64
    ensures n + alignment - 1 < TWO64 ==>
              AlignUp(n, alignment) < n + alignment && (m % alignment == 0 && m >= n ==> m >= AlignUp(n, alignment))
  {
    hide AlignDown;
    var x := (n + alignment - 1) % TWO64;
    AlignedDown(x, alignment);
    if n + alignment - 1 >= TWO64 {
      assert x == n + alignment - 1 - TWO64;
    } else if m % alignment == 0 {
      NoMultipleBetween(x, alignment, m);
    }
  }

  /** The largest `size_t` is aligned to 0. */
  lemma AlignUpWraps()
    ensures AlignUp(TWO64 - 1, ALIGNMENT) == 0
  {
    DivSmall(4094, ALIGNMENT);
  }

  lemma NoMultipleBetween(x: nat, alignment: nat, m: nat)
    requires alignment > 0 && m % alignment == 0
    ensures m >= AlignDown(x, alignment) || m + alignment <= AlignDown(x, alignment)
  {
    DivMod(m, alignment);
    if m < AlignDown(x, alignment) { MultiplesApart(m / alignment, x / alignment, alignment); }
  }

  lemma MultiplesApart(p: nat, q: nat, k: nat)
    requires p * k < q * k
    ensures p * k + k <= q * k
  {
    assert p >= q ==> p * k >= q * k;
    assert (p + 1) * k <= q * k;
  }

  /** `data` written over `s` from position `at`. */
  function Overwrite(s: bytes, data: bytes, at: nat): bytes
    requires at <= |s|
  {
    s[..at] + data + (if at + |data| <= |s| then s[at + |data|..] else [])
  }

  /** The source file, the destination file, and whether some call on them has failed. */
  class Files {
    const source: bytes
    var content: bytes
    var failed: bool

    constructor (source: bytes, before: bytes)
      ensures this.source == source && content == before && !failed
    {
      this.source, content, failed := source, before, false;
    }

    /** The old destination is removed; opening the files and allocating the buffer may fail. */
    method Prepare() returns (ok: bool)
      modifies this
      ensures content == [] && failed == (old(failed) || !ok)
    {
      content := [];
      ok := *;
      if !ok { failed := true; }
    }

    /** `pread`: zero exactly at the end of the file, otherwise any non-empty part, or a failure. */
    method ReadAt(raw: array<byte>, want: nat, at: nat) returns (r: int)
      requires 0 < want <= raw.Length
      modifies raw, this`failed
      ensures r <= want && (r == 0 ==> at >= |source|) && failed == (old(failed) || r < 0)
      ensures r > 0 ==> at + r <= |source| && raw[..r] == source[at..at + r]
    {
      var fails: bool := *;
      if fails {
        failed := true;
        return -1;
      }
      if at >= |source| { return 0; }
      var n: nat :| 0 < n <= want && at + n <= |source|;
      for i := 0 to n
        modifies raw
        invariant raw[..i] == source[at..at + i]
      {
        raw[i] := source[at + i];
        assert raw[..i + 1] == raw[..i] + [source[at + i]];
      }
      r := n;
    }

    /** `pwrite` within or at the end of the destination: takes any non-empty part, or fails. */
    method Write(data: bytes, at: nat) returns (w: int)
      requires data != [] && at <= |content|
      modifies this
      ensures w <= |data| && failed == (old(failed) || w <= 0)
      ensures w <= 0 ==> content == old(content)
      ensures w > 0 ==> content == Overwrite(old(content), data[..w], at)
    {
      var fails: bool := *;
      if fails {
        failed := true;
        return -1;
      }
      var n: nat :| 0 < n <= |data|;
      content := Overwrite(content, data[..n], at);
      w := n;
    }
  }

  /** A part of a part of the source, behind what is written already. */
  lemma PartWritten(source: bytes, off: nat, r: nat, written: nat, w: nat)
    requires off + r <= |source| && written + w <= r
    ensures source[off..off + r][written..][..w] == source[off + written..off + written + w]
    ensures source[..off + written] + source[off + written..off + written + w] == source[..off + written + w]
  {
  }

  /** The write loop for one read of `r` bytes. */
  method WriteAll(files: Files, raw: array<byte>, r: nat, off: nat) returns (ok: bool)
    requires r <= raw.Length && off + r <= |files.source| && raw[..r] == files.source[off..off + r]
    requires files.content == files.source[..off]
    modifies files
    ensures files.content <= files.source && files.failed == (old(files.failed) || !ok)
    ensures ok ==> files.content == files.source[..off + r]
  {
    var data, source := raw[..r], files.source;
    var written := 0;
    while written < r
      invariant 0 <= written <= r && files.content == source[..off + written] && files.failed == old(files.failed)
    {
      var w := files.Write(data[written..], off + written);
      if w <= 0 { return false; }
      PartWritten(source, off, r, written, w);
      written := written + w;
    }
    ok := true;
  }

  /**
   `run_odirect_copy`. Opening either file and allocating the buffer may fail; the
   old destination is removed first. Whatever the short reads and writes, the
   destination is always a prefix of the source. A run is skipped exactly when a
   call has failed; otherwise it has copied the first `bytes` bytes, or the whole
   source if it is shorter.
   */
  method OdirectCopy(files: Files, bytes: nat, chunkKib: nat) returns (skipped: bool)
    requires !files.failed
    modifies files
    ensures files.content <= files.source
    ensures skipped <==> files.failed
    ensures !skipped ==> files.content == files.source[..Min(bytes, |files.source|)]
  {
    var prepared := files.Prepare();
    if !prepared { return true; }
    var aligned := AlignUp((chunkKib * 1024) % TWO64, ALIGNMENT);
    var chunk := if aligned < ALIGNMENT then ALIGNMENT else aligned;
    var raw := new byte[chunk];
    var off := 0;
    while off < bytes
      invariant 0 <= off <= bytes && off <= |files.source| && files.content == files.source[..off] && !files.failed
      decreases bytes - off
    {
      var want := Min(chunk, bytes - off);
      var r := files.ReadAt(raw, want, off);
      if r < 0 { return true; }
      if r == 0 { break; }
      var ok := WriteAll(files, raw, r, off);
      if !ok { return true; }
      off := off + r;
    }
    skipped := false;
  }
}
