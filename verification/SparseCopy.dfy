/** The hole-skipping file copy and its streaming digest.

    Source: scripts/navigation-linux-test-storage.py, `digest_fd` and the byte-level part of `Scratch.copy`. */
module SparseCopy {
  type Byte = x: int | 0 <= x < 256

  const BLOCK: nat := 1048576
  const LARGEST: nat := 4 * 1024 * 1024 * 1024

  /** What the kernel and the clock answer at each call: a choice of how many bytes a read returns, how many a write
      takes (none or an error when not positive), and whether the deadline has passed. */
  datatype Host = Host(readChoice: nat -> nat, writeChoice: nat -> int, late: nat -> bool)

  datatype Outcome = Done | DeadlinePassed | SourceTruncated | SourceGrew | ShortWrite | SourceRefused | Changed

  /** The c-th `pread` of at most `most` bytes: at least one byte unless none is asked for or none is left. */
  function Pread(host: Host, c: nat, file: seq<Byte>, most: nat, offset: nat): (block: seq<Byte>)
    ensures |block| <= most && (block == [] <==> most == 0 || offset >= |file|)
    ensures block != [] ==> offset + |block| <= |file| && block == file[offset..offset + |block|]
  {
    if most == 0 || offset >= |file| then []
    else
      var available := if most <= |file| - offset then most else |file| - offset;
      file[offset..offset + 1 + host.readChoice(c) % available]
  }

  function Zeros(n: nat): (z: seq<Byte>) {
    seq(n, _ => 0)
  }

  ghost function Range(lo: nat, hi: nat): (r: set<nat>)
    ensures forall k :: k in r <==> lo <= k < hi
    decreases hi - lo
  {
    if lo >= hi then {} else {lo} + Range(lo + 1, hi)
  }

  predicate AllZero(block: seq<Byte>) {
    forall k :: 0 <= k < |block| ==> block[k] == 0
  }

  /** At one of the calls from lo up to hi the deadline had passed. */
  ghost predicate LateBetween(host: Host, lo: nat, hi: nat) {
    exists c :: lo <= c < hi && host.late(c)
  }

  /** One of the calls from lo up to hi was a write that took nothing. */
  ghost predicate ShortBetween(host: Host, lo: nat, hi: nat) {
    exists c :: lo <= c < hi && host.writeChoice(c) <= 0
  }

  /** A file opened for writing: `position` may stand past the end, and `touched` collects the offsets written. */
  class Destination {
    var data: seq<Byte>
    var position: nat
    ghost var touched: set<nat>

    constructor ()
      ensures data == [] && position == 0 && touched == {}
    {
      data, position, touched := [], 0, {};
    }

    /** `lseek` relative to the position: nothing is written. */
    method Seek(n: nat)
      modifies this
      ensures position == old(position) + n && data == old(data) && touched == old(touched)
    {
      position := position + n;
    }

    /** `ftruncate`: cuts, or extends with zeros. */
    method Truncate(size: nat)
      modifies this
      ensures data == (if size <= |old(data)| then old(data)[..size] else old(data) + Zeros(size - |old(data)|))
      ensures position == old(position) && touched == old(touched)
    {
      data := if size <= |data| then data[..size] else data + Zeros(size - |data|);
    }

    /** One `write`, which takes a prefix of `pending`; a gap before the position fills with zeros. */
    method Write(host: Host, c: nat, pending: seq<Byte>) returns (written: int)
      requires pending != [] && |data| <= position
      modifies this
      ensures host.writeChoice(c) <= 0 ==>
        written <= 0 && data == old(data) && position == old(position) && touched == old(touched)
      ensures host.writeChoice(c) > 0 ==>
        && 0 < written <= |pending| && position == old(position) + written
        && data == old(data) + Zeros(old(position) - |old(data)|) + pending[..written]
        && touched == old(touched) + Range(old(position), old(position) + written)
    {
      if host.writeChoice(c) <= 0 {
        return host.writeChoice(c);
      }
      written := 1 + (host.writeChoice(c) - 1) % |pending|;
      data := data + Zeros(position - |data|) + pending[..written];
      touched := touched + Range(position, position + written);
      position := position + written;
    }

    /** The file up to `position`, were it closed here: what a reader sees after `ftruncate` to the position. */
    ghost function Padded(): seq<Byte>
      requires |data| <= position
      reads this
    {
      data + Zeros(position - |data|)
    }
  }

  /** Every offset written lies within one block of a byte that is not zero: longer runs of zeros stay holes. */
  predicate HolesKept(touched: set<nat>, source: seq<Byte>) {
    forall k :: k in touched ==> NearData(source, k)
  }

  predicate NearData(source: seq<Byte>, k: nat) {
    exists j :: 0 <= j < |source| && k - 1048576 < j < k + 1048576 && source[j] != 0
  }

  lemma BlockNearData(source: seq<Byte>, offset: nat, n: nat, k: nat)
    requires offset + n <= |source| && n <= BLOCK && offset <= k < offset + n
    requires !AllZero(source[offset..offset + n])
    ensures NearData(source, k)
  {
    var i :| 0 <= i < n && source[offset..offset + n][i] != 0;
    assert source[offset + i] != 0;
  }

  lemma PaddedSkip(data: seq<Byte>, position: nat, block: seq<Byte>)
    requires |data| <= position && AllZero(block)
    ensures data + Zeros(position + |block| - |data|) == data + Zeros(position - |data|) + block
  {
  }

  /** The inner loop: `pending` is written out whole, however few bytes each write takes. */
  method WriteAll(out: Destination, host: Host, calls: nat, block: seq<Byte>) returns (ok: bool, next: nat)
    requires |out.data| <= out.position
    modifies out
    ensures |out.data| <= out.position
    ensures ok ==> out.position == old(out.position) + |block| && out.Padded() == old(out.Padded()) + block
    ensures ok ==> out.touched == old(out.touched) + Range(old(out.position), old(out.position) + |block|)
    ensures calls <= next && (!ok ==> ShortBetween(host, calls, next))
  {
    var pending := block;
    next := calls;
    ghost var start, before := out.position, out.Padded();
    while pending != []
      invariant calls <= next
      invariant |pending| <= |block| && pending == block[|block| - |pending|..]
      invariant |out.data| <= out.position == start + |block| - |pending|
      invariant out.Padded() == before + block[..|block| - |pending|]
      invariant out.touched == old(out.touched) + Range(start, start + |block| - |pending|)
      decreases |pending|
    {
      ghost var done := |block| - |pending|;
      var written := out.Write(host, next, pending);
      next := next + 1;
      if written <= 0 {
        return false, next;
      }
      assert block[..done] + pending[..written] == block[..done + written];
      pending := pending[written..];
    }
    assert block[..|block|] == block;
    ok := true;
  }

  /** The copy loop with its final `ftruncate`, on a source that does not change meanwhile. It fails only for a
      reason the host gives, and otherwise leaves exactly the first `size` bytes of the source. */
  method CopyLoop(source: seq<Byte>, size: nat, out: Destination, host: Host, calls: nat)
      returns (r: Outcome, next: nat)
    requires out.data == [] && out.position == 0 && out.touched == {}
    modifies out
    ensures r in {Done, DeadlinePassed, SourceTruncated, ShortWrite}
    ensures r == Done
        ==> size <= |source| && out.data == source[..size] && out.position == size && HolesKept(out.touched, source)
    ensures calls <= next
    ensures r == DeadlinePassed ==> LateBetween(host, calls, next)
    ensures r == ShortWrite ==> ShortBetween(host, calls, next)
    ensures r == SourceTruncated ==> |source| < size
  {
    var offset := 0;
    next := calls;
    assert out.Padded() == [];
    while offset < size
      invariant offset <= size && calls <= next
      invariant out.position == offset && |out.data| <= offset
      invariant offset <= |source| && out.Padded() == source[..offset]
      invariant HolesKept(out.touched, source)
    {
      if host.late(next) {
        return DeadlinePassed, next + 1;
      }
      var block := Pread(host, next, source, if BLOCK <= size - offset then BLOCK else size - offset, offset);
      next := next + 1;
      if block == [] {
        return SourceTruncated, next;
      }
      assert source[..offset] + block == source[..offset + |block|];
      if AllZero(block) {
        PaddedSkip(out.data, out.position, block);
        out.Seek(|block|);
      } else {
        ghost var kept := out.touched;
        var ok;
        ok, next := WriteAll(out, host, next, block);
        if !ok {
          return ShortWrite, next;
        }
        forall k | k in out.touched ensures NearData(source, k) {
          if k !in kept {
            BlockNearData(source, offset, |block|, k);
          }
        }
      }
      offset := offset + |block|;
    }
    ghost var padded := out.Padded();
    assert padded == source[..size];
    out.Truncate(size);
    r := Done;
  }

  /** `digest_fd`: whatever the short reads, the digest is that of the whole file, and the file has the size. */
  method DigestFd<Digest>(file: seq<Byte>, size: nat, host: Host, calls: nat, hash: seq<Byte> -> Digest)
      returns (r: Outcome, digest: Digest, next: nat)
    ensures r in {Done, DeadlinePassed, SourceTruncated, SourceGrew}
    ensures r == Done ==> |file| == size && digest == hash(file)
    ensures calls <= next
    ensures r == DeadlinePassed ==> LateBetween(host, calls, next)
    ensures r == SourceTruncated ==> |file| < size
    ensures r == SourceGrew ==> |file| > size
  {
    var offset := 0;
    var digested: seq<Byte> := [];
    digest, next := hash(digested), calls;
    while offset < size
      invariant calls <= next && offset <= size && offset <= |file| && digested == file[..offset]
    {
      if host.late(next) {
        return DeadlinePassed, digest, next + 1;
      }
      var block := Pread(host, next, file, if BLOCK <= size - offset then BLOCK else size - offset, offset);
      next := next + 1;
      if block == [] {
        return SourceTruncated, digest, next;
      }
      assert file[..offset] + block == file[..offset + |block|];
      digested := digested + block;
      offset := offset + |block|;
    }
    next := next + 1;
    if Pread(host, next, file, 1, size) != [] {
      return SourceGrew, digest, next;
    }
    assert digested == file;
    r, digest := Done, hash(digested);
  }

  /** The byte-level part of `copy`: a digest before, the loop, and digests of both files after it. On an unchanging
      source it succeeds exactly when the source has the size and digest announced and the host lets it, and then
      the destination is the source; the checks on the two digests after the loop can never be what refuses it. */
  method Copy<Digest(==)>(source: seq<Byte>, size: nat, expected: Digest, out: Destination, host: Host,
                          hash: seq<Byte> -> Digest)
      returns (r: Outcome, calls: nat)
    requires out.data == [] && out.position == 0 && out.touched == {}
    modifies out
    ensures r == Done
        ==> out.data == source && |source| == size && hash(source) == expected && HolesKept(out.touched, source)
    ensures r == SourceRefused
        <==> !(|source| == size && 0 < size <= 4294967296) || (r != DeadlinePassed && hash(source) != expected)
    ensures r in {Done, DeadlinePassed, ShortWrite, SourceRefused}
    ensures r == DeadlinePassed ==> LateBetween(host, 0, calls)
    ensures r == ShortWrite ==> ShortBetween(host, 0, calls)
  {
    if |source| != size || size == 0 || size > LARGEST {
      return SourceRefused, 0;
    }
    var s, digest;
    s, digest, calls := DigestFd(source, size, host, 0, hash);
    if s != Done {
      return s, calls;
    }
    if digest != expected {
      return SourceRefused, calls;
    }
    s, calls := CopyLoop(source, size, out, host, calls);
    if s != Done {
      return s, calls;
    }
    assert source[..size] == source;
    s, digest, calls := DigestFd(source, size, host, calls, hash);
    if s != Done {
      return s, calls;
    }
    if digest != expected {
      return Changed, calls;
    }
    s, digest, calls := DigestFd(out.data, size, host, calls, hash);
    if s != Done {
      return s, calls;
    }
    if digest != expected {
      return Changed, calls;
    }
    r := Done;
  }
}
