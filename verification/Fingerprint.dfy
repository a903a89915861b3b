// Streaming file fingerprints of src/core/file_fingerprint.py.
module Fingerprint {
  import opened PyText
  import opened Wrappers

  /** An incremental digest: a start state, absorbing bytes, and reading the result. */
  datatype Digest<!S> = Digest(start: S, update: (S, seq<byte>) -> S, hexdigest: S -> string)

  /** Absorbing in pieces is absorbing the concatenation. */
  ghost predicate Incremental<S(!new)>(d: Digest<S>) {
    && (forall s :: d.update(s, []) == s)
    && (forall s, a, b :: d.update(d.update(s, a), b) == d.update(s, a + b))
  }

  function Absorbed<S>(d: Digest<S>, chunks: seq<seq<byte>>): S {
    if chunks == [] then d.start
    else d.update(Absorbed(d, chunks[..|chunks| - 1]), chunks[|chunks| - 1])
  }

  function Joined(chunks: seq<seq<byte>>): seq<byte> {
    if chunks == [] then [] else Joined(chunks[..|chunks| - 1]) + chunks[|chunks| - 1]
  }

  /** The digest does not depend on where the content is cut. */
  lemma {:induction false} CutsDoNotMatter<S(!new)>(d: Digest<S>, chunks: seq<seq<byte>>)
    requires Incremental(d)
    ensures Absorbed(d, chunks) == d.update(d.start, Joined(chunks))
  {
    if chunks != [] {
      CutsDoNotMatter(d, chunks[..|chunks| - 1]);
      assert d.update(d.update(d.start, Joined(chunks[..|chunks| - 1])), chunks[|chunks| - 1])
             == d.update(d.start, Joined(chunks));
    }
  }

  /** `stat()`: size and modification time in nanoseconds */
  datatype Stat = Stat(size: nat, modifiedNs: int)

  datatype FileFingerprint = FileFingerprint(algorithm: string, digest: string, size: nat, modifiedNs: int)

  /** What opening the file gives: a stream that delivers `content` and then ends, or
      breaks with an error instead. */
  datatype Opening = Refused | Stream(content: seq<byte>, breaks: bool)

  /** `stream.read(n)`: some bytes, as long as any are left; how many is up to the
      system. */
  method Read(s: Opening, pos: nat, n: nat) returns (r: Result<seq<byte>>)
    requires s.Stream? && pos <= |s.content| && n > 0
    ensures r.Ok? ==> |r.value| <= n && pos + |r.value| <= |s.content|
    ensures r.Ok? ==> r.value == s.content[pos..pos + |r.value|]
    ensures r.Ok? ==> (r.value == [] <==> pos == |s.content| && !s.breaks)
    ensures r.Err? <==> pos == |s.content| && s.breaks
    ensures r.Err? ==> r.error == OSError
  {
    var left := |s.content| - pos;
    var most := if left < n then left else n;
    if most == 0 {
      return if s.breaks then Err(OSError) else Ok([]);
    }
    var size :| 1 <= size <= most;
    r := Ok(s.content[pos..pos + size]);
  }

  /** `fingerprint_file`, with the two stat snapshots (`None` when stat fails) and what
      opening and reading give in between. */
  method FingerprintFile<S(!new)>(d: Digest<S>, chunkBytes: int, before: Option<Stat>, isFile: bool,
                                  opening: Opening, after: Option<Stat>)
    returns (r: Result<FileFingerprint>)
    requires Incremental(d)
    ensures chunkBytes <= 0 ==> r == Err(ValueError)
    ensures chunkBytes > 0 && before.None? ==> r == Err(OSError)
    ensures chunkBytes > 0 && before.Some? && !isFile ==> r == Err(IsADirectoryError)
    ensures chunkBytes > 0 && before.Some? && isFile && (opening.Refused? || opening.breaks || after.None?) ==>
              r == Err(OSError)
    ensures chunkBytes > 0 && before.Some? && isFile && opening.Stream? && !opening.breaks && after.Some? ==>
              if before == after
              then r == Ok(FileFingerprint("sha256", d.hexdigest(d.update(d.start, opening.content)),
                                           after.value.size, after.value.modifiedNs))
              else r == Err(RuntimeError)
  {
    if chunkBytes <= 0 {
      return Err(ValueError);
    }
    if before.None? {
      return Err(OSError);
    }
    if !isFile {
      return Err(IsADirectoryError);
    }
    if opening.Refused? {
      return Err(OSError);
    }
    ghost var content := opening.content;
    var state, pos := d.start, 0;
    ghost var chunks: seq<seq<byte>> := [];
    var read := Read(opening, pos, chunkBytes);
    while read.Ok? && read.value != []
      invariant 0 <= pos <= |content|
      invariant read.Ok? ==> pos + |read.value| <= |content| && read.value == content[pos..pos + |read.value|]
      invariant read.Ok? ==> (read.value == [] <==> pos == |content| && !opening.breaks)
      invariant read.Err? ==> read.error == OSError && opening.breaks
      invariant state == Absorbed(d, chunks) && Joined(chunks) == content[..pos]
      decreases |content| - pos
    {
      var chunk := read.value;
      state := d.update(state, chunk);
      assert (chunks + [chunk])[..|chunks|] == chunks;
      assert content[..pos] + chunk == content[..pos + |chunk|];
      chunks := chunks + [chunk];
      pos := pos + |chunk|;
      read := Read(opening, pos, chunkBytes);
    }
    if read.Err? {
      return Err(OSError);
    }
    assert content[..pos] == content;
    CutsDoNotMatter(d, chunks);
    if after.None? {
      return Err(OSError);
    }
    if before != after {
      return Err(RuntimeError);
    }
    r := Ok(FileFingerprint("sha256", d.hexdigest(state), after.value.size, after.value.modifiedNs));
  }
}
