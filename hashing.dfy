/** The chunked hashing loop of `hash_image`: the file is read 8192 bytes at a
    time and each chunk is fed to an incremental SHA-1 (FIPS 180-4) state.
    SHA-1's compression function is not modelled: a state is identified with
    the message it has absorbed, which is all its digest depends on. */
module Hashing {
  import opened Common

  /** The read size of the loop. */
  const ChunkSize: nat := 8192

  /** An incremental SHA-1 state, standing for the message absorbed so far. */
  datatype Sha1State = Sha1State(message: seq<byte>)

  /** `hashlib.sha1()`: nothing absorbed yet. */
  function Sha1New(): (s: Sha1State)
    ensures forall chunk :: Sha1Update(s, chunk).message == chunk
  {
    Sha1State([])
  }

  /** `state.update(chunk)`: the chunk is appended to the absorbed message. */
  function Sha1Update(s: Sha1State, chunk: seq<byte>): (t: Sha1State)
    ensures StartsWith(t.message, s.message)
    ensures t.message[|s.message|..] == chunk
  {
    Sha1State(s.message + chunk)
  }

  /** Feeding a sequence of chunks one by one. */
  function Absorb(s: Sha1State, chunks: seq<seq<byte>>): Sha1State
    decreases |chunks|
  {
    if chunks == [] then s else Absorb(Sha1Update(s, chunks[0]), chunks[1..])
  }

  /** Concatenation of a sequence of chunks. */
  function Flatten(chunks: seq<seq<byte>>): seq<byte>
  {
    if chunks == [] then [] else chunks[0] + Flatten(chunks[1..])
  }

  /** The incremental-digest property: feeding any split of a message chunk
      by chunk leaves the same state as feeding it in one call. */
  lemma {:induction false} AbsorbIsOneUpdate(s: Sha1State, chunks: seq<seq<byte>>)
    ensures Absorb(s, chunks) == Sha1Update(s, Flatten(chunks))
    decreases |chunks|
  {
    if chunks != [] {
      AbsorbIsOneUpdate(Sha1Update(s, chunks[0]), chunks[1..]);
      assert s.message + chunks[0] + Flatten(chunks[1..]) == s.message + (chunks[0] + Flatten(chunks[1..]));
    }
  }

  /** `f.read(n)` on a file at position `pos`: at most `n` bytes, fewer only
      at the end of the file, none at or past it. */
  function Read(content: seq<byte>, pos: nat, n: nat): (chunk: seq<byte>)
    requires pos <= |content|
    ensures |chunk| == if pos + n <= |content| then n else |content| - pos
    ensures chunk == content[pos..pos + |chunk|]
  {
    if pos + n <= |content| then content[pos..pos + n] else content[pos..]
  }

  /** The chunks the loop reads from a file whose bytes are `content`. */
  function Chunks(content: seq<byte>): (chunks: seq<seq<byte>>)
    ensures chunks == [] <==> content == []
    ensures forall i :: 0 <= i < |chunks| ==> 0 < |chunks[i]| <= ChunkSize
    decreases |content|
  {
    if content == [] then []
    else
      var chunk := Read(content, 0, ChunkSize);
      [chunk] + Chunks(content[|chunk|..])
  }

  /** The chunk stream covers the file exactly: every chunk is non-empty and
      at most 8192 bytes, all but the last are exactly 8192, and their
      concatenation is the content. */
  lemma {:induction false} ChunksCoverContent(content: seq<byte>)
    ensures Flatten(Chunks(content)) == content
    ensures forall i :: 0 <= i < |Chunks(content)| ==> 0 < |Chunks(content)[i]| <= ChunkSize
    ensures forall i :: 0 <= i < |Chunks(content)| - 1 ==> |Chunks(content)[i]| == ChunkSize
    ensures |Chunks(content)| == (|content| + ChunkSize - 1) / ChunkSize
    decreases |content|
  {
    if content != [] {
      var chunk := Read(content, 0, ChunkSize);
      var rest := content[|chunk|..];
      ChunksCoverContent(rest);
      assert Chunks(content)[1..] == Chunks(rest);
      assert chunk + rest == content;
      if |chunk| < ChunkSize {
        assert rest == [];
      }
    }
  }

  /** `hash_image` on a file with bytes `content`: the loop reads chunks
      until a read returns nothing, updating the SHA-1 state with each. The
      final state is that of hashing the whole content at once, and the
      chunks read are exactly `Chunks(content)`. */
  method HashImage(content: seq<byte>) returns (digest: Sha1State, ghost chunks: seq<seq<byte>>)
    ensures digest == Sha1Update(Sha1New(), content)
    ensures chunks == Chunks(content)
    ensures Flatten(chunks) == content
    ensures forall i :: 0 <= i < |chunks| ==> 0 < |chunks[i]| <= ChunkSize
    ensures forall i :: 0 <= i < |chunks| - 1 ==> |chunks[i]| == ChunkSize
  {
    digest := Sha1New();
    chunks := [];
    var pos := 0;
    var chunk := Read(content, pos, ChunkSize);
    while |chunk| > 0
      invariant pos <= |content|
      invariant chunk == Read(content, pos, ChunkSize)
      invariant digest == Sha1Update(Sha1New(), content[..pos])
      invariant chunks + Chunks(content[pos..]) == Chunks(content)
      decreases |content| - pos
    {
      ChunksStep(content, pos);
      digest := Sha1Update(digest, chunk);
      chunks := chunks + [chunk];
      pos := pos + |chunk|;
      chunk := Read(content, pos, ChunkSize);
    }
    assert content[pos..] == [];
    assert content[..pos] == content;
    ChunksCoverContent(content);
  }

  /** One turn of the loop: the chunks left at `pos` are the chunk read
      there followed by the chunks left after it. */
  lemma ChunksStep(content: seq<byte>, pos: nat)
    requires pos < |content|
    ensures var chunk := Read(content, pos, ChunkSize);
      && Chunks(content[pos..]) == [chunk] + Chunks(content[pos + |chunk|..])
      && content[..pos] + chunk == content[..pos + |chunk|]
  {
    var chunk := Read(content, pos, ChunkSize);
    var rest := content[pos..];
    assert Read(rest, 0, ChunkSize) == chunk;
    assert rest[|chunk|..] == content[pos + |chunk|..];
  }

  /** Feeding the file's chunks one by one through `Absorb` gives the state
      of hashing the whole content in one update. */
  lemma HashImageIsAbsorbOfChunks(content: seq<byte>)
    ensures Absorb(Sha1New(), Chunks(content)) == Sha1Update(Sha1New(), content)
  {
    AbsorbIsOneUpdate(Sha1New(), Chunks(content));
    ChunksCoverContent(content);
  }
}
