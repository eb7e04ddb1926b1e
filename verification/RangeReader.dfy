/** The pull reader over a range generator, and the v2 writer that pulls from it. */
module RangeReader {
  import opened ByteStrings
  import opened Aead
  import opened Envelope
  import opened ChunkReader
  import opened SealedObjects

  /** `_RangeReader`. The generator behind it is what it has still to yield and how it will end;
      SHA-256 is taken for the bytes it was fed. */
  class Reader {
    var chunks: seq<Bytes>
    var ending: Status
    var buffer: Bytes
    var exhausted: bool
    var digest: Bytes
    var count: nat

    ghost predicate Valid()
      reads this
    {
      count == |digest| && (exhausted ==> chunks == [] && ending.Done?)
    }

    /** What `read` has still to hand over. */
    ghost function Remaining(): (bytes: Bytes)
      reads this
    {
      buffer + Flatten(chunks)
    }

    constructor (source: Yield)
      ensures Valid() && Remaining() == Flatten(source.pieces) && ending == source.status && digest == []
    {
      chunks, ending, buffer, exhausted, digest, count := source.pieces, source.status, [], false, [], 0;
    }

    /** Consecutive pieces of the stream, full-size unless it is exhausted; an error of the generator comes out
        exactly when a read needs more than there is. After an error the generator is closed, so another
        read would take what is left for the whole. */
    method Read(size: int) returns (r: Result<Bytes>)
      requires Valid()
      modifies this
      ensures Valid()
      ensures r.Err? <==> old(ending).Raised? && (size < 0 || |old(Remaining())| < size)
      ensures r.Err? ==> r.error == old(ending).error && ending == Done
                         && Remaining() == old(Remaining()) && digest == old(digest)
      ensures r.Ok? ==> old(Remaining()) == r.value + Remaining() && digest == old(digest) + r.value
                        && ending == old(ending)
      ensures r.Ok? ==> r.value == if size < 0 then old(Remaining()) else Slice(old(Remaining()), 0, size)
    {
      while !exhausted && (size < 0 || |buffer| < size)
        invariant Valid() && Remaining() == old(Remaining()) && digest == old(digest) && ending == old(ending)
        decreases |chunks|, !exhausted
      {
        if chunks != [] {
          buffer := buffer + chunks[0];
          chunks := chunks[1..];
        } else if ending.Raised? {
          r := Err(ending.error);
          ending := Done;
          return;
        } else {
          exhausted := true;
        }
      }
      var piece;
      if size < 0 {
        piece := buffer;
        buffer := [];
      } else {
        var n := Min(size, |buffer|);
        piece := buffer[..n];
        buffer := buffer[n..];
      }
      digest := digest + piece;
      count := count + |piece|;
      return Ok(piece);
    }

    /** `while reader.read(SEEKABLE_CHUNK_SIZE): pass` */
    method Drain() returns (r: Result<Bytes>)
      requires Valid()
      modifies this
      ensures Valid()
      ensures r == if old(ending).Done? then Ok(old(digest) + old(Remaining())) else Err(old(ending).error)
      ensures r.Ok? ==> digest == r.value
    {
      var more := true;
      while more
        invariant Valid() && ending == old(ending)
        invariant digest + Remaining() == old(digest) + old(Remaining())
        invariant !more ==> Remaining() == [] && ending.Done?
        decreases |Remaining()|, more
      {
        var piece := Read(SEEKABLE_CHUNK_SIZE);
        if piece.Err? {
          return Err(piece.error);
        }
        more := piece.value != [];
      }
      assert digest + Remaining() == digest;
      return Ok(digest);
    }
  }

  /** After an error another read is told less than the truth: of a generator that raises, a first read that asks
      for more than there is fails, and a second one returns what is left as if that were the whole. */
  method SecondReadHidesError(source: Yield, size: nat) returns (first: Result<Bytes>, second: Result<Bytes>)
    requires source.status.Raised? && |Flatten(source.pieces)| < size
    ensures first == Err(source.status.error) && second == Ok(Flatten(source.pieces))
  {
    hide Slice;
    var reader := new Reader(source);
    first := reader.Read(size);
    second := reader.Read(size);
    PrefixIsAll(Flatten(source.pieces), size);
  }

  lemma PrefixIsAll(s: Bytes, size: nat)
    requires |s| <= size
    ensures Slice(s, 0, size) == s
  {
  }

  /** `_write_seekable_v2` up to the finished temporary file: one sealed chunk per full read. The writer raises
      when a number does not fit its field or the stream raises; else it stores exactly the v2 object of the
      whole stream, under the length it was told. */
  method WriteSeekableV2(stream: Reader, path: Path, key: Key, plaintextLength: nat, fileNonce: Bytes)
    returns (r: Result<Stored>)
    requires stream.Valid()
    modifies stream
    ensures stream.Valid()
    ensures r.Ok? <==> SizesFit(plaintextLength, ChunkCount(plaintextLength, SEEKABLE_CHUNK_SIZE), SEEKABLE_CHUNK_SIZE)
                       && old(stream.ending).Done?
                       && ChunkCount(|old(stream.Remaining())|, SEEKABLE_CHUNK_SIZE) <= 0x1_0000_0000
    ensures r.Ok? ==>
              r.value
              == EncodeV2(key, path, fileNonce, SEEKABLE_CHUNK_SIZE, plaintextLength, old(stream.Remaining()))
    ensures r.Ok? ==> stream.digest == old(stream.digest) + old(stream.Remaining())
    ensures r.Err? ==> r.error == Overflow || old(stream.ending) == Raised(r.error)
  {
    hide V2Aad, HeaderV2, Seal, EncodeV2, SealChunks, ChunkCount, Slice, ChunkSealing, Flatten, Raws, SizesFit;
    hide Reader.Remaining, Reader.Valid;
    ghost var goal := EncodeV2(key, path, fileNonce, SEEKABLE_CHUNK_SIZE, plaintextLength, stream.Remaining());
    EncodedParts(key, path, fileNonce, plaintextLength, stream.Remaining());
    var chunkCount := (plaintextLength + SEEKABLE_CHUNK_SIZE - 1) / SEEKABLE_CHUNK_SIZE;
    if !SizesFit(plaintextLength, chunkCount, SEEKABLE_CHUNK_SIZE) {
      return Err(Overflow);
    }
    var aad := V2Aad(path, fileNonce, plaintextLength, chunkCount, SEEKABLE_CHUNK_SIZE);
    var sink := Raws(HeaderV2(fileNonce, SEEKABLE_CHUNK_SIZE, plaintextLength, chunkCount));
    ghost var whole := stream.Remaining();
    var index: nat := 0;
    var more := true;
    while more
      invariant stream.Valid() && stream.ending == old(stream.ending)
      invariant stream.digest + stream.Remaining() == old(stream.digest) + whole
      invariant goal == sink + SealChunks(key, fileNonce, aad, SEEKABLE_CHUNK_SIZE, stream.Remaining(), index)
      invariant ChunkCount(|whole|, SEEKABLE_CHUNK_SIZE)
                == index + ChunkCount(|stream.Remaining()|, SEEKABLE_CHUNK_SIZE)
      invariant !more ==> stream.Remaining() == [] && stream.ending.Done?
      invariant index <= 0x1_0000_0000
      decreases |stream.Remaining()|, more
    {
      ghost var before := stream.Remaining();
      var chunk := stream.Read(SEEKABLE_CHUNK_SIZE);
      if chunk.Err? {
        return Err(chunk.error);
      }
      SliceLengths(before, 0, SEEKABLE_CHUNK_SIZE);
      if chunk.value == [] {
        more := false;
      } else {
        SealNext(key, fileNonce, aad, before, chunk.value, stream.Remaining(), index);
        if !IndexFits(index) {
          return Err(Overflow);
        }
        sink := sink + Seal(ChunkSealing(key, fileNonce, aad, index, chunk.value));
        index := index + 1;
      }
    }
    NoMore(key, fileNonce, aad, index);
    return Ok(sink);
  }

  /** The object the writer sets out to write. */
  lemma EncodedParts(key: Key, path: Path, fn: Bytes, length: nat, plain: Bytes)
    ensures var n := (length + SEEKABLE_CHUNK_SIZE - 1) / SEEKABLE_CHUNK_SIZE;
            && n == ChunkCount(length, SEEKABLE_CHUNK_SIZE)
            && EncodeV2(key, path, fn, SEEKABLE_CHUNK_SIZE, length, plain)
               == Raws(HeaderV2(fn, SEEKABLE_CHUNK_SIZE, length, n))
                  + SealChunks(key, fn, V2Aad(path, fn, length, n, SEEKABLE_CHUNK_SIZE), SEEKABLE_CHUNK_SIZE, plain, 0)
  {
  }

  /** A full read is the next chunk. */
  lemma SealNext(key: Key, fn: Bytes, aad: Bytes, before: Bytes, chunk: Bytes, rest: Bytes, index: nat)
    requires before == chunk + rest && chunk != [] && chunk == Slice(before, 0, SEEKABLE_CHUNK_SIZE)
    ensures SealChunks(key, fn, aad, SEEKABLE_CHUNK_SIZE, before, index)
            == Seal(ChunkSealing(key, fn, aad, index, chunk))
               + SealChunks(key, fn, aad, SEEKABLE_CHUNK_SIZE, rest, index + 1)
    ensures ChunkCount(|before|, SEEKABLE_CHUNK_SIZE) == 1 + ChunkCount(|rest|, SEEKABLE_CHUNK_SIZE)
  {
    hide Seal, ChunkSealing, SealChunks, Slice, ChunkCount;
    ChunksUnfold(key, fn, aad, SEEKABLE_CHUNK_SIZE, before, index);
    RestAfter(before, chunk, rest, SEEKABLE_CHUNK_SIZE);
    SliceLengths(before, 0, SEEKABLE_CHUNK_SIZE);
    CountNext(|before|);
  }

  lemma RestAfter(before: Bytes, chunk: Bytes, rest: Bytes, size: nat)
    requires before == chunk + rest && chunk == Slice(before, 0, size)
    ensures rest == Slice(before, size, |before|)
  {
  }

  lemma CountNext(length: nat)
    requires length > 0
    ensures ChunkCount(length, SEEKABLE_CHUNK_SIZE)
            == 1 + ChunkCount(Max(0, length - SEEKABLE_CHUNK_SIZE), SEEKABLE_CHUNK_SIZE)
  {
  }

  lemma NoMore(key: Key, fn: Bytes, aad: Bytes, index: nat)
    ensures SealChunks(key, fn, aad, SEEKABLE_CHUNK_SIZE, [], index) == [] && ChunkCount(0, SEEKABLE_CHUNK_SIZE) == 0
  {
  }
}
