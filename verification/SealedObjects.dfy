/** What the range reader makes of objects that a writer stored and nobody touched. */
module SealedObjects {
  import opened ByteStrings
  import opened Aead
  import opened Envelope
  import opened ChunkReader

  /** Every chunk of `plain` has a number the format can hold. */
  ghost predicate ChunksFit(plain: Bytes, chunkSize: nat) {
    forall i: nat :: i * chunkSize < |plain| ==> IndexFits(i)
  }

  /** `obj` is a header followed by the chunks of `plain`, sealed as `f` says. */
  ghost predicate IsSealed(obj: Stored, f: Frame, key: Key, plain: Bytes) {
    && f.chunkSize > 0 && ChunksFit(plain, f.chunkSize)
    && f.offset <= |obj| && obj[f.offset..] == SealChunks(key, f.fileNonce, f.aad, f.chunkSize, plain, 0)
  }

  function ChunkOf(f: Frame, key: Key, plain: Bytes, index: nat, position: nat): (r: Sealing) {
    ChunkSealing(key, f.fileNonce, f.aad, index, Slice(plain, position, position + f.chunkSize))
  }

  /** The first chunk, and what is left. */
  lemma ChunksUnfold(key: Key, fn: Bytes, aad: Bytes, size: nat, plain: Bytes, first: nat)
    requires size > 0 && plain != []
    ensures SealChunks(key, fn, aad, size, plain, first)
            == Seal(ChunkSealing(key, fn, aad, first, Slice(plain, 0, size)))
               + SealChunks(key, fn, aad, size, Slice(plain, size, |plain|), first + 1)
  {
    hide Seal, ChunkSealing;
  }

  lemma NoChunk(key: Key, fn: Bytes, aad: Bytes, size: nat, first: nat)
    requires size > 0
    ensures SealChunks(key, fn, aad, size, [], first) == []
  {
  }

  /** The i-th run of chunk_size + 16 cells is the i-th chunk, or nothing behind the last one. */
  lemma {:induction false} SealedRun(f: Frame, key: Key, plain: Bytes, first: nat, i: nat, at: nat, position: nat)
    requires f.chunkSize > 0 && at == i * (f.chunkSize + TAG_SIZE) && position == i * f.chunkSize
    ensures Slice(SealChunks(key, f.fileNonce, f.aad, f.chunkSize, plain, first), at, at + f.chunkSize + TAG_SIZE)
            == if position < |plain| then Seal(ChunkOf(f, key, plain, first + i, position)) else []
    decreases i
  {
    hide Slice, Seal, SealChunks, ChunkSealing;
    var size := f.chunkSize;
    var cells := SealChunks(key, f.fileNonce, f.aad, size, plain, first);
    if plain == [] {
      NoChunk(key, f.fileNonce, f.aad, size, first);
      SliceLengths(cells, at, at + size + TAG_SIZE);
    } else {
      var chunk, rest := Slice(plain, 0, size), Slice(plain, size, |plain|);
      ChunksUnfold(key, f.fileNonce, f.aad, size, plain, first);
      SliceLengths(plain, 0, size);
      SliceLengths(plain, size, |plain|);
      var head := Seal(ChunkSealing(key, f.fileNonce, f.aad, first, chunk));
      var tail := SealChunks(key, f.fileNonce, f.aad, size, rest, first + 1);
      assert |head| == |chunk| + TAG_SIZE by { SealedLength(key, f.fileNonce, f.aad, first, chunk); }
      if rest == [] {
        NoChunk(key, f.fileNonce, f.aad, size, first + 1);
      }
      if i == 0 {
        SliceOfHead(head, tail, size + TAG_SIZE);
      } else {
        Succ(i - 1, size);
        Succ(i - 1, size + TAG_SIZE);
        if |plain| <= size {
          SliceLengths(head + tail, at, at + size + TAG_SIZE);
        } else {
          SliceOfTail(head, tail, at, at + size + TAG_SIZE);
          SealedRun(f, key, rest, first + 1, i - 1, at - size - TAG_SIZE, position - size);
          SliceOfRest(plain, size, position);
        }
      }
    }
  }

  lemma SealedLength(key: Key, fn: Bytes, aad: Bytes, index: nat, chunk: Bytes)
    ensures |Seal(ChunkSealing(key, fn, aad, index, chunk))| == |chunk| + TAG_SIZE
  {
  }

  lemma SliceOfRest(plain: Bytes, size: nat, position: nat)
    requires size <= position && size <= |plain|
    ensures Slice(Slice(plain, size, |plain|), position - size, position - size + size)
            == Slice(plain, position, position + size)
  {
    hide Slice;
    SliceOfSlice(plain, size, |plain|, position - size, position);
    SliceClip(plain, position, position + size);
  }

  lemma SealedSlot(obj: Stored, f: Frame, key: Key, plain: Bytes, i: nat)
    requires IsSealed(obj, f, key, plain)
    ensures var position := i * f.chunkSize;
            Slot(obj, f, SlotAt(f, i)) == if position < |plain| then Seal(ChunkOf(f, key, plain, i, position)) else []
  {
    hide Seal, ChunkOf, Slice, SealChunks;
    var run := i * (f.chunkSize + TAG_SIZE);
    SealedRun(f, key, plain, 0, i, run, i * f.chunkSize);
    assert obj == obj[..f.offset] + obj[f.offset..];
    SliceOfTail(obj[..f.offset], obj[f.offset..], f.offset + run, f.offset + run + f.chunkSize + TAG_SIZE);
  }

  /** With the key among the candidates, exactly the chunks of `plain` open. */
  lemma SealedSlotOpens(obj: Stored, f: Frame, key: Key, plain: Bytes, keys: seq<Key>, i: nat)
    requires IsSealed(obj, f, key, plain) && key in keys
    ensures var position := i * f.chunkSize;
            OpenSlot(obj, f, keys, i, SlotAt(f, i))
            == if position < |plain| then Some(Slice(plain, position, position + f.chunkSize)) else None
  {
    hide Slice, Seal;
    SealedSlot(obj, f, key, plain, i);
    if i * f.chunkSize < |plain| {
      OpenSealed(keys, ChunkOf(f, key, plain, i, i * f.chunkSize));
    }
  }

  lemma SealedIsAuthentic(obj: Stored, f: Frame, key: Key, plain: Bytes, keys: seq<Key>)
    requires IsSealed(obj, f, key, plain) && key in keys
    ensures Authentic(obj, f, keys, plain)
  {
    hide Slice, OpenSlot;
    forall i: nat | IndexFits(i) && OpenSlot(obj, f, keys, i, SlotAt(f, i)).Some?
      ensures i * f.chunkSize < |plain|
      ensures OpenSlot(obj, f, keys, i, SlotAt(f, i)).value == Slice(plain, i * f.chunkSize, (i + 1) * f.chunkSize)
    {
      SealedSlotOpens(obj, f, key, plain, keys, i);
      Succ(i, f.chunkSize);
    }
  }

  lemma IndexOfChunkFits(obj: Stored, f: Frame, key: Key, plain: Bytes, index: nat)
    requires IsSealed(obj, f, key, plain) && index * f.chunkSize < |plain|
    ensures IndexFits(index)
  {
  }

  /** A walk over a sealed object completes exactly if the part it may read is there. */
  lemma {:induction false} WalkSealed(obj: Stored, f: Frame, key: Key, plain: Bytes, keys: seq<Key>,
                                      start: nat, end: nat, index: nat, at: nat, position: nat)
    requires IsSealed(obj, f, key, plain) && key in keys && start < end
    requires start < position + f.chunkSize
    requires at == SlotAt(f, index) && position == index * f.chunkSize
    ensures var y := Walk(obj, f, keys, start, end, index, at, position);
            && (y.status.Done? <==> Min(end, f.length) <= Max(position, |plain|))
            && (y.status.Raised? ==> y.status.error == Truncated)
    decreases |obj| - at
  {
    hide OpenSlot, Slice, IsSealed, SlotAt, Walk;
    SealedSlot(obj, f, key, plain, index);
    if position >= end || position >= f.length || at >= |obj| {
      WalkEnds(obj, f, keys, start, end, index, at, position);
    } else {
      SealedSlotOpens(obj, f, key, plain, keys, index);
      SliceLengths(plain, position, position + f.chunkSize);
      IndexOfChunkFits(obj, f, key, plain, index);
      WalkStep(obj, f, keys, start, end, index, at, position);
      NextSlot(f, index);
      var next := position + |Slot(obj, f, at)| - TAG_SIZE;
      if position + f.chunkSize <= |plain| {
        WalkSealed(obj, f, key, plain, keys, start, end, index + 1, at + f.chunkSize + TAG_SIZE, next);
      } else {
        WalkEnds(obj, f, keys, start, end, index + 1, at + f.chunkSize + TAG_SIZE, next);
      }
    }
  }

  /** Any range of a sealed object: what it completes on, and what it yields. */
  lemma SealedRange(obj: Stored, f: Frame, key: Key, plain: Bytes, keys: seq<Key>, start: nat, length: nat)
    requires f.chunkSize > 0 && IsSealed(obj, f, key, plain) && key in keys && length > 0
    ensures var y := ReadFrame(obj, f, keys, start, length);
            && Flatten(y.pieces) <= Slice(plain, start, start + length)
            && (|plain| <= f.length && y.status.Done? ==> Flatten(y.pieces) == Slice(plain, start, start + length))
            && (f.length <= |plain| ==> y.status.Done?)
  {
    hide Walk, OpenSlot, Slice, IsSealed;
    var index := FirstIndex(start, f.chunkSize);
    var at, position := SlotAt(f, index), index * f.chunkSize;
    SealedIsAuthentic(obj, f, key, plain, keys);
    WalkAuthentic(obj, f, keys, plain, start, start + length, index, at, position);
    WalkSealed(obj, f, key, plain, keys, start, start + length, index, at, position);
  }

  predicate GoodNonce(fileNonce: Bytes) {
    |fileNonce| == FILE_NONCE_SIZE
  }

  /** The sizes the v2 header can carry, for an object the reader accepts. */
  predicate V2Fits(length: nat, plain: Bytes, chunkSize: nat) {
    && 0 < chunkSize <= MAX_CHUNK_SIZE
    && SizesFit(length, ChunkCount(length, chunkSize), chunkSize)
    && ChunkCount(|plain|, chunkSize) <= 0x1_0000_0000
  }

  lemma ChunksFitFromCount(plain: Bytes, chunkSize: nat)
    requires chunkSize > 0 && ChunkCount(|plain|, chunkSize) <= 0x1_0000_0000
    ensures ChunksFit(plain, chunkSize)
  {
    forall i: nat | i * chunkSize < |plain| ensures IndexFits(i) {
      var n := |plain| + chunkSize - 1;
      assert n / chunkSize * chunkSize <= n < (n / chunkSize + 1) * chunkSize;
      if i >= n / chunkSize {
        MulLe(n / chunkSize, i, chunkSize);
      }
    }
  }

  lemma MulLe(a: nat, b: nat, c: nat)
    requires a <= b
    ensures a * c <= b * c
  {
  }

  /** A written v2 object parses to the frame it was written with. */
  lemma EncodedV2IsSealed(key: Key, path: Path, fn: Bytes, chunkSize: nat, length: nat, plain: Bytes) returns (f: Frame)
    requires GoodNonce(fn) && V2Fits(length, plain, chunkSize)
    ensures var obj := EncodeV2(key, path, fn, chunkSize, length, plain);
            && IsSealed(obj, f, key, plain) && f.length == length && f.chunkSize == chunkSize
            && |Header(obj)| == SEEKABLE_HEADER_V2_SIZE && SeekableVersion(Header(obj)) == 2
            && FrameV2(path, Header(obj)) == Ok(f) && SeekableSize(obj) == Ok(length)
  {
    hide SealChunks, Slice, ToBig, FromBig, Values, Header, ChunkSizeField, LengthField, CountField, FileNonce;
    var n := ChunkCount(length, chunkSize);
    f := Frame(SEEKABLE_HEADER_V2_SIZE, chunkSize, fn, V2Aad(path, fn, length, n, chunkSize), length);
    var head := Raws(HeaderV2(fn, chunkSize, length, n));
    var cells := SealChunks(key, fn, f.aad, chunkSize, plain, 0);
    HeaderV2Parses(fn, chunkSize, length, n, cells);
    ChunksFitFromCount(plain, chunkSize);
    assert (head + cells)[33..] == cells;
    NoChunks(chunkSize);
  }

  /** What the writer stores says so: chunks of 1 MiB behind a header of 33 bytes. */
  lemma WrittenInMebibytes(key: Key, path: Path, fn: Bytes, length: nat, plain: Bytes)
    requires GoodNonce(fn) && V2Fits(length, plain, SEEKABLE_CHUNK_SIZE)
    ensures var obj := EncodeV2(key, path, fn, SEEKABLE_CHUNK_SIZE, length, plain);
            && ChunkSizeField(Header(obj)) == 1048576 && LengthField(Header(obj)) == length && |Header(obj)| == 33
            && CountField(Header(obj)) == (length + 1048575) / 1048576
  {
    hide SealChunks, HeaderV2, Header, ChunkSizeField, LengthField, CountField, FileNonce, Raws, V2Aad;
    var n := ChunkCount(length, SEEKABLE_CHUNK_SIZE);
    HeaderV2Parses(fn, SEEKABLE_CHUNK_SIZE, length, n,
                   SealChunks(key, fn, V2Aad(path, fn, length, n, SEEKABLE_CHUNK_SIZE), SEEKABLE_CHUNK_SIZE, plain, 0));
  }

  lemma NoChunks(chunkSize: nat)
    requires chunkSize > 0
    ensures ChunkCount(0, chunkSize) == 0
  {
  }

  lemma EncodedV1IsSealed(key: Key, path: Path, fn: Bytes, length: nat, plain: Bytes) returns (f: Frame)
    requires GoodNonce(fn) && length < 0x1_0000_0000_0000_0000
    requires ChunkCount(|plain|, SEEKABLE_CHUNK_SIZE) <= 0x1_0000_0000
    ensures var obj := EncodeV1(key, path, fn, length, plain);
            && IsSealed(obj, f, key, plain) && f.length == length && SeekableVersion(Header(obj)) == 1
            && f.chunkSize == 1048576 && f.offset == 29
            && FrameV1(path, Header(obj)) == f && SeekableSize(obj) == Ok(length)
  {
    f := Frame(SEEKABLE_HEADER_SIZE, SEEKABLE_CHUNK_SIZE, fn, V1Aad(path, fn), length);
    var cells := SealChunks(key, fn, f.aad, SEEKABLE_CHUNK_SIZE, plain, 0);
    HeaderV1Parses(fn, length, cells);
    ChunksFitFromCount(plain, SEEKABLE_CHUNK_SIZE);
    assert (Raws(HeaderV1(fn, length)) + cells)[29..] == cells;
  }

  /** Range reads refine slicing: sealing a plaintext and reading any range back gives that slice,
      for every chunk size the reader accepts, also beyond the end and inside the short last chunk. */
  lemma RangeRefinesSlicing(key: Key, path: Path, fn: Bytes, chunkSize: nat, plain: Bytes,
                            keys: seq<Key>, start: nat, length: nat)
    requires GoodNonce(fn) && V2Fits(|plain|, plain, chunkSize) && key in keys
    ensures var y := ReadRange(EncodeV2(key, path, fn, chunkSize, |plain|, plain), path, keys, start, length);
            y.status == Done && Flatten(y.pieces) == Slice(plain, start, start + length)
  {
    hide ReadFrame, IsSealed, Slice;
    var f := EncodedV2IsSealed(key, path, fn, chunkSize, |plain|, plain);
    if length > 0 {
      SealedRange(EncodeV2(key, path, fn, chunkSize, |plain|, plain), f, key, plain, keys, start, length);
    } else {
      SliceLengths(plain, start, start);
    }
  }

  lemma V1RangeRefinesSlicing(key: Key, path: Path, fn: Bytes, plain: Bytes,
                              keys: seq<Key>, start: nat, length: nat)
    requires GoodNonce(fn) && ChunkCount(|plain|, SEEKABLE_CHUNK_SIZE) <= 0x1_0000_0000 && key in keys
    ensures var y := ReadRange(EncodeV1(key, path, fn, |plain|, plain), path, keys, start, length);
            y.status == Done && Flatten(y.pieces) == Slice(plain, start, start + length)
  {
    hide ReadFrame, IsSealed, Slice;
    PlainFits(plain);
    var f := EncodedV1IsSealed(key, path, fn, |plain|, plain);
    if length > 0 {
      SealedRange(EncodeV1(key, path, fn, |plain|, plain), f, key, plain, keys, start, length);
    } else {
      SliceLengths(plain, start, start);
    }
  }

  lemma PlainFits(plain: Bytes)
    requires ChunkCount(|plain|, SEEKABLE_CHUNK_SIZE) <= 0x1_0000_0000
    ensures |plain| < 0x1_0000_0000_0000_0000
  {
  }

  /** What a sealed frame opens to when the length in its header is not the plaintext's. */
  function Shown(plain: Bytes, length: nat): (r: Result<Bytes>) {
    if length <= |plain| then Ok(plain[..length]) else Err(Truncated)
  }

  lemma SealedWhole(obj: Stored, f: Frame, key: Key, plain: Bytes, keys: seq<Key>)
    requires f.chunkSize > 0 && IsSealed(obj, f, key, plain) && key in keys && f.length > 0
    ensures var y := ReadFrame(obj, f, keys, 0, f.length);
            Shown(plain, f.length) == if y.status.Done? then Ok(Flatten(y.pieces)) else Err(y.status.error)
  {
    hide Walk, OpenSlot, IsSealed, Slice, SlotAt;
    var y := ReadFrame(obj, f, keys, 0, f.length);
    assert FirstIndex(0, f.chunkSize) == 0;
    WalkSealed(obj, f, key, plain, keys, 0, f.length, 0, SlotAt(f, 0), 0);
    if y.status.Done? {
      SealedRange(obj, f, key, plain, keys, 0, f.length);
      WalkTotal(obj, f, keys, 0, f.length, 0, SlotAt(f, 0), 0);
      PrefixOfLength(plain, Flatten(y.pieces), f.length);
    }
  }

  /** The v2 writer trusts `length`: a stream of another size is stored without an error, and reads
      back as the plaintext exactly if the length was true. A longer stream is cut, a shorter one fails. */
  lemma DeclaredLength(key: Key, path: Path, fn: Bytes, chunkSize: nat, length: nat, plain: Bytes, keys: seq<Key>)
    requires GoodNonce(fn) && V2Fits(length, plain, chunkSize) && key in keys
    ensures var got := OpenSeekable(EncodeV2(key, path, fn, chunkSize, length, plain), path, keys);
            got == Shown(plain, length) && (got == Ok(plain) <==> length == |plain|)
  {
    hide ReadFrame, IsSealed;
    var obj := EncodeV2(key, path, fn, chunkSize, length, plain);
    var f := EncodedV2IsSealed(key, path, fn, chunkSize, length, plain);
    if length > 0 {
      SealedWhole(obj, f, key, plain, keys);
    }
    if length <= |plain| {
      assert plain[..length] == plain <==> length == |plain|;
    }
  }

  /** The hole v2 closes: an edited v1 length goes unnoticed exactly if it is not beyond the plaintext. */
  lemma V1LengthEdit(key: Key, path: Path, fn: Bytes, length: nat, plain: Bytes, keys: seq<Key>)
    requires GoodNonce(fn) && length < 0x1_0000_0000_0000_0000 && key in keys
    requires ChunkCount(|plain|, SEEKABLE_CHUNK_SIZE) <= 0x1_0000_0000
    ensures OpenSeekable(EncodeV1(key, path, fn, length, plain), path, keys) == Shown(plain, length)
  {
    hide ReadFrame, IsSealed;
    var f := EncodedV1IsSealed(key, path, fn, length, plain);
    if length > 0 {
      SealedWhole(EncodeV1(key, path, fn, length, plain), f, key, plain, keys);
    }
  }
}
