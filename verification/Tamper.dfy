/** Tamper evidence: what a reader can be made to yield by somebody who may store any bytes at all,
    including pieces of honest ciphertexts, but who cannot forge a ciphertext. */
module Tamper {
  import opened ByteStrings
  import opened Aead
  import opened Envelope
  import opened ChunkReader
  import opened SealedObjects

  /** One honest encryption: the two chunked envelopes and the two single-blob forms. */
  datatype Write =
    | ChunkedV2(key: Key, path: Path, fileNonce: Bytes, chunkSize: nat, plain: Bytes)
    | ChunkedV1(key: Key, path: Path, fileNonce: Bytes, plain: Bytes)
    | Blob(key: Key, path: Path, nonce: Bytes, plain: Bytes)
    | Legacy(key: Key, nonce: Bytes, plain: Bytes)

  ghost predicate ValidWrite(w: Write) {
    match w
    case ChunkedV2(_, _, fn, cs, plain) => GoodNonce(fn) && V2Fits(|plain|, plain, cs)
    case ChunkedV1(_, _, fn, plain) => GoodNonce(fn) && ChunksFit(plain, SEEKABLE_CHUNK_SIZE)
    case Blob(_, _, nonce, _) => |nonce| == NONCE_SIZE
    case Legacy(_, nonce, _) => |nonce| == NONCE_SIZE
  }

  /** The frame a chunked write was sealed with. */
  function WriteFrame(w: Write): (r: Frame)
    requires (w.ChunkedV2? && w.chunkSize > 0) || w.ChunkedV1?
  {
    if w.ChunkedV2? then
      Frame(SEEKABLE_HEADER_V2_SIZE, w.chunkSize, w.fileNonce,
            V2Aad(w.path, w.fileNonce, |w.plain|, ChunkCount(|w.plain|, w.chunkSize), w.chunkSize), |w.plain|)
    else
      Frame(SEEKABLE_HEADER_SIZE, SEEKABLE_CHUNK_SIZE, w.fileNonce, V1Aad(w.path, w.fileNonce), |w.plain|)
  }

  /** `s` is one of the ciphertexts the write produced. */
  ghost predicate Made(w: Write, s: Sealing) {
    match w
    case ChunkedV2(_, _, _, _, _) => w.chunkSize > 0 && MadeChunk(w, s)
    case ChunkedV1(_, _, _, _) => MadeChunk(w, s)
    case Blob(key, path, nonce, plain) => s == Sealing(key, nonce, BlobAad(path), plain)
    case Legacy(key, nonce, plain) => s == Sealing(key, nonce, [], plain)
  }

  ghost predicate MadeChunk(w: Write, s: Sealing)
    requires (w.ChunkedV2? && w.chunkSize > 0) || w.ChunkedV1?
  {
    exists i: nat {:trigger IndexFits(i)} :: IndexFits(i) && IsChunk(w, s, i)
  }

  ghost predicate IsChunk(w: Write, s: Sealing, i: nat)
    requires (w.ChunkedV2? && w.chunkSize > 0) || w.ChunkedV1?
  {
    var f := WriteFrame(w);
    i * f.chunkSize < |w.plain| && s == ChunkOf(f, w.key, w.plain, i, i * f.chunkSize)
  }

  /** No forgery: every ciphertext byte under one of `keys` comes from an honest write. Bytes under
      other keys, and bytes that are no ciphertext, are anybody's. */
  ghost predicate Unforged(obj: Stored, keys: seq<Key>, history: set<Write>) {
    forall c :: c in obj && c.Cipher? && c.sealing.key in keys ==> exists w :: w in history && Made(w, c.sealing)
  }

  /** The writers' 8 random bytes never repeat among chunked writes of one version. */
  ghost predicate Fresh(history: set<Write>) {
    && (forall w :: w in history ==> ValidWrite(w))
    && (forall w, w' | w in history && w' in history && w.ChunkedV2? && w'.ChunkedV2? ::
          w.fileNonce == w'.fileNonce ==> w == w')
    && (forall w, w' | w in history && w' in history && w.ChunkedV1? && w'.ChunkedV1? ::
          w.fileNonce == w'.fileNonce ==> w == w')
  }

  /** The write a v2 header speaks of. */
  predicate Names(w: Write, path: Path, header: Bytes) {
    && w.ChunkedV2? && w.path == path && w.fileNonce == FileNonce(header)
    && w.chunkSize == ChunkSizeField(header) && |w.plain| == LengthField(header)
  }

  predicate NamesV1(w: Write, path: Path, header: Bytes) {
    w.ChunkedV1? && w.path == path && w.fileNonce == FileNonce(header)
  }

  /** A slot that opens holds one whole honest ciphertext. */
  lemma SlotOrigin(obj: Stored, f: Frame, keys: seq<Key>, index: nat, history: set<Write>)
    returns (w: Write, s: Sealing)
    requires Unforged(obj, keys, history)
    requires OpenSlot(obj, f, keys, index, SlotAt(f, index)).Some?
    ensures w in history && Made(w, s) && s.key in keys
    ensures s.nonce == f.fileNonce + IndexBytes(index) && s.aad == f.aad + IndexBytes(index)
    ensures s.plain == OpenSlot(obj, f, keys, index, SlotAt(f, index)).value
  {
    hide IndexBytes;
    var cells := Slot(obj, f, SlotAt(f, index));
    var k := OpenedWasSealed(keys, f.fileNonce + IndexBytes(index), cells, f.aad + IndexBytes(index));
    s := Sealing(k, f.fileNonce + IndexBytes(index), f.aad + IndexBytes(index),
                 OpenSlot(obj, f, keys, index, SlotAt(f, index)).value);
    assert cells[0] == Cipher(s, 0);
    assert cells[0] in obj;
    w :| w in history && Made(w, s);
  }

  /** Which write a v2 slot comes from, and that the chunk stands at its own place. */
  lemma V2SlotOrigin(obj: Stored, path: Path, keys: seq<Key>, index: nat, history: set<Write>) returns (w: Write)
    requires Unforged(obj, keys, history) && Fresh(history) && IndexFits(index)
    requires var h := Header(obj);
             |h| == SEEKABLE_HEADER_V2_SIZE && FrameV2(path, h).Ok? &&
             OpenSlot(obj, FrameV2(path, h).value, keys, index, SlotAt(FrameV2(path, h).value, index)).Some?
    ensures var h := Header(obj);
            var f := FrameV2(path, h).value;
            && w in history && Names(w, path, h) && w.key in keys && f == WriteFrame(w)
            && index * f.chunkSize < |w.plain|
            && OpenSlot(obj, f, keys, index, SlotAt(f, index)).value
               == Slice(w.plain, index * f.chunkSize, index * f.chunkSize + f.chunkSize)
  {
    hide OpenSlot, Slice, IndexBytes, V2Aad, V1Aad, BlobAad, ToBig, FromBig, Header, ChunkCount, Unforged;
    var h := Header(obj);
    var f := FrameV2(path, h).value;
    var s: Sealing;
    w, s := SlotOrigin(obj, f, keys, index, history);
    FieldsFit(h);
    NonceField(h);
    var len, n, cs := LengthField(h), CountField(h), ChunkSizeField(h);
    match w {
      case ChunkedV2(_, _, _, _, _) =>
        var i: nat :| IndexFits(i) && IsChunk(w, s, i);
        V2AadInjective(path, f.fileNonce, len, n, cs, index,
                       w.path, w.fileNonce, |w.plain|, ChunkCount(|w.plain|, w.chunkSize), w.chunkSize, i);
      case ChunkedV1(_, _, _, _) =>
        var i: nat :| IndexFits(i) && IsChunk(w, s, i);
        AadsDisjoint((path, f.fileNonce, len, n, cs), (w.path, w.fileNonce), [], index, i);
        assert false;
      case Blob(_, _, _, _) =>
        AadsDisjoint((path, f.fileNonce, len, n, cs), (path, []), w.path, index, index);
        assert false;
      case Legacy(_, _, _) =>
        assert false;
    }
  }

  lemma NonceField(h: Bytes)
    requires |h| >= SEEKABLE_HEADER_SIZE
    ensures |FileNonce(h)| == FILE_NONCE_SIZE
  {
  }

  lemma V1SlotOrigin(obj: Stored, path: Path, keys: seq<Key>, index: nat, history: set<Write>) returns (w: Write)
    requires Unforged(obj, keys, history) && Fresh(history) && IndexFits(index)
    requires |Header(obj)| >= SEEKABLE_HEADER_SIZE
    requires var f := FrameV1(path, Header(obj)); OpenSlot(obj, f, keys, index, SlotAt(f, index)).Some?
    ensures var f := FrameV1(path, Header(obj));
            && w in history && NamesV1(w, path, Header(obj)) && w.key in keys
            && index * f.chunkSize < |w.plain|
            && OpenSlot(obj, f, keys, index, SlotAt(f, index)).value
               == Slice(w.plain, index * f.chunkSize, index * f.chunkSize + f.chunkSize)
  {
    hide OpenSlot, Slice, IndexBytes, V2Aad, V1Aad, BlobAad, ToBig, FromBig, Header, ChunkCount, Unforged;
    var f := FrameV1(path, Header(obj));
    var s: Sealing;
    w, s := SlotOrigin(obj, f, keys, index, history);
    NonceField(Header(obj));
    match w {
      case ChunkedV2(_, _, _, _, _) =>
        var i: nat :| IndexFits(i) && IsChunk(w, s, i);
        AadsDisjoint((w.path, w.fileNonce, |w.plain|, ChunkCount(|w.plain|, w.chunkSize), w.chunkSize),
                     (path, f.fileNonce), [], i, index);
        assert false;
      case ChunkedV1(_, _, _, _) =>
        var i: nat :| IndexFits(i) && IsChunk(w, s, i);
        V1AadInjective(path, f.fileNonce, index, w.path, w.fileNonce, i);
      case Blob(_, _, _, _) =>
        AadsDisjoint((path, [], index, index, index), (path, f.fileNonce), w.path, index, index);
        assert false;
      case Legacy(_, _, _) =>
        assert false;
    }
  }

  /** What a v2 read may yield, given who wrote the object. */
  ghost predicate IsHonestRange(y: Yield, w: Write, path: Path, header: Bytes,
                                keys: seq<Key>, start: nat, length: nat) {
    && Names(w, path, header) && w.key in keys
    && Flatten(y.pieces) <= Slice(w.plain, start, start + length)
    && (y.status.Done? ==> Flatten(y.pieces) == Slice(w.plain, start, start + length))
  }

  /** Either nothing opens at all, or everything that opens belongs to one write. */
  lemma V2Authentic(obj: Stored, path: Path, keys: seq<Key>, history: set<Write>) returns (w: Option<Write>)
    requires Unforged(obj, keys, history) && Fresh(history)
    requires |Header(obj)| == SEEKABLE_HEADER_V2_SIZE && FrameV2(path, Header(obj)).Ok?
    ensures w.Some? ==> w.value in history && Names(w.value, path, Header(obj)) && w.value.key in keys
    ensures Authentic(obj, FrameV2(path, Header(obj)).value, keys, if w.Some? then w.value.plain else [])
  {
    hide OpenSlot, Slice, Header, FrameV2, Unforged;
    var f := FrameV2(path, Header(obj)).value;
    if index: nat :| IndexFits(index) && OpenSlot(obj, f, keys, index, SlotAt(f, index)).Some? {
      var first := V2SlotOrigin(obj, path, keys, index, history);
      w := Some(first);
      forall i: nat | IndexFits(i) && OpenSlot(obj, f, keys, i, SlotAt(f, i)).Some?
        ensures i * f.chunkSize < |first.plain|
        ensures OpenSlot(obj, f, keys, i, SlotAt(f, i)).value
              == Slice(first.plain, i * f.chunkSize, (i + 1) * f.chunkSize)
      {
        var other := V2SlotOrigin(obj, path, keys, i, history);
        assert other == first;
        Succ(i, f.chunkSize);
      }
    } else {
      w := None;
    }
  }

  /** Tamper evidence. For ANY stored bytes with a v2 header and without forgeries, everything the reader
      yields, even before it raises, is a prefix of the asked slice of the ONE plaintext that was honestly
      sealed under one of these keys for this path, file nonce and sizes; and a read that completes on a
      range that is not empty has yielded that slice whole. */
  lemma TamperEvidence(obj: Stored, path: Path, keys: seq<Key>, start: nat, length: nat, history: set<Write>)
    requires Unforged(obj, keys, history) && Fresh(history)
    requires SeekableVersion(Header(obj)) == 2
    ensures var y := ReadRange(obj, path, keys, start, length);
            var some := Flatten(y.pieces) != [] || (y.status.Done? && length > 0 && start < LengthField(Header(obj)));
            some ==> exists w :: w in history && IsHonestRange(y, w, path, Header(obj), keys, start, length)
  {
    hide OpenSlot, Slice, Header, FrameV2, Unforged, Walk, SlotAt;
    var header := Header(obj);
    var y := ReadRange(obj, path, keys, start, length);
    if length > 0 && |header| == SEEKABLE_HEADER_V2_SIZE && FrameV2(path, header).Ok? {
      var f := FrameV2(path, header).value;
      var w := V2Authentic(obj, path, keys, history);
      var index := FirstIndex(start, f.chunkSize);
      var plain := if w.Some? then w.value.plain else [];
      WalkAuthentic(obj, f, keys, plain, start, start + length, index, SlotAt(f, index), index * f.chunkSize);
      FrameLength(path, header);
      SliceLengths(plain, start, start + length);
      if y.status.Done? {
        WalkTotal(obj, f, keys, start, start + length, index, SlotAt(f, index), index * f.chunkSize);
      }
      if w.Some? {
        assert IsHonestRange(y, w.value, path, header, keys, start, length);
      }
    } else {
      assert y.pieces == [];
    }
  }

  lemma FrameLength(path: Path, header: Bytes)
    ensures FrameV2(path, header).Ok? ==> FrameV2(path, header).value.length == LengthField(header)
  {
  }

  lemma V1Authentic(obj: Stored, path: Path, keys: seq<Key>, history: set<Write>) returns (w: Option<Write>)
    requires Unforged(obj, keys, history) && Fresh(history)
    requires |Header(obj)| >= SEEKABLE_HEADER_SIZE
    ensures w.Some? ==> w.value in history && NamesV1(w.value, path, Header(obj)) && w.value.key in keys
    ensures Authentic(obj, FrameV1(path, Header(obj)), keys, if w.Some? then w.value.plain else [])
  {
    hide OpenSlot, Slice, Header, Unforged, FileNonce, V1Aad;
    var f := FrameV1(path, Header(obj));
    if index: nat :| IndexFits(index) && OpenSlot(obj, f, keys, index, SlotAt(f, index)).Some? {
      var first := V1SlotOrigin(obj, path, keys, index, history);
      w := Some(first);
      forall i: nat | IndexFits(i) && OpenSlot(obj, f, keys, i, SlotAt(f, i)).Some?
        ensures i * f.chunkSize < |first.plain|
        ensures OpenSlot(obj, f, keys, i, SlotAt(f, i)).value
              == Slice(first.plain, i * f.chunkSize, (i + 1) * f.chunkSize)
      {
        var other := V1SlotOrigin(obj, path, keys, i, history);
        assert other == first;
        Succ(i, f.chunkSize);
      }
    } else {
      w := None;
    }
  }

  /** The same for v1, where the header's length is nobody's promise: what is yielded is a prefix of the
      asked slice of one honest plaintext, but a completed read need not be that slice whole. */
  lemma V1TamperEvidence(obj: Stored, path: Path, keys: seq<Key>, start: nat, length: nat, history: set<Write>)
    requires Unforged(obj, keys, history) && Fresh(history)
    requires SeekableVersion(Header(obj)) == 1
    ensures var got := Flatten(ReadRange(obj, path, keys, start, length).pieces);
            got != [] ==> exists w :: w in history && NamesV1(w, path, Header(obj)) && w.key in keys
                                      && got <= Slice(w.plain, start, start + length)
  {
    hide OpenSlot, Slice, Header, Unforged, Walk, SlotAt, V1Aad, FileNonce, LengthField;
    if length > 0 {
      var f := FrameV1(path, Header(obj));
      var index := FirstIndex(start, f.chunkSize);
      if |obj| < SEEKABLE_HEADER_SIZE {
        SlotsBehindHeader(f, index);
        WalkEnds(obj, f, keys, start, start + length, index, SlotAt(f, index), index * f.chunkSize);
      } else {
        var w := V1Authentic(obj, path, keys, history);
        var plain := if w.Some? then w.value.plain else [];
        WalkAuthentic(obj, f, keys, plain, start, start + length, index, SlotAt(f, index), index * f.chunkSize);
        SliceLengths(plain, start, start + length);
      }
    }
  }

  lemma SlotsBehindHeader(f: Frame, index: nat)
    ensures f.offset <= SlotAt(f, index)
  {
  }

  /** A single blob that opens is one honest write for this very path; in the oldest form, which has no
      associated data, it is one honest write, but for any path at all. */
  lemma BlobTamperEvidence(obj: Stored, path: Path, keys: seq<Key>, history: set<Write>)
    requires Unforged(obj, keys, history) && Fresh(history) && DecryptPayload(obj, path, keys).Ok?
    ensures var plain := DecryptPayload(obj, path, keys).value;
            exists w :: w in history && w.plain == plain && w.key in keys
                        && if StartsWith(Values(obj), ENCRYPTED_FILE_MAGIC) then w.Blob? && w.path == path
                           else w.Legacy?
  {
    hide Values, V1Aad, V2Aad, BlobAad;
    var isCurrent := StartsWith(Values(obj), ENCRYPTED_FILE_MAGIC);
    var offset := if isCurrent then |ENCRYPTED_FILE_MAGIC| else 0;
    var nonce := Values(obj[offset..offset + NONCE_SIZE]);
    var cells := obj[offset + NONCE_SIZE..];
    var aad := if isCurrent then BlobAad(path) else [];
    var plain := DecryptPayload(obj, path, keys).value;
    var k := OpenedWasSealed(keys, nonce, cells, aad);
    var s := Sealing(k, nonce, aad, plain);
    assert cells[0] == Cipher(s, 0) && cells[0] in obj;
    var w :| w in history && Made(w, s);
    match w {
      case ChunkedV2(_, _, _, _, _) =>
        var i: nat :| IndexFits(i) && IsChunk(w, s, i);
        AadsDisjoint((w.path, w.fileNonce, |w.plain|, ChunkCount(|w.plain|, w.chunkSize), w.chunkSize),
                     (path, []), path, i, i);
        assert false;
      case ChunkedV1(_, _, _, _) =>
        var i: nat :| IndexFits(i) && IsChunk(w, s, i);
        AadsDisjoint((path, [], i, i, i), (w.path, w.fileNonce), path, i, i);
        assert false;
      case Blob(_, _, _, _) =>
        BlobAadIsSome(w.path);
        if isCurrent {
          BlobAadInjective(path, w.path);
        }
      case Legacy(_, _, _) =>
        BlobAadIsSome(path);
    }
  }

  lemma BlobAadIsSome(path: Path)
    ensures BlobAad(path) != []
  {
  }

  // ---- what counts as unforged, and two consequences ----

  /** The object an honest write stores. */
  function StoredBy(w: Write): (cells: Stored)
    requires w.ChunkedV2? ==> w.chunkSize > 0
  {
    match w
    case ChunkedV2(key, path, fn, cs, plain) => EncodeV2(key, path, fn, cs, |plain|, plain)
    case ChunkedV1(key, path, fn, plain) => EncodeV1(key, path, fn, |plain|, plain)
    case Blob(key, path, nonce, plain) => EncodeBlob(key, path, nonce, plain)
    case Legacy(key, nonce, plain) => EncodeLegacy(key, nonce, plain)
  }

  lemma {:induction false} ChunksAreMade(w: Write, i: nat, position: nat, c: Cell)
    requires ValidWrite(w) && (w.ChunkedV2? || w.ChunkedV1?)
    requires position == i * WriteFrame(w).chunkSize
    requires var f := WriteFrame(w);
             c in SealChunks(w.key, f.fileNonce, f.aad, f.chunkSize, Slice(w.plain, position, |w.plain|), i)
    ensures c.Cipher? && Made(w, c.sealing)
    decreases |w.plain| - position
  {
    hide V1Aad, V2Aad, ChunkCount, IndexBytes, Seal, Slice;
    var f := WriteFrame(w);
    var rest := Slice(w.plain, position, |w.plain|);
    SliceLengths(w.plain, position, |w.plain|);
    var s := ChunkSealing(w.key, f.fileNonce, f.aad, i, Slice(rest, 0, f.chunkSize));
    SliceBeyondEnd(w.plain, position, f.chunkSize);
    assert IsChunk(w, s, i);
    CountsFit(w);
    if c in Seal(s) {
      CellsOfSeal(s, c);
      assert IndexFits(i);
      assert MadeChunk(w, s);
    } else {
      NextSlot(f, i);
      RestOfRest(w.plain, position, f.chunkSize);
      ChunksAreMade(w, i + 1, position + f.chunkSize, c);
    }
  }

  lemma SliceBeyondEnd(plain: Bytes, position: nat, size: nat)
    ensures Slice(Slice(plain, position, |plain|), 0, size) == Slice(plain, position, position + size)
  {
  }

  lemma RestOfRest(plain: Bytes, position: nat, size: nat)
    ensures var rest := Slice(plain, position, |plain|);
            Slice(rest, size, |rest|) == Slice(plain, position + size, |plain|)
  {
  }

  lemma CellsOfSeal(s: Sealing, c: Cell)
    requires c in Seal(s)
    ensures c.Cipher? && c.sealing == s
  {
  }

  lemma CountsFit(w: Write)
    requires ValidWrite(w) && (w.ChunkedV2? || w.ChunkedV1?)
    ensures ChunksFit(w.plain, WriteFrame(w).chunkSize)
  {
    if w.ChunkedV2? {
      ChunksFitFromCount(w.plain, w.chunkSize);
    }
  }

  /** The cells an honest object is made of. */
  lemma StoredIsMade(w: Write, c: Cell)
    requires ValidWrite(w) && c in StoredBy(w) && c.Cipher?
    ensures Made(w, c.sealing)
  {
    hide V1Aad, V2Aad, BlobAad, ChunkCount, Seal, HeaderV2, HeaderV1;
    match w {
      case ChunkedV2(_, _, _, _, _) =>
        assert Slice(w.plain, 0, |w.plain|) == w.plain;
        assert c in SealChunks(w.key, w.fileNonce, WriteFrame(w).aad, w.chunkSize, w.plain, 0);
        ChunksAreMade(w, 0, 0, c);
      case ChunkedV1(_, _, _, _) =>
        assert Slice(w.plain, 0, |w.plain|) == w.plain;
        assert c in SealChunks(w.key, w.fileNonce, WriteFrame(w).aad, SEEKABLE_CHUNK_SIZE, w.plain, 0);
        ChunksAreMade(w, 0, 0, c);
      case Blob(key, path, nonce, plain) =>
        CellsOfSeal(Sealing(key, nonce, BlobAad(path), plain), c);
      case Legacy(key, nonce, plain) =>
        CellsOfSeal(Sealing(key, nonce, [], plain), c);
    }
  }

  /** Cutting honest objects up and putting the pieces together in any order, at any place, with any other
      bytes between them, is no forgery: tamper evidence speaks about all of these. */
  lemma SplicingIsUnforged(obj: Stored, keys: seq<Key>, history: set<Write>)
    requires Fresh(history)
    requires forall c :: c in obj && c.Cipher? ==> exists w :: w in history && ValidWrite(w) && c in StoredBy(w)
    ensures Unforged(obj, keys, history)
  {
    forall c | c in obj && c.Cipher? && c.sealing.key in keys ensures exists w :: w in history && Made(w, c.sealing) {
      var w :| w in history && ValidWrite(w) && c in StoredBy(w);
      StoredIsMade(w, c);
    }
  }

  /** The v2 header is bound: put any other nonce or sizes before the chunks of an object, or move the object
      to another path, and no read yields a single byte or completes on a range that is not empty. */
  lemma V2HeaderIsBound(w: Write, path: Path, fn: Bytes, chunkSize: nat, length: nat, count: nat,
                        keys: seq<Key>, start: nat, wanted: nat)
    requires ValidWrite(w) && w.ChunkedV2? && GoodNonce(fn) && SizesFit(length, count, chunkSize)
    requires (path, fn, chunkSize, length, count)
             != (w.path, w.fileNonce, w.chunkSize, |w.plain|, ChunkCount(|w.plain|, w.chunkSize))
    ensures var obj := Raws(HeaderV2(fn, chunkSize, length, count)) + StoredBy(w)[SEEKABLE_HEADER_V2_SIZE..];
            var y := ReadRange(obj, path, keys, start, wanted);
            Flatten(y.pieces) == [] && (y.status.Done? ==> wanted == 0 || length <= start)
  {
    var rest := StoredBy(w)[SEEKABLE_HEADER_V2_SIZE..];
    hide StoredBy, ReadFrame, Slice, FrameV2, HeaderV2, ChunkCount;
    var obj := Raws(HeaderV2(fn, chunkSize, length, count)) + rest;
    HeaderV2Parses(fn, chunkSize, length, count, rest);
    assert forall c | c in rest :: c in StoredBy(w);
    assert w in {w};
    SplicingIsUnforged(obj, keys, {w});
    var y := ReadRange(obj, path, keys, start, wanted);
    if Flatten(y.pieces) != [] || (y.status.Done? && wanted > 0 && start < length) {
      TamperEvidence(obj, path, keys, start, wanted, {w});
      ReadNeedsFrame(obj, path, keys, start, wanted);
      FrameCount(path, Header(obj));
      NoChunks(chunkSize);
      assert false;
    }
  }

  lemma FrameCount(path: Path, header: Bytes)
    requires FrameV2(path, header).Ok?
    ensures ChunkSizeField(header) > 0
    ensures CountField(header)
            == if LengthField(header) != 0 then ChunkCount(LengthField(header), ChunkSizeField(header)) else 0
  {
  }

  lemma ReadNeedsFrame(obj: Stored, path: Path, keys: seq<Key>, start: nat, length: nat)
    requires SeekableVersion(Header(obj)) == 2 && length > 0
    requires var y := ReadRange(obj, path, keys, start, length); Flatten(y.pieces) != [] || y.status.Done?
    ensures FrameV2(path, Header(obj)).Ok?
  {
  }
}
