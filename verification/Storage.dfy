/** The jobs that rewrite stored objects, over a store that may keep something else than it was given. */
module Storage {
  import opened ByteStrings
  import opened Aead
  import opened Envelope
  import opened ChunkReader
  import opened SealedObjects
  import opened RangeReader

  /** `.enc` */
  const ENCRYPTED_SUFFIX: Bytes := [0x2E, 0x65, 0x6E, 0x63]
  /** `.v2` */
  const V2_MARK: Bytes := [0x2E, 0x76, 0x32]

  predicate EndsWith(s: Bytes, suffix: Bytes) {
    |suffix| <= |s| && s[|s| - |suffix|..] == suffix
  }

  /** `upgraded_envelope_path` */
  function UpgradedPath(path: Path): (p: Path) {
    if EndsWith(path, ENCRYPTED_SUFFIX) then path[..|path| - 4] + V2_MARK + ENCRYPTED_SUFFIX
    else path + V2_MARK
  }

  /** The upgrade never writes over its source, and no two sources share a target. */
  lemma UpgradedPathIsNew(p: Path, q: Path)
    ensures UpgradedPath(p) != p
    ensures UpgradedPath(p) == UpgradedPath(q) ==> p == q
    ensures EndsWith(UpgradedPath(p), ENCRYPTED_SUFFIX) <==> EndsWith(p, ENCRYPTED_SUFFIX)
  {
    UpgradedEnd(p);
    UpgradedEnd(q);
    assert |UpgradedPath(p)| == |p| + 3;
    if UpgradedPath(p) == UpgradedPath(q) {
      if EndsWith(p, ENCRYPTED_SUFFIX) {
        assert p == UpgradedPath(p)[..|p| - 4] + ENCRYPTED_SUFFIX;
        assert q == UpgradedPath(q)[..|p| - 4] + ENCRYPTED_SUFFIX;
      } else {
        assert p == UpgradedPath(p)[..|p|];
        assert q == UpgradedPath(q)[..|p|];
      }
    }
  }

  /** The mark goes before `.enc`. */
  lemma UpgradedPathOf(base: Path)
    ensures UpgradedPath(base + [0x2E, 0x65, 0x6E, 0x63]) == base + [0x2E, 0x76, 0x32, 0x2E, 0x65, 0x6E, 0x63]
    ensures !EndsWith(base, [0x2E, 0x65, 0x6E, 0x63]) ==> UpgradedPath(base) == base + [0x2E, 0x76, 0x32]
  {
    var path := base + ENCRYPTED_SUFFIX;
    assert path[|path| - 4..] == ENCRYPTED_SUFFIX && path[..|path| - 4] == base;
  }

  lemma UpgradedEnd(p: Path)
    ensures EndsWith(UpgradedPath(p), ENCRYPTED_SUFFIX) <==> EndsWith(p, ENCRYPTED_SUFFIX)
  {
    var u := UpgradedPath(p);
    if EndsWith(p, ENCRYPTED_SUFFIX) {
      assert u[|u| - 4..] == ENCRYPTED_SUFFIX;
    } else {
      assert u[|u| - 1] == 0x32;
      assert ENCRYPTED_SUFFIX[3] == 0x63;
    }
  }

  // ---- what an object holds ----

  /** The first nine bytes, which is all `is_seekable_encrypted` and the size helper look at. */
  function Prefix(obj: Stored): (bytes: Bytes) {
    Values(Slice(obj, 0, |SEEKABLE_MAGIC_V2|))
  }

  /** `get_file_decrypted` */
  function OpenObject(obj: Stored, path: Path, keys: seq<Key>): (r: Result<Bytes>) {
    if SeekableVersion(Prefix(obj)) > 0 then OpenSeekable(obj, path, keys) else DecryptPayload(obj, path, keys)
  }

  /** `get_encrypted_plaintext_size`: from the stored sizes, without decrypting. */
  function EncryptedPlaintextSize(obj: Stored): (r: Result<nat>) {
    if SeekableVersion(Prefix(obj)) > 0 then SeekableSize(obj)
    else
      var magic := if Prefix(obj)[..Min(8, |Prefix(obj)|)] == ENCRYPTED_FILE_MAGIC then |ENCRYPTED_FILE_MAGIC| else 0;
      var size := |obj| - (NONCE_SIZE + TAG_SIZE + magic);
      if size < 0 then Err(TooShort) else Ok(size)
  }

  /** Nine bytes, the header and the whole object agree on what the object is. */
  lemma PrefixDecides(obj: Stored)
    ensures SeekableVersion(Prefix(obj)) == SeekableVersion(Header(obj))
    ensures var isBlob := StartsWith(Values(obj), ENCRYPTED_FILE_MAGIC);
            && (Prefix(obj)[..Min(8, |Prefix(obj)|)] == ENCRYPTED_FILE_MAGIC <==> isBlob)
            && (StartsWith(Header(obj), ENCRYPTED_FILE_MAGIC) <==> isBlob)
  {
    var p, h, v := Prefix(obj), Header(obj), Values(obj);
    assert forall i | 0 <= i < |p| :: p[i] == v[i] == h[i];
    assert |p| == Min(9, |obj|) && |h| == Min(33, |obj|);
    if |obj| >= 9 {
      assert p[..9] == h[..9];
      assert p[..8] == h[..8] == v[..8];
    } else {
      assert p == h == v;
    }
  }

  /** For every envelope that opens, of either kind, the size reported without decrypting is right. */
  lemma SizeAgrees(obj: Stored, path: Path, keys: seq<Key>)
    requires OpenObject(obj, path, keys).Ok?
    ensures EncryptedPlaintextSize(obj) == Ok(|OpenObject(obj, path, keys).value|)
  {
    hide Prefix, Header, Values, OpenSeekable, DecryptPayload;
    PrefixDecides(obj);
    if SeekableVersion(Prefix(obj)) > 0 {
      SizeIsLength(obj, path, keys);
    } else {
      PayloadSize(obj, path, keys);
    }
  }

  /** Writing a plaintext and opening it again gives it back, in both envelopes. */
  lemma SealThenOpen(key: Key, path: Path, fn: Bytes, nonce: Bytes, plain: Bytes, keys: seq<Key>)
    requires GoodNonce(fn) && |nonce| == NONCE_SIZE && key in keys
    ensures OpenObject(EncodeBlob(key, path, nonce, plain), path, keys) == Ok(plain)
    ensures V2Fits(|plain|, plain, SEEKABLE_CHUNK_SIZE) ==>
              OpenObject(EncodeV2(key, path, fn, SEEKABLE_CHUNK_SIZE, |plain|, plain), path, keys) == Ok(plain)
    ensures ChunkCount(|plain|, SEEKABLE_CHUNK_SIZE) <= 0x1_0000_0000 ==>
              OpenObject(EncodeV1(key, path, fn, |plain|, plain), path, keys) == Ok(plain)
  {
    hide Prefix, OpenSeekable, DecryptPayload, EncodeV2, EncodeV1, EncodeBlob, Header, ChunkCount, IsSealed;
    if ChunkCount(|plain|, SEEKABLE_CHUNK_SIZE) <= 0x1_0000_0000 {
      PlainFits(plain);
      PrefixDecides(EncodeV1(key, path, fn, |plain|, plain));
      V1LengthEdit(key, path, fn, |plain|, plain, keys);
      var g := EncodedV1IsSealed(key, path, fn, |plain|, plain);
      assert plain[..|plain|] == plain;
    }
    PrefixDecides(EncodeBlob(key, path, nonce, plain));
    BlobOpens(key, path, nonce, plain, keys);
    if V2Fits(|plain|, plain, SEEKABLE_CHUNK_SIZE) {
      PrefixDecides(EncodeV2(key, path, fn, SEEKABLE_CHUNK_SIZE, |plain|, plain));
      DeclaredLength(key, path, fn, SEEKABLE_CHUNK_SIZE, |plain|, plain, keys);
      var f := EncodedV2IsSealed(key, path, fn, SEEKABLE_CHUNK_SIZE, |plain|, plain);
    }
  }

  /** Whether the nonce of an object of the oldest form happens to read as one of the magics. */
  predicate ReadsAsMagic(nonce: Bytes) {
    StartsWith(nonce, ENCRYPTED_FILE_MAGIC) || SeekableVersion(nonce) > 0
  }

  /** The oldest form carries no mark, so it opens exactly if its random nonce is not taken for one. */
  lemma LegacyOpensExactly(key: Key, path: Path, nonce: Bytes, plain: Bytes, keys: seq<Key>)
    requires |nonce| == NONCE_SIZE && key in keys
    ensures OpenObject(EncodeLegacy(key, nonce, plain), path, keys) == Ok(plain) <==> !ReadsAsMagic(nonce)
    ensures !ReadsAsMagic(nonce) ==> SeekableVersion(Prefix(EncodeLegacy(key, nonce, plain))) == 0
  {
    hide OpenSeekable, DecryptPayload, Header, Prefix, EncodeLegacy;
    var obj := EncodeLegacy(key, nonce, plain);
    LegacyPrefix(key, nonce, plain);
    PrefixDecides(obj);
    if SeekableVersion(nonce) > 0 {
      LegacyIsNotChunked(key, path, nonce, plain, keys);
    } else if StartsWith(nonce, ENCRYPTED_FILE_MAGIC) {
      LegacyIsNotBlob(key, path, nonce, plain, keys);
    } else {
      LegacyDecrypts(key, path, nonce, plain, keys);
    }
  }

  lemma LegacyPrefix(key: Key, nonce: Bytes, plain: Bytes)
    requires |nonce| == NONCE_SIZE
    ensures var obj := EncodeLegacy(key, nonce, plain);
            && SeekableVersion(Prefix(obj)) == SeekableVersion(nonce)
            && (StartsWith(Values(obj), ENCRYPTED_FILE_MAGIC) <==> StartsWith(nonce, ENCRYPTED_FILE_MAGIC))
  {
    var obj := EncodeLegacy(key, nonce, plain);
    assert forall i | 0 <= i < 12 :: Values(obj)[i] == nonce[i];
    assert Prefix(obj)[..9] == nonce[..9];
    assert Values(obj)[..8] == nonce[..8];
  }

  lemma LegacyDecrypts(key: Key, path: Path, nonce: Bytes, plain: Bytes, keys: seq<Key>)
    requires |nonce| == NONCE_SIZE && key in keys
    requires !StartsWith(Values(EncodeLegacy(key, nonce, plain)), ENCRYPTED_FILE_MAGIC)
    ensures DecryptPayload(EncodeLegacy(key, nonce, plain), path, keys) == Ok(plain)
  {
    hide Seal, StartsWith, BlobAad;
    var obj, s := EncodeLegacy(key, nonce, plain), Sealing(key, nonce, [], plain);
    assert obj[12..] == Seal(s);
    assert Values(obj[0..12]) == nonce;
    OpenSealed(keys, s);
  }

  /** Cut at the wrong place a ciphertext does not open. */
  lemma LegacyIsNotBlob(key: Key, path: Path, nonce: Bytes, plain: Bytes, keys: seq<Key>)
    requires |nonce| == NONCE_SIZE
    requires StartsWith(Values(EncodeLegacy(key, nonce, plain)), ENCRYPTED_FILE_MAGIC)
    ensures DecryptPayload(EncodeLegacy(key, nonce, plain), path, keys).Err?
  {
    hide StartsWith, BlobAad, Values;
    var obj := EncodeLegacy(key, nonce, plain);
    if DecryptPayload(obj, path, keys).Ok? {
      var plain' := DecryptPayload(obj, path, keys).value;
      var k := OpenedWasSealed(keys, Values(obj[8..20]), obj[20..], BlobAad(path));
      assert false;
    }
  }

  /** Taken for a chunked object, it would have to hold nothing, and is too long for that. */
  lemma LegacyIsNotChunked(key: Key, path: Path, nonce: Bytes, plain: Bytes, keys: seq<Key>)
    requires |nonce| == NONCE_SIZE
    ensures OpenSeekable(EncodeLegacy(key, nonce, plain), path, keys) != Ok(plain)
  {
    hide ReadRange, FromBig;
    var obj := EncodeLegacy(key, nonce, plain);
    if OpenSeekable(obj, path, keys) == Ok(plain) {
      SizeIsLength(obj, path, keys);
      assert forall i | 12 <= i < |Header(obj)| :: Header(obj)[i] == 0;
      ZeroIsZero(Slice(Header(obj), 21, 29));
      assert false;
    }
  }

  lemma {:induction false} ZeroIsZero(s: Bytes)
    requires forall i :: 0 <= i < |s| ==> s[i] == 0
    ensures FromBig(s) == 0
  {
    if s != [] {
      ZeroIsZero(s[..|s| - 1]);
    }
  }

  // ---- moves ----

  datatype Kind = Chunked | Blob | Plain

  function KindOf(obj: Stored): (r: Kind) {
    if SeekableVersion(Header(obj)) > 0 then Chunked
    else if StartsWith(Header(obj), ENCRYPTED_FILE_MAGIC) then Kind.Blob
    else Plain
  }

  /** Whether an object begins with one of the three magics. */
  predicate HasMagic(obj: Stored) {
    || StartsWith(Values(obj), ENCRYPTED_FILE_MAGIC)
    || StartsWith(Values(obj), SEEKABLE_MAGIC)
    || StartsWith(Values(obj), SEEKABLE_MAGIC_V2)
  }

  /** The content of an object as the job for its kind reads it. */
  function Content(kind: Kind, obj: Stored, path: Path, keys: seq<Key>): (r: Result<Bytes>) {
    match kind
    case Chunked => OpenSeekable(obj, path, keys)
    case Blob => DecryptPayload(obj, path, keys)
    case Plain => Ok(Values(obj))
  }

  /** The magics decide the kind, and the job for an envelope reads what any reader of the object would. */
  lemma KindDecides(obj: Stored, path: Path, keys: seq<Key>)
    ensures KindOf(obj) == Plain <==> !HasMagic(obj)
    ensures KindOf(obj) == Kind.Blob <==> StartsWith(Values(obj), ENCRYPTED_FILE_MAGIC)
    ensures HasMagic(obj) ==> Content(KindOf(obj), obj, path, keys) == OpenObject(obj, path, keys)
  {
    hide OpenSeekable, DecryptPayload, Header, Prefix, Values;
    PrefixDecides(obj);
    VersionOfValues(obj);
  }

  lemma VersionOfValues(obj: Stored)
    ensures SeekableVersion(Header(obj)) > 0 <==>
              StartsWith(Values(obj), SEEKABLE_MAGIC) || StartsWith(Values(obj), SEEKABLE_MAGIC_V2)
    ensures SeekableVersion(Header(obj)) == 2 <==> StartsWith(Values(obj), SEEKABLE_MAGIC_V2)
    ensures StartsWith(Values(obj), ENCRYPTED_FILE_MAGIC) ==> SeekableVersion(Header(obj)) == 0
  {
    var h, v := Header(obj), Values(obj);
    assert forall i | 0 <= i < |h| :: h[i] == v[i];
    if |obj| >= 9 {
      assert h[..9] == v[..9];
      if StartsWith(v, ENCRYPTED_FILE_MAGIC) {
        assert v[5] == v[..8][5] == 2;
        assert h[..9][5] == 2;
      }
    }
  }

  /** Everything the writers store, but for the oldest form, begins with a magic. */
  lemma EnvelopesHaveMagic(key: Key, path: Path, fn: Bytes, nonce: Bytes, chunkSize: nat, length: nat, plain: Bytes)
    requires GoodNonce(fn) && |nonce| == NONCE_SIZE && chunkSize > 0
    ensures StartsWith(Values(EncodeBlob(key, path, nonce, plain)), ENCRYPTED_FILE_MAGIC)
    ensures StartsWith(Values(EncodeV1(key, path, fn, length, plain)), SEEKABLE_MAGIC)
    ensures StartsWith(Values(EncodeV2(key, path, fn, chunkSize, length, plain)), SEEKABLE_MAGIC_V2)
  {
    hide SealChunks, Seal, ToBig, ChunkCount;
    var a, b, c := EncodeBlob(key, path, nonce, plain), EncodeV1(key, path, fn, length, plain),
                   EncodeV2(key, path, fn, chunkSize, length, plain);
    assert Values(a)[..8] == ENCRYPTED_FILE_MAGIC;
    assert Values(b)[..9] == SEEKABLE_MAGIC;
    assert Values(c)[..9] == SEEKABLE_MAGIC_V2;
  }

  predicate LengthFits(length: nat) {
    SizesFit(length, ChunkCount(length, SEEKABLE_CHUNK_SIZE), SEEKABLE_CHUNK_SIZE)
  }

  /** The source opens, and its length can be written. */
  predicate CanMove(kind: Kind, plain: Result<Bytes>) {
    plain.Ok? && (kind == Chunked ==> LengthFits(|plain.value|))
  }

  /** What a move gives its store. */
  function Resealed(kind: Kind, source: Stored, plain: Bytes, target: Path, key: Key, fileNonce: Bytes, nonce: Bytes)
    : (cells: Stored)
  {
    match kind
    case Chunked => EncodeV2(key, target, fileNonce, SEEKABLE_CHUNK_SIZE, |plain|, plain)
    case Blob => EncodeBlob(key, target, nonce, plain)
    case Plain => source
  }

  /** What a move of an envelope gives its store opens at the new place, as any object is opened. */
  lemma ResealedOpens(kind: Kind, source: Stored, plain: Bytes, target: Path, key: Key, fileNonce: Bytes,
                      nonce: Bytes, keys: seq<Key>)
    requires kind != Plain && GoodNonce(fileNonce) && |nonce| == NONCE_SIZE && key in keys
    requires kind == Chunked ==> LengthFits(|plain|)
    ensures OpenObject(Resealed(kind, source, plain, target, key, fileNonce, nonce), target, keys) == Ok(plain)
  {
    hide Prefix, OpenSeekable, DecryptPayload, EncodeV2, EncodeBlob, Header, LengthFits;
    PrefixDecides(Resealed(kind, source, plain, target, key, fileNonce, nonce));
    if kind == Chunked {
      SealedTarget(key, target, fileNonce, plain, keys);
    } else {
      BlobOpens(key, target, nonce, plain, keys);
    }
  }

  lemma ResealedIsOfItsKind(kind: Kind, source: Stored, plain: Bytes, target: Path, key: Key, fileNonce: Bytes,
                            nonce: Bytes, keys: seq<Key>)
    requires kind != Plain && GoodNonce(fileNonce) && |nonce| == NONCE_SIZE && key in keys
    requires kind == Chunked ==> LengthFits(|plain|)
    ensures Content(kind, Resealed(kind, source, plain, target, key, fileNonce, nonce), target, keys) == Ok(plain)
  {
    hide OpenSeekable, DecryptPayload, EncodeV2, EncodeBlob, Header, LengthFits;
    if kind == Chunked {
      SealedTarget(key, target, fileNonce, plain, keys);
    } else {
      BlobOpens(key, target, nonce, plain, keys);
    }
  }

  lemma ResealedServes(kind: Kind, source: Stored, plain: Bytes, target: Path, key: Key, fileNonce: Bytes,
                       nonce: Bytes, keys: seq<Key>)
    requires kind != Plain && GoodNonce(fileNonce) && |nonce| == NONCE_SIZE && key in keys
    requires kind == Chunked ==> LengthFits(|plain|)
    ensures var cells := Resealed(kind, source, plain, target, key, fileNonce, nonce);
            && OpenObject(cells, target, keys) == Ok(plain) && OpenObject(cells, target, [key]) == Ok(plain)
            && Content(kind, cells, target, keys) == Ok(plain)
  {
    hide OpenObject, Content, Resealed, LengthFits, GoodNonce;
    ResealedOpens(kind, source, plain, target, key, fileNonce, nonce, keys);
    ResealedOpens(kind, source, plain, target, key, fileNonce, nonce, [key]);
    ResealedIsOfItsKind(kind, source, plain, target, key, fileNonce, nonce, keys);
  }

  /** When `reencrypt_to_path` returns, given what its store has kept as the target. Sizes are asked of the store
      again, so a plain object that is moved onto itself is compared with itself. */
  predicate MoveAccepts(source: Stored, sourcePath: Path, sourceKeys: seq<Key>,
                        landed: Stored, targetPath: Path, targetKeys: seq<Key>)
  {
    var kind := KindOf(source);
    if kind == Plain then sourcePath == targetPath || |landed| == |source|
    else
      var plain := Content(kind, source, sourcePath, sourceKeys);
      && plain.Ok? && (kind == Chunked ==> LengthFits(|plain.value|))
      && Content(kind, landed, targetPath, targetKeys) == plain
  }

  /** The target carries what the source held. */
  predicate Carries(source: Stored, sourcePath: Path, sourceKeys: seq<Key>,
                    landed: Stored, targetPath: Path, targetKeys: seq<Key>)
  {
    var kind := KindOf(source);
    if kind == Plain then landed == source
    else
      && Content(kind, source, sourcePath, sourceKeys).Ok?
      && Content(kind, landed, targetPath, targetKeys) == Content(kind, source, sourcePath, sourceKeys)
  }

  /** A move that returns is verified, whatever the store did, exactly if the source is an envelope, or empty and
      not moved onto itself: the copy of a plain object is compared by size alone. */
  lemma MoveIsVerified(source: Stored, sourcePath: Path, sourceKeys: seq<Key>, targetPath: Path, targetKeys: seq<Key>)
    ensures (forall landed :: MoveAccepts(source, sourcePath, sourceKeys, landed, targetPath, targetKeys) ==>
                                Carries(source, sourcePath, sourceKeys, landed, targetPath, targetKeys))
            <==> KindOf(source) != Plain || (source == [] && sourcePath != targetPath)
  {
    hide Content, KindOf;
    if KindOf(source) == Plain {
      if source != [] {
        var other := source[0 := if source[0] == Raw(0) then Raw(1) else Raw(0)];
        assert other[0] != source[0];
        assert MoveAccepts(source, sourcePath, sourceKeys, other, targetPath, targetKeys);
        assert !Carries(source, sourcePath, sourceKeys, other, targetPath, targetKeys);
      } else if sourcePath == targetPath {
        assert MoveAccepts(source, sourcePath, sourceKeys, [Raw(0)], targetPath, targetKeys);
        assert !Carries(source, sourcePath, sourceKeys, [Raw(0)], targetPath, targetKeys);
      }
    }
  }

  /** What an accepted move of an envelope leaves, as any later reader opens it: the source's plaintext, exactly
      unless the source is a single blob and the store has kept a thing that begins like a chunked object. The job
      reads a blob back as a blob, without asking what it reads. */
  lemma AcceptedMoveOpens(source: Stored, sourcePath: Path, sourceKeys: seq<Key>,
                          landed: Stored, targetPath: Path, targetKeys: seq<Key>)
    requires HasMagic(source) && MoveAccepts(source, sourcePath, sourceKeys, landed, targetPath, targetKeys)
    ensures OpenObject(source, sourcePath, sourceKeys).Ok?
    ensures OpenObject(landed, targetPath, targetKeys) == OpenObject(source, sourcePath, sourceKeys)
            <==> !(&& StartsWith(Values(source), ENCRYPTED_FILE_MAGIC)
                   && (StartsWith(Values(landed), SEEKABLE_MAGIC) || StartsWith(Values(landed), SEEKABLE_MAGIC_V2)))
  {
    hide OpenSeekable, DecryptPayload, Header, Prefix, Values, StartsWith, HasMagic, LengthFits;
    KindDecides(source, sourcePath, sourceKeys);
    PrefixDecides(landed);
    VersionOfValues(landed);
    if KindOf(source) == Chunked {
      OpenNeedsVersion(landed, targetPath, targetKeys);
    } else if SeekableVersion(Prefix(landed)) > 0 {
      NotBoth(landed, targetPath, targetKeys);
    }
  }

  /** Such a thing: the same plaintext in the oldest form, under a nonce that begins like a chunked object. */
  lemma MisreadMove(key: Key, from: Path, to: Path, nonce: Bytes, plain: Bytes)
    requires |nonce| == NONCE_SIZE
    ensures var source := EncodeBlob(key, from, nonce, plain);
            var landed := EncodeLegacy(key, SEEKABLE_MAGIC + [0, 0, 0], plain);
            && MoveAccepts(source, from, [key], landed, to, [key])
            && OpenObject(landed, to, [key]) != Ok(plain)
  {
    hide OpenObject, OpenSeekable, DecryptPayload, Header, EncodeBlob, EncodeLegacy, HasMagic, Values;
    var odd := SEEKABLE_MAGIC + [0, 0, 0];
    var source, landed := EncodeBlob(key, from, nonce, plain), EncodeLegacy(key, odd, plain);
    assert odd[..9] == SEEKABLE_MAGIC && odd[6] == 1 && odd[5] == 0x53 && odd[..8][5] == 0x53;
    LegacyPrefix(key, odd, plain);
    LegacyDecrypts(key, to, odd, plain, [key]);
    LegacyOpensExactly(key, to, odd, plain, [key]);
    BlobOpens(key, from, nonce, plain, [key]);
  }

  lemma OpenNeedsVersion(obj: Stored, path: Path, keys: seq<Key>)
    requires OpenSeekable(obj, path, keys).Ok?
    ensures SeekableVersion(Header(obj)) > 0
  {
  }

  /** No object opens both ways to the same. */
  lemma NotBoth(obj: Stored, path: Path, keys: seq<Key>)
    requires SeekableVersion(Header(obj)) > 0 && DecryptPayload(obj, path, keys).Ok?
    ensures OpenSeekable(obj, path, keys) != DecryptPayload(obj, path, keys)
  {
    hide OpenSeekable, DecryptPayload, Header, FromBig, Values, Slice;
    VersionOfValues(obj);
    var plain := DecryptPayload(obj, path, keys).value;
    if OpenSeekable(obj, path, keys) == Ok(plain) {
      OpensAsOldest(obj, path, keys);
      SizeIsLength(obj, path, keys);
      SizeInCiphertext(obj);
      assert false;
    }
  }

  lemma OpensAsOldest(obj: Stored, path: Path, keys: seq<Key>)
    requires !StartsWith(Values(obj), ENCRYPTED_FILE_MAGIC) && DecryptPayload(obj, path, keys).Ok?
    ensures |obj| == |DecryptPayload(obj, path, keys).value| + NONCE_SIZE + TAG_SIZE
    ensures forall i :: 12 <= i < |obj| ==> obj[i].Cipher?
  {
    hide StartsWith, Values;
    var k := OpenedWasSealed(keys, Values(obj[0..0 + NONCE_SIZE]), obj[0 + NONCE_SIZE..], []);
    assert forall i | 12 <= i < |obj| :: obj[i] == obj[0 + NONCE_SIZE..][i - 12];
  }

  /** A size that is read out of ciphertext bytes reads as nothing, and leaves room for something. */
  lemma SizeInCiphertext(obj: Stored)
    requires forall i :: 12 <= i < |obj| ==> obj[i].Cipher?
    ensures SeekableSize(obj).Ok? ==> SeekableSize(obj).value == 0 && |obj| >= 29
  {
    hide FromBig;
    assert forall i | 12 <= i < |Header(obj)| :: Header(obj)[i] == Value(obj[i]) == 0;
    ZeroIsZero(Slice(Header(obj), 21, 29));
  }

  /** For instance, a store that keeps one other byte is not noticed; nor, on a move onto itself, one that makes
      something out of nothing. */
  lemma PlainMoveCounterexample()
    ensures MoveAccepts([Raw(7)], [1], [], [Raw(8)], [2], []) && !Carries([Raw(7)], [1], [], [Raw(8)], [2], [])
    ensures MoveAccepts([], [1], [], [Raw(7)], [1], []) && !Carries([], [1], [], [Raw(7)], [1], [])
  {
    assert Header([Raw(7)]) == [7];
    assert Header([]) == [];
  }

  /** What a call of the backend's save leaves under the name: what it was given, or anything else, or nothing new
      and an error, or an error although something has been stored. */
  datatype SaveOutcome = Faithful | Corrupt(kept: Stored) | Refuse | Broken(kept: Stored)
  {
    predicate Returns() {
      Faithful? || Corrupt?
    }

    /** What is stored under `path` afterwards. */
    function Leaves(objects: map<Path, Stored>, path: Path, data: Stored): (after: map<Path, Stored>)
      ensures after - {path} == objects - {path}
    {
      match this
      case Faithful => objects[path := data]
      case Corrupt(kept) => objects[path := kept]
      case Refuse => objects
      case Broken(kept) => objects[path := kept]
    }
  }

  datatype Report = Report(kind: Kind, plaintextBytes: nat)

  /** What an integrity check reports; a plain object has no digest. */
  datatype Verdict = Verdict(kind: Kind, plaintextBytes: nat, digest: Option<Bytes>)

  class Backend {
    var objects: map<Path, Stored>
    /** The application key, and behind it the legacy keys. */
    var ring: seq<Key>

    ghost predicate Valid()
      reads this
    {
      ring != []
    }

    /** An explicit key stands alone; without one the ring is tried in order. */
    function Candidates(key: Option<Key>): (keys: seq<Key>)
      requires Valid()
      reads this
      ensures WriteKey(key) in keys
      ensures forall k :: k in keys <==> if key.Some? then k == key.value else k in ring
    {
      if key.Some? then [key.value] else ring
    }

    function WriteKey(key: Option<Key>): (r: Key)
      requires Valid()
      reads this
    {
      if key.Some? then key.value else ring[0]
    }

    method Save(data: Stored, path: Path, outcome: SaveOutcome) returns (r: Result<()>)
      modifies this`objects
      ensures r == if outcome.Returns() then Ok(()) else Err(Refused)
      ensures objects == outcome.Leaves(old(objects), path, data)
    {
      match outcome {
        case Faithful => objects := objects[path := data]; r := Ok(());
        case Corrupt(kept) => objects := objects[path := kept]; r := Ok(());
        case Refuse => r := Err(Refused);
        case Broken(kept) => objects := objects[path := kept]; r := Err(Refused);
      }
    }

    /** `_seekable_reader`: a reader over a stored object. */
    method OpenReader(path: Path, total: nat, keys: seq<Key>) returns (reader: Reader)
      requires path in objects
      ensures fresh(reader) && reader.Valid() && reader.digest == []
      ensures var y := ReadRange(objects[path], path, keys, 0, total);
              reader.Remaining() == Flatten(y.pieces) && reader.ending == y.status
    {
      reader := new Reader(ReadRange(objects[path], path, keys, 0, total));
    }

    /** `save_file_encrypted_seekable` of a stream whose length is known. */
    method SaveSeekable(stream: Reader, path: Path, key: Option<Key>, length: nat, fileNonce: Bytes,
                      outcome: SaveOutcome)
      returns (r: Result<()>)
      requires Valid() && stream.Valid()
      modifies this`objects, stream
      ensures stream.Valid()
      ensures var sealed := EncodeV2(WriteKey(key), path, fileNonce, SEEKABLE_CHUNK_SIZE,
                                      length, old(stream.Remaining()));
              var written := LengthFits(length) && old(stream.ending).Done?
                             && ChunkCount(|old(stream.Remaining())|, SEEKABLE_CHUNK_SIZE) <= 0x1_0000_0000;
              && (r.Ok? <==> written && outcome.Returns())
              && (r.Ok? ==> stream.digest == old(stream.digest) + old(stream.Remaining()))
              && objects == if written then outcome.Leaves(old(objects), path, sealed) else old(objects)
      ensures r.Err? ==> r.error == Overflow || r.error == Refused || old(stream.ending) == Raised(r.error)
    {
      var payload := WriteSeekableV2(stream, path, WriteKey(key), length, fileNonce);
      if payload.Err? {
        return Err(payload.error);
      }
      r := Save(payload.value, path, outcome);
    }

    /** The copy job common to both rewrites: `total` plaintext bytes of `source` go to `target`. */
    method CopySeekable(source: Path, target: Path, sourceKeys: seq<Key>, targetKey: Option<Key>, total: nat,
                        fileNonce: Bytes, outcome: SaveOutcome)
      returns (r: Result<Bytes>)
      requires Valid() && source in objects && SeekableSize(objects[source]) == Ok(total) && GoodNonce(fileNonce)
      modifies this`objects
      ensures var plain := OpenSeekable(old(objects[source]), source, sourceKeys);
              var written := plain.Ok? && LengthFits(total);
              && (r.Ok? <==> written && outcome.Returns()) && (r.Ok? ==> r == plain)
              && objects == if !written then old(objects)
                            else outcome.Leaves(old(objects), target,
                                                EncodeV2(WriteKey(targetKey), target, fileNonce, SEEKABLE_CHUNK_SIZE,
                                                         total, plain.value))
      ensures r.Err? ==> r.error != DecryptedShort
    {
      OpenErrors(objects[source], source, sourceKeys);
      var reader := OpenReader(source, total, sourceKeys);
      ghost var plain := reader.Remaining();
      if reader.ending.Done? {
        TotalOrError(objects[source], source, sourceKeys, 0, total);
      }
      var saved := SaveSeekable(reader, target, targetKey, total, fileNonce, outcome);
      if saved.Err? {
        return Err(saved.error);
      }
      if reader.count != total {
        return Err(DecryptedShort);
      }
      assert [] + plain == plain;
      return Ok(reader.digest);
    }

    /** The read-back common to both rewrites: what the stored target opens to. */
    method ReadBack(target: Path, keys: seq<Key>) returns (r: Result<Bytes>)
      requires target in objects
      ensures r == OpenSeekable(objects[target], target, keys)
    {
      var size := SeekableSize(objects[target]);
      if size.Err? {
        return Err(size.error);
      }
      var restored := OpenReader(target, size.value, keys);
      ghost var plain := restored.Remaining();
      r := restored.Drain();
      assert [] + plain == plain;
    }

    /** `verify_encrypted_object`. It fails exactly when the object does not open; the check for a short read
        can never be what fails. */
    method VerifyEncryptedObject(path: Path, key: Option<Key>) returns (r: Result<Verdict>)
      requires Valid()
      ensures path !in objects ==> r == Err(NotFound)
      ensures path in objects ==>
        var kind := KindOf(objects[path]);
        var plain := Content(kind, objects[path], path, Candidates(key));
        r == if plain.Err? then Err(plain.error)
             else Ok(Verdict(kind, |plain.value|, if kind == Plain then None else Some(plain.value)))
      ensures path in objects ==>
        var plain := OpenObject(objects[path], path, Candidates(key));
        if !HasMagic(objects[path]) then r == Ok(Verdict(Plain, |objects[path]|, None))
        else if plain.Err? then r == Err(plain.error)
        else r.Ok? && r.value.kind != Plain && r.value.plaintextBytes == |plain.value|
             && r.value.digest == Some(plain.value)
    {
      if path !in objects {
        return Err(NotFound);
      }
      var obj := objects[path];
      KindDecides(obj, path, Candidates(key));
      hide HasMagic, OpenObject;
      match KindOf(obj) {
        case Plain =>
          return Ok(Verdict(Plain, |obj|, None));
        case Chunked =>
          hide ReadRange, SeekableSize;
          var total := SeekableSize(obj);
          if total.Err? {
            return Err(total.error);
          }
          var y := ReadRange(obj, path, Candidates(key), 0, total.value);
          var digest, read := [], 0;
          for i := 0 to |y.pieces|
            invariant digest == Flatten(y.pieces[..i]) && read == |digest|
          {
            FlattenConcat(y.pieces[..i], [y.pieces[i]]);
            assert y.pieces[..i + 1] == y.pieces[..i] + [y.pieces[i]];
            digest := digest + y.pieces[i];
            read := read + |y.pieces[i]|;
          }
          assert y.pieces[..|y.pieces|] == y.pieces;
          if y.status.Raised? {
            return Err(y.status.error);
          }
          TotalOrError(obj, path, Candidates(key), 0, total.value);
          if read != total.value {
            assert false;
            return Err(DecryptedShort);
          }
          return Ok(Verdict(Chunked, read, Some(digest)));
        case Blob =>
          var plain := DecryptPayload(obj, path, Candidates(key));
          if plain.Err? {
            return Err(plain.error);
          }
          return Ok(Verdict(Kind.Blob, |plain.value|, Some(plain.value)));
      }
    }

    /** `upgrade_seekable_envelope`. Whatever the store keeps, a path that comes back names a v2 object that opens
        under the same keys to what the v1 source opens to; nothing but that object has changed; and with a
        faithful store the upgrade succeeds on every v1 object that opens. */
    method UpgradeSeekableEnvelope(path: Path, key: Option<Key>, fileNonce: Bytes, outcome: SaveOutcome)
      returns (r: Result<Path>)
      requires Valid() && GoodNonce(fileNonce)
      modifies this`objects
      ensures objects - {UpgradedPath(path)} == old(objects) - {UpgradedPath(path)}
      ensures path in objects <==> path in old(objects)
      ensures path in objects ==> objects[path] == old(objects[path])
      ensures r.Ok? ==> && path in objects && SeekableVersion(Header(objects[path])) == 1
                        && r.value == UpgradedPath(path) && r.value in objects
                        && SeekableVersion(Header(objects[r.value])) == 2
                        && OpenSeekable(objects[path], path, Candidates(key)).Ok?
                        && OpenSeekable(objects[r.value], r.value, Candidates(key))
                           == OpenSeekable(objects[path], path, Candidates(key))
      ensures outcome.Faithful? ==>
        (r.Ok? <==> && path in objects && SeekableVersion(Header(objects[path])) == 1
                    && OpenSeekable(objects[path], path, Candidates(key)).Ok?
                    && LengthFits(|OpenSeekable(objects[path], path, Candidates(key)).value|))
      ensures objects == if path !in old(objects) || SeekableVersion(Header(old(objects[path]))) != 1 then old(objects)
                         else
                           var plain := OpenSeekable(old(objects[path]), path, Candidates(key));
                           if !CanMove(Chunked, plain) then old(objects)
                           else outcome.Leaves(old(objects), UpgradedPath(path),
                                               EncodeV2(WriteKey(key), UpgradedPath(path), fileNonce,
                                                        SEEKABLE_CHUNK_SIZE, |plain.value|, plain.value))
      ensures path in objects && SeekableVersion(Header(objects[path])) == 1 && outcome.Returns() ==>
                var plain, target := OpenSeekable(objects[path], path, Candidates(key)), UpgradedPath(path);
                r.Ok? <==> && plain.Ok? && LengthFits(|plain.value|)
                           && target in objects && SeekableVersion(Header(objects[target])) == 2
                           && OpenSeekable(objects[target], target, Candidates(key)) == plain
      ensures path in objects && OpenSeekable(objects[path], path, Candidates(key)).Err? ==> objects == old(objects)
    {
      hide OpenSeekable, SeekableSize, Header, EncodeV2, EndsWith, UpgradedPath;
      UpgradedPathIsNew(path, path);
      if path !in objects {
        return Err(NotFound);
      }
      if SeekableVersion(Header(objects[path])) != 1 {
        return Err(NotV1);
      }
      var total := SeekableSize(objects[path]);
      if total.Err? {
        OpenNeedsSize(objects[path], path, Candidates(key));
        return Err(total.error);
      }
      var target := UpgradedPath(path);
      var copied := CopySeekable(path, target, Candidates(key), key, total.value, fileNonce, outcome);
      if OpenSeekable(objects[path], path, Candidates(key)).Ok? {
        SizeIsLength(objects[path], path, Candidates(key));
      }
      if outcome.Faithful? && copied.Ok? {
        SealedTarget(WriteKey(key), target, fileNonce, copied.value, Candidates(key));
      }
      if copied.Err? {
        return Err(copied.error);
      }
      if OpenSeekable(objects[target], target, Candidates(key)).Ok? {
        SizeIsLength(objects[target], target, Candidates(key));
      }
      if SeekableVersion(Header(objects[target])) != 2 {
        return Err(NotV2);
      }
      var checkTotal := SeekableSize(objects[target]);
      if checkTotal.Err? {
        OpenNeedsSize(objects[target], target, Candidates(key));
        return Err(checkTotal.error);
      }
      if checkTotal.value != total.value {
        return Err(LengthDiffers);
      }
      var restored := ReadBack(target, Candidates(key));
      if restored.Err? {
        return Err(restored.error);
      }
      if restored.value != copied.value {
        return Err(ReadBackDiffers);
      }
      return Ok(target);
    }

    /** A move of a chunked object. */
    method MoveChunked(source: Path, target: Path, sourceKey: Option<Key>, targetKey: Option<Key>, fileNonce: Bytes,
                       outcome: SaveOutcome)
      returns (r: Result<Report>)
      requires Valid() && GoodNonce(fileNonce) && source in objects
      modifies this`objects
      ensures var plain := OpenSeekable(old(objects[source]), source, Candidates(sourceKey));
              && objects == (if !CanMove(Chunked, plain) then old(objects)
                             else outcome.Leaves(old(objects), target,
                                                 EncodeV2(WriteKey(targetKey), target, fileNonce, SEEKABLE_CHUNK_SIZE,
                                                          |plain.value|, plain.value)))
              && (r.Ok? <==> CanMove(Chunked, plain) && outcome.Returns()
                             && OpenSeekable(objects[target], target, Candidates(targetKey)) == plain)
              && (r.Ok? ==> r.value == Report(Chunked, |plain.value|))
    {
      hide OpenSeekable, SeekableSize, EncodeV2, LengthFits;
      var from := objects[source];
      var total := SeekableSize(from);
      if total.Err? {
        OpenNeedsSize(from, source, Candidates(sourceKey));
        return Err(total.error);
      }
      var copied := CopySeekable(source, target, Candidates(sourceKey), targetKey, total.value, fileNonce, outcome);
      if OpenSeekable(from, source, Candidates(sourceKey)).Ok? {
        SizeIsLength(from, source, Candidates(sourceKey));
      }
      if copied.Err? {
        return Err(copied.error);
      }
      var restored := ReadBack(target, Candidates(targetKey));
      if restored.Err? {
        return Err(restored.error);
      }
      if restored.value != copied.value {
        return Err(ReadBackDiffers);
      }
      return Ok(Report(Chunked, total.value));
    }

    /** A move of a single blob. */
    method MoveBlob(source: Path, target: Path, sourceKey: Option<Key>, targetKey: Option<Key>, nonce: Bytes,
                    outcome: SaveOutcome)
      returns (r: Result<Report>)
      requires Valid() && source in objects
      modifies this`objects
      ensures var plain := DecryptPayload(old(objects[source]), source, Candidates(sourceKey));
              && objects == (if plain.Err? then old(objects)
                             else outcome.Leaves(old(objects), target,
                                                 EncodeBlob(WriteKey(targetKey), target, nonce, plain.value)))
              && (r.Ok? <==> plain.Ok? && outcome.Returns()
                             && DecryptPayload(objects[target], target, Candidates(targetKey)) == plain)
              && (r.Ok? ==> r.value == Report(Kind.Blob, |plain.value|))
    {
      hide DecryptPayload, EncodeBlob;
      var plain := DecryptPayload(objects[source], source, Candidates(sourceKey));
      if plain.Err? {
        return Err(plain.error);
      }
      var saved := Save(EncodeBlob(WriteKey(targetKey), target, nonce, plain.value), target, outcome);
      if saved.Err? {
        return Err(saved.error);
      }
      var written := DecryptPayload(objects[target], target, Candidates(targetKey));
      if written.Err? {
        return Err(written.error);
      }
      if written.value != plain.value {
        return Err(ReadBackDiffers);
      }
      return Ok(Report(Kind.Blob, |plain.value|));
    }

    /** A move of anything else: a copy, not a re-encryption. */
    method MovePlain(source: Path, target: Path, outcome: SaveOutcome) returns (r: Result<Report>)
      requires source in objects
      modifies this`objects
      ensures objects == outcome.Leaves(old(objects), target, old(objects[source]))
      ensures r.Ok? <==> outcome.Returns() && (source == target || |objects[target]| == |old(objects[source])|)
      ensures r.Ok? ==> r.value == Report(Plain, |objects[source]|)
    {
      var saved := Save(objects[source], target, outcome);
      if saved.Err? {
        return Err(saved.error);
      }
      if |objects[target]| != |objects[source]| {
        return Err(SizeDiffers);
      }
      return Ok(Report(Plain, |objects[source]|));
    }

    /** `reencrypt_to_path`. It returns exactly when MoveAccepts what the store kept; on every exit all other
        objects, and with another target path the source, are unchanged. */
    method ReencryptToPath(source: Path, target: Path, sourceKey: Option<Key>, targetKey: Option<Key>,
                           fileNonce: Bytes, nonce: Bytes, outcome: SaveOutcome)
      returns (r: Result<Report>)
      requires Valid() && GoodNonce(fileNonce) && |nonce| == NONCE_SIZE
      modifies this`objects
      ensures objects - {target} == old(objects) - {target}
      ensures r.Ok? ==>
                && source in old(objects) && target in objects
                && MoveAccepts(old(objects[source]), source, Candidates(sourceKey),
                               objects[target], target, Candidates(targetKey))
                && r.value.kind == KindOf(old(objects[source]))
                && (r.value.kind != Plain ==>
                      r.value.plaintextBytes
                      == |Content(r.value.kind, old(objects[source]), source, Candidates(sourceKey)).value|)
      ensures objects == if source !in old(objects) then old(objects)
                         else
                           var from := old(objects[source]);
                           var plain := Content(KindOf(from), from, source, Candidates(sourceKey));
                           if !CanMove(KindOf(from), plain) then old(objects)
                           else outcome.Leaves(old(objects), target,
                                               Resealed(KindOf(from), from, plain.value, target, WriteKey(targetKey),
                                                        fileNonce, nonce))
      ensures outcome.Returns() && source in old(objects) && target in objects ==>
                (r.Ok? <==> MoveAccepts(old(objects[source]), source, Candidates(sourceKey),
                                        objects[target], target, Candidates(targetKey)))
      ensures outcome.Faithful? && source in old(objects) ==>
        var from := old(objects[source]);
        var plain := Content(KindOf(from), from, source, Candidates(sourceKey));
        (r.Ok? <==> plain.Ok? && (KindOf(from) == Chunked ==> LengthFits(|plain.value|)))
        && (r.Ok? && KindOf(from) == Plain ==> objects[target] == from)
      ensures source in old(objects)
              && Content(KindOf(old(objects[source])), old(objects[source]), source, Candidates(sourceKey)).Err?
              ==> objects == old(objects)
      ensures r.Ok? ==> (r.value.kind == Plain <==> !HasMagic(old(objects[source])))
      ensures outcome.Faithful? && source in old(objects) ==>
        var plain := OpenObject(old(objects[source]), source, Candidates(sourceKey));
        if !HasMagic(old(objects[source])) then r.Ok? && objects[target] == old(objects[source])
        else plain.Ok? && (StartsWith(Values(old(objects[source])), ENCRYPTED_FILE_MAGIC) || LengthFits(|plain.value|))
             ==> r.Ok? && OpenObject(objects[target], target, Candidates(targetKey)) == plain
                 && OpenObject(objects[target], target, [if targetKey.Some? then targetKey.value else ring[0]]) == plain
    {
      hide OpenSeekable, DecryptPayload, Header, EncodeV2, EncodeBlob, LengthFits, KindOf, Values, HasMagic, OpenObject,
           StartsWith;
      if source !in objects {
        return Err(NotFound);
      }
      ghost var from := objects[source];
      ghost var read := Content(KindOf(from), from, source, Candidates(sourceKey));
      KindDecides(from, source, Candidates(sourceKey));
      if KindOf(from) != Plain && CanMove(KindOf(from), read) {
        ResealedServes(KindOf(from), from, read.value, target, WriteKey(targetKey), fileNonce, nonce,
                       Candidates(targetKey));
      }
      match KindOf(objects[source]) {
        case Chunked => r := MoveChunked(source, target, sourceKey, targetKey, fileNonce, outcome);
        case Blob => r := MoveBlob(source, target, sourceKey, targetKey, nonce, outcome);
        case Plain => r := MovePlain(source, target, outcome);
      }
    }
  }

  /** Any honest envelope, in any of the three forms that carry a magic: the integrity check reports its plaintext,
      and a move to any path and key over a faithful store returns and leaves an object that opens there to it. */
  method CheckAndMove(obj: Stored, plain: Bytes, key: Key, from: Path, to: Path, newKey: Key, fn: Bytes, nonce: Bytes)
    returns (checked: Result<Verdict>, r: Result<Report>, kept: Stored)
    requires GoodNonce(fn) && |nonce| == NONCE_SIZE && V2Fits(|plain|, plain, SEEKABLE_CHUNK_SIZE)
    requires || obj == EncodeBlob(key, from, nonce, plain)
             || obj == EncodeV1(key, from, fn, |plain|, plain)
             || obj == EncodeV2(key, from, fn, SEEKABLE_CHUNK_SIZE, |plain|, plain)
    ensures checked.Ok? && checked.value.plaintextBytes == |plain| && checked.value.digest == Some(plain)
    ensures r.Ok? && OpenObject(kept, to, [newKey]) == Ok(plain)
  {
    hide OpenObject, EncodeBlob, EncodeV1, EncodeV2, StartsWith, Values;
    SealThenOpen(key, from, fn, nonce, plain, [key]);
    EnvelopesHaveMagic(key, from, fn, nonce, SEEKABLE_CHUNK_SIZE, |plain|, plain);
    var backend := new Backend;
    backend.objects, backend.ring := map[from := obj], [key];
    checked := backend.VerifyEncryptedObject(from, None);
    r := backend.ReencryptToPath(from, to, None, Some(newKey), fn, nonce, Faithful);
    kept := backend.objects[to];
  }

  /** A plain object goes to another path, and the store keeps anything else of the same size: the move returns. */
  method UnnoticedMove(source: Stored, landed: Stored, from: Path, to: Path, key: Key)
    returns (r: Result<Report>, kept: Stored)
    requires KindOf(source) == Plain && from != to && |landed| == |source|
    ensures r.Ok? && kept == landed
  {
    var backend := new Backend;
    backend.objects, backend.ring := map[from := source], [key];
    var zeros := seq(NONCE_SIZE, _ => 0);
    r := backend.ReencryptToPath(from, to, None, None, zeros[..FILE_NONCE_SIZE], zeros, Corrupt(landed));
    kept := backend.objects[to];
  }

  /** A plain object goes to its own path, and the store keeps anything at all: the move returns. */
  method UnnoticedMoveOntoItself(source: Stored, landed: Stored, path: Path, key: Key)
    returns (r: Result<Report>, kept: Stored)
    requires KindOf(source) == Plain
    ensures r.Ok? && kept == landed
  {
    var backend := new Backend;
    backend.objects, backend.ring := map[path := source], [key];
    var zeros := seq(NONCE_SIZE, _ => 0);
    r := backend.ReencryptToPath(path, path, None, None, zeros[..FILE_NONCE_SIZE], zeros, Corrupt(landed));
    kept := backend.objects[path];
  }

  /** A file key stands alone: whatever was sealed under another key does not open under it, also if that other
      key is one of the application's. */
  lemma WrongKeyOpensNothing(key: Key, other: Key, path: Path, nonce: Bytes, plain: Bytes, backend: Backend)
    requires backend.Valid() && |nonce| == NONCE_SIZE && key != other
    ensures OpenObject(EncodeBlob(key, path, nonce, plain), path, backend.Candidates(Some(other))).Err?
    ensures key in backend.ring ==>
              OpenObject(EncodeBlob(key, path, nonce, plain), path, backend.Candidates(None)) == Ok(plain)
  {
    hide Prefix, OpenSeekable, Header, EncodeBlob;
    var obj := EncodeBlob(key, path, nonce, plain);
    PrefixDecides(obj);
    BlobOpens(key, path, nonce, plain, [key]);
    BlobParts(key, path, nonce, plain);
    OpenForeign(backend.Candidates(Some(other)), nonce, Sealing(key, nonce, BlobAad(path), plain), BlobAad(path));
    if key in backend.ring {
      BlobOpens(key, path, nonce, plain, backend.Candidates(None));
    }
  }

  lemma BlobParts(key: Key, path: Path, nonce: Bytes, plain: Bytes)
    requires |nonce| == NONCE_SIZE
    ensures var obj := EncodeBlob(key, path, nonce, plain);
            && StartsWith(Values(obj), ENCRYPTED_FILE_MAGIC) && |obj| >= 8 + NONCE_SIZE + TAG_SIZE
            && Values(obj[8..20]) == nonce && obj[20..] == Seal(Sealing(key, nonce, BlobAad(path), plain))
  {
    var obj := EncodeBlob(key, path, nonce, plain);
    assert Values(obj)[..8] == ENCRYPTED_FILE_MAGIC;
    assert Values(obj[8..20]) == nonce;
  }

  lemma OpenNeedsSize(obj: Stored, path: Path, keys: seq<Key>)
    requires SeekableSize(obj).Err?
    ensures OpenSeekable(obj, path, keys).Err?
  {
  }

  /** A faithful copy of what a source opened to opens again, as v2, at its own path. */
  lemma SealedTarget(key: Key, target: Path, fn: Bytes, plain: Bytes, keys: seq<Key>)
    requires GoodNonce(fn) && key in keys && LengthFits(|plain|)
    ensures var obj := EncodeV2(key, target, fn, SEEKABLE_CHUNK_SIZE, |plain|, plain);
            && OpenSeekable(obj, target, keys) == Ok(plain) && SeekableVersion(Header(obj)) == 2
            && SeekableSize(obj) == Ok(|plain|)
  {
    DeclaredLength(key, target, fn, SEEKABLE_CHUNK_SIZE, |plain|, plain, keys);
    var f := EncodedV2IsSealed(key, target, fn, SEEKABLE_CHUNK_SIZE, |plain|, plain);
  }
}
