/** The stored forms of app/core/storage.py: the single-blob envelope and both versions of the
    chunked one, with the associated data every ciphertext is bound to. */
module Envelope {
  import opened ByteStrings
  import opened Aead

  /** A logical path, as its UTF-8 bytes. */
  type Path = Bytes

  const ENCRYPTED_FILE_MAGIC: Bytes := [0x4E, 0x53, 0x45, 0x4E, 0x43, 2, 0, 0]
  const SEEKABLE_MAGIC: Bytes := [0x4E, 0x53, 0x45, 0x4E, 0x43, 0x53, 1, 0, 0]
  const SEEKABLE_MAGIC_V2: Bytes := [0x4E, 0x53, 0x45, 0x4E, 0x43, 0x53, 2, 0, 0]
  const NONCE_SIZE := 12
  const FILE_NONCE_SIZE := 8
  const SEEKABLE_CHUNK_SIZE := 1024 * 1024
  const MAX_CHUNK_SIZE := 64 * 1024 * 1024
  const SEEKABLE_HEADER_SIZE := 29
  const SEEKABLE_HEADER_V2_SIZE := 33
  const SEEKABLE_HEADER_MAX_SIZE := 33

  datatype Error =
    | NotFound | NotSeekable | HeaderTruncated | BadChunkSize | SizesDisagree | Truncated
    | DecryptFailed | Overflow | TooShort | Refused
    | NotV1 | DecryptedShort | NotV2 | LengthDiffers | ReadBackDiffers | SizeDiffers

  datatype Result<+T> = Ok(value: T) | Err(error: Error)

  // ---- associated data ----

  function BlobAad(path: Path): (bytes: Bytes) {
    ENCRYPTED_FILE_MAGIC + [0] + path
  }

  function V1Aad(path: Path, fileNonce: Bytes): (bytes: Bytes) {
    SEEKABLE_MAGIC + [0] + fileNonce + path
  }

  function V2Aad(path: Path, fileNonce: Bytes, length: nat, count: nat, chunkSize: nat): (bytes: Bytes) {
    SEEKABLE_MAGIC_V2 + [0] + fileNonce + path + ToBig(chunkSize, 4) + ToBig(length, 8) + ToBig(count, 4)
  }

  function IndexBytes(index: nat): (s: Bytes)
    ensures |s| == 4
  {
    ToBig(index, 4)
  }

  predicate IndexFits(index: nat) {
    index < 0x1_0000_0000
  }

  predicate SizesFit(length: nat, count: nat, chunkSize: nat) {
    length < 0x1_0000_0000_0000_0000 && count < 0x1_0000_0000 && chunkSize < 0x1_0000_0000
  }

  lemma {:induction false} ToBigInjective(a: nat, b: nat, width: nat)
    requires a < Pow256(width) && b < Pow256(width)
    requires ToBig(a, width) == ToBig(b, width)
    ensures a == b
  {
    BigRoundTrip(a, width);
    BigRoundTrip(b, width);
  }

  lemma IndexInjective(i: nat, j: nat)
    requires IndexFits(i) && IndexFits(j) && IndexBytes(i) == IndexBytes(j)
    ensures i == j
  {
    Pow256Values();
    ToBigInjective(i, j, 4);
  }

  lemma AppendInjective<T>(a: seq<T>, b: seq<T>, c: seq<T>, d: seq<T>)
    requires a + b == c + d
    requires |a| == |c| || |b| == |d|
    ensures a == c && b == d
  {
    assert (a + b)[..|a|] == a && (a + b)[|a|..] == b;
    assert (c + d)[..|c|] == c && (c + d)[|c|..] == d;
  }

  /** The v2 associated data of a chunk determines the path, the nonce, every size and the index,
      although the path has a variable length and stands between fixed-width fields. */
  lemma V2AadInjective(p: Path, fn: Bytes, len: nat, n: nat, cs: nat, i: nat,
                       p': Path, fn': Bytes, len': nat, n': nat, cs': nat, i': nat)
    requires |fn| == |fn'|
    requires SizesFit(len, n, cs) && SizesFit(len', n', cs') && IndexFits(i) && IndexFits(i')
    requires V2Aad(p, fn, len, n, cs) + IndexBytes(i) == V2Aad(p', fn', len', n', cs') + IndexBytes(i')
    ensures p == p' && fn == fn' && len == len' && n == n' && cs == cs' && i == i'
  {
    Pow256Values();
    AppendInjective(V2Aad(p, fn, len, n, cs), IndexBytes(i), V2Aad(p', fn', len', n', cs'), IndexBytes(i'));
    var m := SEEKABLE_MAGIC_V2 + [0];
    AppendInjective(m + fn + p + ToBig(cs, 4) + ToBig(len, 8), ToBig(n, 4),
                    m + fn' + p' + ToBig(cs', 4) + ToBig(len', 8), ToBig(n', 4));
    AppendInjective(m + fn + p + ToBig(cs, 4), ToBig(len, 8), m + fn' + p' + ToBig(cs', 4), ToBig(len', 8));
    AppendInjective(m + fn + p, ToBig(cs, 4), m + fn' + p', ToBig(cs', 4));
    AppendInjective(m + fn, p, m + fn', p');
    AppendInjective(m, fn, m, fn');
    ToBigInjective(n, n', 4);
    ToBigInjective(len, len', 8);
    ToBigInjective(cs, cs', 4);
    IndexInjective(i, i');
  }

  lemma V1AadInjective(p: Path, fn: Bytes, i: nat, p': Path, fn': Bytes, i': nat)
    requires |fn| == |fn'| && IndexFits(i) && IndexFits(i')
    requires V1Aad(p, fn) + IndexBytes(i) == V1Aad(p', fn') + IndexBytes(i')
    ensures p == p' && fn == fn' && i == i'
  {
    AppendInjective(V1Aad(p, fn), IndexBytes(i), V1Aad(p', fn'), IndexBytes(i'));
    var m := SEEKABLE_MAGIC + [0];
    AppendInjective(m + fn, p, m + fn', p');
    AppendInjective(m, fn, m, fn');
    IndexInjective(i, i');
  }

  lemma BlobAadInjective(p: Path, p': Path)
    requires BlobAad(p) == BlobAad(p')
    ensures p == p'
  {
    AppendInjective(ENCRYPTED_FILE_MAGIC + [0], p, ENCRYPTED_FILE_MAGIC + [0], p');
  }

  /** The kinds of associated data (blob, v1 chunk, v2 chunk) never coincide, and the oldest form has none. */
  lemma AadsDisjoint(v2: (Path, Bytes, nat, nat, nat), v1: (Path, Bytes), blob: Path, i: nat, j: nat)
    ensures V2Aad(v2.0, v2.1, v2.2, v2.3, v2.4) + IndexBytes(i) != V1Aad(v1.0, v1.1) + IndexBytes(j)
    ensures V2Aad(v2.0, v2.1, v2.2, v2.3, v2.4) + IndexBytes(i) != BlobAad(blob)
    ensures V1Aad(v1.0, v1.1) + IndexBytes(j) != BlobAad(blob)
  {
    var a, b := V2Aad(v2.0, v2.1, v2.2, v2.3, v2.4) + IndexBytes(i), V1Aad(v1.0, v1.1) + IndexBytes(j);
    assert a[5] == 0x53 && a[6] == 2;
    assert b[5] == 0x53 && b[6] == 1;
    assert BlobAad(blob)[5] == 2;
  }

  // ---- headers ----

  /** 0 for anything but a chunked envelope, else its version: `_seekable_version`. */
  function SeekableVersion(header: Bytes): (v: nat)
    ensures v <= 2
  {
    if StartsWith(header, SEEKABLE_MAGIC_V2) then 2
    else if StartsWith(header, SEEKABLE_MAGIC) then 1
    else 0
  }

  function Header(obj: Stored): (h: Bytes)
    ensures |h| == Min(|obj|, SEEKABLE_HEADER_MAX_SIZE)
  {
    Values(Slice(obj, 0, SEEKABLE_HEADER_MAX_SIZE))
  }

  function FileNonce(header: Bytes): (bytes: Bytes) {
    Slice(header, 9, 17)
  }

  function ChunkSizeField(header: Bytes): (n: nat) {
    FromBig(Slice(header, 17, 21))
  }

  function LengthField(header: Bytes): (n: nat) {
    FromBig(Slice(header, 21, 29))
  }

  function CountField(header: Bytes): (n: nat) {
    FromBig(Slice(header, 29, 33))
  }

  function HeaderV1(fileNonce: Bytes, length: nat): (bytes: Bytes) {
    SEEKABLE_MAGIC + fileNonce + ToBig(SEEKABLE_CHUNK_SIZE, 4) + ToBig(length, 8)
  }

  function HeaderV2(fileNonce: Bytes, chunkSize: nat, length: nat, count: nat): (bytes: Bytes) {
    SEEKABLE_MAGIC_V2 + fileNonce + ToBig(chunkSize, 4) + ToBig(length, 8) + ToBig(count, 4)
  }

  /** `(length + chunk_size - 1) // chunk_size`. */
  function ChunkCount(length: nat, chunkSize: nat): (n: nat)
    requires chunkSize > 0
  {
    (length + chunkSize - 1) / chunkSize
  }

  /** What the chunk reader knows about an object once its header is parsed. */
  datatype Frame = Frame(offset: nat, chunkSize: nat, fileNonce: Bytes, aad: Bytes, length: nat)

  function FrameV1(path: Path, header: Bytes): (r: Frame) {
    Frame(SEEKABLE_HEADER_SIZE, SEEKABLE_CHUNK_SIZE, FileNonce(header), V1Aad(path, FileNonce(header)),
          LengthField(header))
  }

  function FrameV2(path: Path, header: Bytes): (r: Result<Frame>)
    ensures r.Ok? ==> 0 < r.value.chunkSize <= MAX_CHUNK_SIZE
  {
    var cs, len, n := ChunkSizeField(header), LengthField(header), CountField(header);
    if cs <= 0 || cs > MAX_CHUNK_SIZE then Err(BadChunkSize)
    else if n != (if len != 0 then ChunkCount(len, cs) else 0) then Err(SizesDisagree)
    else
      Ok(Frame(SEEKABLE_HEADER_V2_SIZE, cs, FileNonce(header), V2Aad(path, FileNonce(header), len, n, cs), len))
  }

  /** Which v2 headers a reader accepts: a chunk size of 1 byte to 64 MiB, and as many chunks as the length fills. */
  lemma HeaderAcceptedExactly(path: Path, header: Bytes)
    ensures var cs, len, n := ChunkSizeField(header), LengthField(header), CountField(header);
            && (FrameV2(path, header) == Err(BadChunkSize) <==> cs == 0 || cs > 67108864)
            && (FrameV2(path, header).Ok? <==>
                  1 <= cs <= 67108864 && n * cs >= len && (n == 0 <==> len == 0) && (n > 0 ==> (n - 1) * cs < len))
            && (FrameV2(path, header).Err? ==> FrameV2(path, header).error in {BadChunkSize, SizesDisagree})
  {
    hide ChunkSizeField, LengthField, CountField, V2Aad, FileNonce;
    var cs, len, n := ChunkSizeField(header), LengthField(header), CountField(header);
    if cs > 0 {
      CountExactly(len, cs, n);
    }
  }

  lemma CountExactly(length: nat, chunkSize: nat, n: nat)
    requires chunkSize > 0
    ensures n == (if length != 0 then ChunkCount(length, chunkSize) else 0)
            <==> n * chunkSize >= length && (n == 0 <==> length == 0) && (n > 0 ==> (n - 1) * chunkSize < length)
  {
    if length != 0 {
      var m := ChunkCount(length, chunkSize);
      var r := (length + chunkSize - 1) % chunkSize;
      assert m * chunkSize + r == length + chunkSize - 1;
      if n > m {
        Monotone(m, n - 1, chunkSize);
      } else if n < m {
        Monotone(n, m - 1, chunkSize);
        assert (m - 1) * chunkSize == m * chunkSize - chunkSize;
      } else {
        assert (m - 1) * chunkSize == m * chunkSize - chunkSize;
      }
    }
  }

  lemma Monotone(a: nat, b: nat, c: nat)
    requires a <= b
    ensures a * c <= b * c
  {
  }

  /** The reader parses out of a header exactly what the writer put in. */
  lemma HeaderV2Parses(fn: Bytes, cs: nat, len: nat, n: nat, rest: Stored)
    requires |fn| == FILE_NONCE_SIZE && SizesFit(len, n, cs)
    ensures var h := Header(Raws(HeaderV2(fn, cs, len, n)) + rest);
            && h == HeaderV2(fn, cs, len, n) && |h| == SEEKABLE_HEADER_V2_SIZE && SeekableVersion(h) == 2
            && FileNonce(h) == fn && ChunkSizeField(h) == cs && LengthField(h) == len && CountField(h) == n
  {
    var h := HeaderV2(fn, cs, len, n);
    assert Slice(Raws(h) + rest, 0, 33) == Raws(h);
    assert Values(Raws(h)) == h;
    assert h[..9] == SEEKABLE_MAGIC_V2;
    assert Slice(h, 9, 17) == fn;
    assert Slice(h, 17, 21) == ToBig(cs, 4);
    assert Slice(h, 21, 29) == ToBig(len, 8);
    assert Slice(h, 29, 33) == ToBig(n, 4);
    Pow256Values();
    BigRoundTrip(cs, 4);
    BigRoundTrip(len, 8);
    BigRoundTrip(n, 4);
  }

  lemma HeaderV1Parses(fn: Bytes, len: nat, rest: Stored)
    requires |fn| == FILE_NONCE_SIZE && len < 0x1_0000_0000_0000_0000
    ensures var h := Header(Raws(HeaderV1(fn, len)) + rest);
            && SEEKABLE_HEADER_SIZE <= |h| && SeekableVersion(h) == 1
            && FileNonce(h) == fn && LengthField(h) == len
  {
    var v1 := HeaderV1(fn, len);
    var obj := Raws(v1) + rest;
    var h := Header(obj);
    assert forall i | 0 <= i < 29 :: h[i] == Value(obj[i]) == v1[i];
    assert h[..9] == SEEKABLE_MAGIC;
    assert Slice(h, 9, 17) == fn;
    assert Slice(h, 21, 29) == ToBig(len, 8);
    Pow256Values();
    BigRoundTrip(len, 8);
  }

  /** Header fields never exceed their width, so the associated data of a parsed header is injective. */
  lemma FieldsFit(h: Bytes)
    ensures SizesFit(LengthField(h), CountField(h), ChunkSizeField(h))
  {
    Pow256Values();
    FieldFits(Slice(h, 17, 21), 4);
    FieldFits(Slice(h, 21, 29), 8);
    FieldFits(Slice(h, 29, 33), 4);
  }

  lemma {:induction false} FieldFits(s: Bytes, width: nat)
    requires |s| <= width
    ensures FromBig(s) < Pow256(width)
    decreases width - |s|
  {
    if |s| == width {
      FromBigBound(s);
    } else {
      FromBigBound(s);
      Pow256Grows(|s|, width);
    }
  }

  lemma {:induction false} Pow256Grows(a: nat, b: nat)
    requires a <= b
    ensures Pow256(a) <= Pow256(b)
  {
    if a < b {
      Pow256Grows(a, b - 1);
    }
  }

  // ---- what the writers store ----

  /** The sealing of chunk `index` of a chunked object. */
  function ChunkSealing(key: Key, fileNonce: Bytes, aad: Bytes, index: nat, chunk: Bytes): (r: Sealing) {
    Sealing(key, fileNonce + IndexBytes(index), aad + IndexBytes(index), chunk)
  }

  /** The chunks of `plain`, sealed one after another from number `index` on. */
  function SealChunks(key: Key, fileNonce: Bytes, aad: Bytes, chunkSize: nat, plain: Bytes, index: nat): (cells: Stored)
    requires chunkSize > 0
    decreases |plain|
  {
    if plain == [] then []
    else
      Seal(ChunkSealing(key, fileNonce, aad, index, Slice(plain, 0, chunkSize)))
      + SealChunks(key, fileNonce, aad, chunkSize, Slice(plain, chunkSize, |plain|), index + 1)
  }

  /** A whole v2 object. The writer takes `length` on trust; it should be |plain|. */
  function EncodeV2(key: Key, path: Path, fileNonce: Bytes, chunkSize: nat, length: nat, plain: Bytes): (cells: Stored)
    requires chunkSize > 0
  {
    var n := ChunkCount(length, chunkSize);
    Raws(HeaderV2(fileNonce, chunkSize, length, n))
    + SealChunks(key, fileNonce, V2Aad(path, fileNonce, length, n, chunkSize), chunkSize, plain, 0)
  }

  /** A v1 object as earlier builds wrote it: the length is in the header and nowhere else. */
  function EncodeV1(key: Key, path: Path, fileNonce: Bytes, length: nat, plain: Bytes): (cells: Stored) {
    Raws(HeaderV1(fileNonce, length))
    + SealChunks(key, fileNonce, V1Aad(path, fileNonce), SEEKABLE_CHUNK_SIZE, plain, 0)
  }

  /** `_encrypt_payload`. */
  function EncodeBlob(key: Key, path: Path, nonce: Bytes, plain: Bytes): (cells: Stored) {
    Raws(ENCRYPTED_FILE_MAGIC + nonce) + Seal(Sealing(key, nonce, BlobAad(path), plain))
  }

  /** The oldest form: no magic and no associated data. */
  function EncodeLegacy(key: Key, nonce: Bytes, plain: Bytes): (cells: Stored) {
    Raws(nonce) + Seal(Sealing(key, nonce, [], plain))
  }

  /** `_decrypt_payload`. */
  function DecryptPayload(obj: Stored, path: Path, keys: seq<Key>): (r: Result<Bytes>)
  {
    var isCurrent := StartsWith(Values(obj), ENCRYPTED_FILE_MAGIC);
    var offset := if isCurrent then |ENCRYPTED_FILE_MAGIC| else 0;
    if |obj| < offset + NONCE_SIZE + TAG_SIZE then Err(TooShort)
    else
      var nonce := Values(obj[offset..offset + NONCE_SIZE]);
      var plain := OpenAny(keys, nonce, obj[offset + NONCE_SIZE..], if isCurrent then BlobAad(path) else []);
      if plain.Some? then Ok(plain.value) else Err(DecryptFailed)
  }

  lemma BlobOpens(key: Key, path: Path, nonce: Bytes, plain: Bytes, keys: seq<Key>)
    requires |nonce| == NONCE_SIZE && key in keys
    ensures var obj := EncodeBlob(key, path, nonce, plain);
            && DecryptPayload(obj, path, keys) == Ok(plain)
            && StartsWith(Header(obj), ENCRYPTED_FILE_MAGIC) && SeekableVersion(Header(obj)) == 0
  {
    var obj := EncodeBlob(key, path, nonce, plain);
    var m := ENCRYPTED_FILE_MAGIC;
    assert forall i | 0 <= i < 20 :: Values(obj)[i] == (m + nonce)[i];
    assert Values(obj)[..8] == m;
    assert Values(obj[8..20]) == nonce;
    assert obj[20..] == Seal(Sealing(key, nonce, BlobAad(path), plain));
    OpenSealed(keys, Sealing(key, nonce, BlobAad(path), plain));
    assert forall i | 0 <= i < 20 :: Header(obj)[i] == (m + nonce)[i];
    assert Header(obj)[..8] == m;
    assert Header(obj)[5] == 2;
    assert Header(obj)[..9][5] == 2;
  }

  /** What a blob opens to has exactly the length the stored size promises. */
  lemma PayloadSize(obj: Stored, path: Path, keys: seq<Key>)
    requires DecryptPayload(obj, path, keys).Ok?
    ensures var magic := if StartsWith(Values(obj), ENCRYPTED_FILE_MAGIC) then 8 else 0;
            |DecryptPayload(obj, path, keys).value| == |obj| - magic - 12 - 16
  {
  }
}
