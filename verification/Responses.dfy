/** HTTP bodies over stored objects: `app/core/responses.py`. */
module Responses {
  import opened ByteStrings
  import opened Aead
  import opened Envelope
  import opened ChunkReader
  import opened SealedObjects
  import opened Storage

  const PIECE_SIZE := 262144

  /** A body without its piece boundaries: the bytes sent, and whether the generator ended or raised. */
  datatype Body = Body(sent: Bytes, status: Status)

  function FlatBody(y: Yield): (r: Body) {
    Body(Flatten(y.pieces), y.status)
  }

  /** The parsed Range header: absent, not parseable, or `first-last` with either side possibly missing. */
  datatype RangeHeader = Absent | Malformed | Span(first: Option<nat>, last: Option<nat>)

  datatype Response<B> =
    | Gone
    | ServerError
    | BadRange
    | Unsatisfiable(size: nat)
    | Partial(start: nat, end: int, size: nat, contentLength: int, body: B)
    | Whole(contentLength: int, body: B)

  // ---- generators ----

  /** `bytes_chunk_generator` */
  method BytesChunks(data: Bytes, chunkSize: nat) returns (y: Yield)
    requires chunkSize > 0
    ensures FlatBody(y) == Body(data, Done)
    ensures forall i :: 0 <= i < |y.pieces| ==> 0 < |y.pieces[i]| <= chunkSize
    ensures forall i :: 0 <= i < |y.pieces| - 1 ==> |y.pieces[i]| == chunkSize
  {
    var pieces := [];
    var i := 0;
    while i < |data|
      invariant 0 <= i && Flatten(pieces) == data[..Min(i, |data|)]
      invariant forall j :: 0 <= j < |pieces| ==> 0 < |pieces[j]| <= chunkSize
      invariant i < |data| ==> forall j :: 0 <= j < |pieces| ==> |pieces[j]| == chunkSize
      invariant forall j :: 0 <= j < |pieces| - 1 ==> |pieces[j]| == chunkSize
    {
      var piece := Slice(data, i, i + chunkSize);
      FlattenConcat(pieces, [piece]);
      assert Flatten([piece]) == piece;
      pieces := pieces + [piece];
      i := i + chunkSize;
    }
    assert data[..|data|] == data;
    return Yield(pieces, Done);
  }

  /** The plain branch of `range_storage_generator`: seek once, then read until `remaining` is used up. */
  method PlainRange(file: Bytes, start: nat, end: int, chunkSize: nat) returns (y: Yield)
    requires chunkSize > 0
    ensures FlatBody(y) == Body(Slice(file, start, end + 1), Done)
  {
    hide Slice;
    var position := start;
    var remaining := end - start + 1;
    var pieces := [];
    SliceLengths(file, start, start);
    if remaining > 0 {
      while remaining > 0
        invariant 0 <= remaining && position + remaining == end + 1 && start <= position
        invariant Flatten(pieces) == Slice(file, start, position)
      {
        var chunk := Slice(file, position, position + Min(chunkSize, remaining));
        SliceLengths(file, position, position + Min(chunkSize, remaining));
        if chunk == [] {
          SliceSplit(file, start, position, end + 1);
          SliceLengths(file, position, end + 1);
          break;
        }
        FlattenConcat(pieces, [chunk]);
        assert Flatten([chunk]) == chunk;
        SliceSplit(file, start, position, position + |chunk|);
        ShortSlice(file, position, position + Min(chunkSize, remaining));
        pieces := pieces + [chunk];
        position := position + |chunk|;
        remaining := remaining - |chunk|;
      }
    } else {
      NoSlice(file, start, end + 1);
    }
    return Yield(pieces, Done);
  }

  lemma ShortSlice(file: Bytes, from: nat, to: nat)
    requires from <= to
    ensures Slice(file, from, from + |Slice(file, from, to)|) == Slice(file, from, to)
  {
  }

  lemma NoSlice(file: Bytes, from: nat, to: int)
    requires to <= from
    ensures Slice(file, from, to) == []
  {
  }

  // ---- the endpoint ----

  /** `_open_encrypted_payload`: a single blob is opened whole, a chunked object by its first byte only. */
  function Preflight(obj: Stored, path: Path, keys: seq<Key>): (r: Result<Option<Bytes>>) {
    if SeekableVersion(Prefix(obj)) > 0 then
      var probe := ReadRange(obj, path, keys, 0, 1);
      if probe.pieces != [] || probe.status.Done? then Ok(None) else Err(probe.status.error)
    else
      var plain := OpenObject(obj, path, keys);
      if plain.Ok? then Ok(Some(plain.value)) else Err(plain.error)
  }

  function Opened(plain: Result<Bytes>, start: nat, end: int): (r: Body) {
    if plain.Ok? then Body(Slice(plain.value, start, end), Done) else Body([], Raised(plain.error))
  }

  /** The bytes of a range (`end` inclusive), by storage form. */
  function RangeBody(obj: Stored, path: Path, keys: seq<Key>, payload: Option<Bytes>, start: nat, end: int): (r: Body) {
    if payload.Some? then Body(Slice(payload.value, start, end + 1), Done)
    else if EndsWith(path, ENCRYPTED_SUFFIX) then
      if SeekableVersion(Prefix(obj)) > 0 then FlatBody(ReadRange(obj, path, keys, start, end - start + 1))
      else Opened(OpenObject(obj, path, keys), start, end + 1)
    else Body(Slice(Values(obj), start, end + 1), Done)
  }

  function WholeBody(obj: Stored, path: Path, keys: seq<Key>, payload: Option<Bytes>): (r: Body) {
    if payload.Some? then Body(payload.value, Done)
    else if EndsWith(path, ENCRYPTED_SUFFIX) then
      var plain := OpenObject(obj, path, keys);
      if SeekableVersion(Prefix(obj)) > 0 then
        var size := EncryptedPlaintextSize(obj);
        if size.Err? then Body([], Raised(size.error)) else FlatBody(ReadRange(obj, path, keys, 0, size.value))
      else if plain.Ok? then Body(plain.value, Done) else Body([], Raised(plain.error))
    else Body(Values(obj), Done)
  }

  /** `serve_media_stream` */
  function Served(obj: Option<Stored>, path: Path, keys: seq<Key>, range: RangeHeader): (r: Response<Body>) {
    if obj.None? then Gone
    else
      var encrypted := EndsWith(path, ENCRYPTED_SUFFIX);
      var payload := if encrypted then Preflight(obj.value, path, keys) else Ok(None);
      if payload.Err? then ServerError
      else
        var size := if payload.value.Some? then Ok(|payload.value.value|)
                    else if encrypted then EncryptedPlaintextSize(obj.value)
                    else Ok(|obj.value|);
        if size.Err? then ServerError
        else
          match range
          case Absent => Whole(size.value, WholeBody(obj.value, path, keys, payload.value))
          case Malformed => BadRange
          case Span(first, last) =>
            var start := if first.Some? then first.value else 0;
            if start >= size.value then Unsatisfiable(size.value)
            else
              var end := Min(if last.Some? then last.value else size.value - 1, size.value - 1);
              Partial(start, end, size.value, end - start + 1,
                      RangeBody(obj.value, path, keys, payload.value, start, end))
  }

  /** `range_storage_generator`, and below it `storage_chunk_generator`, with their loops. */
  method StreamRange(obj: Stored, path: Path, keys: seq<Key>, payload: Option<Bytes>, start: nat, end: int)
    returns (y: Yield)
    ensures FlatBody(y) == RangeBody(obj, path, keys, payload, start, end)
  {
    if payload.Some? {
      y := BytesChunks(Slice(payload.value, start, end + 1), PIECE_SIZE);
    } else if EndsWith(path, ENCRYPTED_SUFFIX) {
      if SeekableVersion(Prefix(obj)) > 0 {
        return ReadRange(obj, path, keys, start, end - start + 1);
      }
      var data := OpenObject(obj, path, keys);
      if data.Err? {
        return Yield([], Raised(data.error));
      }
      y := BytesChunks(Slice(data.value, start, end + 1), PIECE_SIZE);
    } else {
      y := PlainRange(Values(obj), start, end, PIECE_SIZE);
    }
  }

  method StreamWhole(obj: Stored, path: Path, keys: seq<Key>, payload: Option<Bytes>) returns (y: Yield)
    ensures FlatBody(y) == WholeBody(obj, path, keys, payload)
  {
    if payload.Some? {
      y := BytesChunks(payload.value, PIECE_SIZE);
    } else if EndsWith(path, ENCRYPTED_SUFFIX) {
      if SeekableVersion(Prefix(obj)) > 0 {
        var size := EncryptedPlaintextSize(obj);
        return if size.Err? then Yield([], Raised(size.error)) else ReadRange(obj, path, keys, 0, size.value);
      }
      var data := OpenObject(obj, path, keys);
      if data.Err? {
        return Yield([], Raised(data.error));
      }
      y := BytesChunks(data.value, PIECE_SIZE);
    } else {
      var file, position, pieces := Values(obj), 0, [];
      while true
        invariant position <= |file| && Flatten(pieces) == file[..position]
        decreases |file| - position
      {
        var chunk := file[position..Min(position + PIECE_SIZE, |file|)];
        if chunk == [] {
          break;
        }
        FlattenConcat(pieces, [chunk]);
        assert Flatten([chunk]) == chunk;
        pieces := pieces + [chunk];
        position := position + |chunk|;
      }
      assert file[..|file|] == file;
      y := Yield(pieces, Done);
    }
  }

  // ---- what clients can rely on ----

  /** For ANY stored object: a partial response whose body completes sends exactly as many bytes as
      Content-Length says, and Content-Range names exactly them, if the range is not reversed by more than one. */
  lemma ContentLengthIsHonest(obj: Stored, path: Path, keys: seq<Key>, range: RangeHeader)
    requires var r := Served(Some(obj), path, keys, range); r.Partial? && r.body.status.Done?
    ensures var r := Served(Some(obj), path, keys, range);
            && r.end < r.size && r.contentLength == r.end - r.start + 1
            && |r.body.sent| == Max(0, r.contentLength)
            && (|r.body.sent| == r.contentLength <==> r.start <= r.end + 1)
  {
    hide ReadRange, Slice, OpenObject, Prefix, SeekableSize, EndsWith, Values, EncryptedPlaintextSize;
    var r := Served(Some(obj), path, keys, range);
    var payload := if EndsWith(path, ENCRYPTED_SUFFIX) then Preflight(obj, path, keys).value else None;
    if payload.Some? {
      RangeLength(payload.value, r.start, r.end);
    } else if EndsWith(path, ENCRYPTED_SUFFIX) {
      ChunkedSize(obj, path, keys);
      if r.contentLength > 0 {
        TotalOrError(obj, path, keys, r.start, r.contentLength);
      } else {
        EmptyRead(obj, path, keys, r.start, r.contentLength);
      }
    } else {
      ValuesLength(obj);
      RangeLength(Values(obj), r.start, r.end);
    }
  }

  /** The bounds a parsed header asks for are the wrong way round by more than one. */
  predicate IsReversed(range: RangeHeader) {
    range.Span? && range.last.Some? && range.last.value + 1 < (if range.first.Some? then range.first.value else 0)
  }

  /** In terms of the request: the body has the stated length exactly unless the header is reversed. */
  lemma ContentLengthExactly(obj: Stored, path: Path, keys: seq<Key>, range: RangeHeader)
    requires var r := Served(Some(obj), path, keys, range); r.Partial? && r.body.status.Done?
    ensures var r := Served(Some(obj), path, keys, range);
            && (|r.body.sent| == r.contentLength <==> !IsReversed(range))
            && (r.contentLength < 0 <==> IsReversed(range))
  {
    hide ReadRange, Slice, OpenObject, Prefix, SeekableSize, EndsWith, Values, EncryptedPlaintextSize, Preflight,
         RangeBody;
    ContentLengthIsHonest(obj, path, keys, range);
  }

  /** For instance, bytes 5 to 3 of any six bytes or more: status 206, Content-Length -1, and no byte. */
  lemma ReversedRange(data: Bytes, path: Path, keys: seq<Key>)
    requires |data| >= 6 && !EndsWith(path, ENCRYPTED_SUFFIX)
    ensures Served(Some(Raws(data)), path, keys, Span(Some(5), Some(3)))
            == Partial(5, 3, |data|, -1, Body([], Done))
  {
    hide Slice, EndsWith;
    PlainForm(data, path, keys, Span(Some(5), Some(3)));
    NoSlice(data, 5, 4);
  }

  /** The same without a range: a whole response that completes has sent what Content-Length says. */
  lemma WholeLengthIsHonest(obj: Stored, path: Path, keys: seq<Key>)
    requires var r := Served(Some(obj), path, keys, Absent); r.Whole? && r.body.status.Done?
    ensures var r := Served(Some(obj), path, keys, Absent); |r.body.sent| == r.contentLength
  {
    hide ReadRange, Slice, OpenObject, Prefix, SeekableSize, EndsWith, Values, EncryptedPlaintextSize;
    if EndsWith(path, ENCRYPTED_SUFFIX) {
      if Preflight(obj, path, keys) == Ok(None) {
        ChunkedSize(obj, path, keys);
        TotalOrError(obj, path, keys, 0, SeekableSize(obj).value);
      }
    } else {
      ValuesLength(obj);
    }
  }

  lemma ValuesLength(obj: Stored)
    ensures |Values(obj)| == |obj|
  {
  }

  lemma RangeLength(data: Bytes, start: nat, end: int)
    requires start < |data| && end < |data|
    ensures |Slice(data, start, end + 1)| == Max(0, end - start + 1)
  {
  }

  lemma ChunkedSize(obj: Stored, path: Path, keys: seq<Key>)
    requires Preflight(obj, path, keys) == Ok(None)
    ensures EncryptedPlaintextSize(obj) == SeekableSize(obj)
  {
  }

  lemma EmptyRead(obj: Stored, path: Path, keys: seq<Key>, start: nat, length: int)
    requires length <= 0
    ensures ReadRange(obj, path, keys, start, length) == Yield([], Done)
  {
  }

  /** What every client of `data` gets to see, however it is stored. */
  function Expected(data: Bytes, range: RangeHeader): (r: Response<Body>) {
    match range
    case Absent => Whole(|data|, Body(data, Done))
    case Malformed => BadRange
    case Span(first, last) =>
      var start := if first.Some? then first.value else 0;
      if start >= |data| then Unsatisfiable(|data|)
      else
        var end := Min(if last.Some? then last.value else |data| - 1, |data| - 1);
        Partial(start, end, |data|, end - start + 1, Body(Slice(data, start, end + 1), Done))
  }

  /** All storage forms agree on every request, in status, sizes and bytes: plain, single blob, both versions of
      the chunked envelope, and the oldest single blob unless its nonce reads as a magic. */
  lemma FormsAgree(data: Bytes, plainPath: Path, path: Path, key: Key, fn: Bytes, nonce: Bytes, keys: seq<Key>,
                   range: RangeHeader)
    requires !EndsWith(plainPath, ENCRYPTED_SUFFIX) && EndsWith(path, ENCRYPTED_SUFFIX)
    requires GoodNonce(fn) && |nonce| == NONCE_SIZE && key in keys && V2Fits(|data|, data, SEEKABLE_CHUNK_SIZE)
    ensures Served(Some(Raws(data)), plainPath, keys, range) == Expected(data, range)
    ensures Served(Some(EncodeBlob(key, path, nonce, data)), path, keys, range) == Expected(data, range)
    ensures Served(Some(EncodeV2(key, path, fn, SEEKABLE_CHUNK_SIZE, |data|, data)), path, keys, range)
            == Expected(data, range)
    ensures Served(Some(EncodeV1(key, path, fn, |data|, data)), path, keys, range) == Expected(data, range)
    ensures !ReadsAsMagic(nonce) ==>
              Served(Some(EncodeLegacy(key, nonce, data)), path, keys, range) == Expected(data, range)
  {
    PlainForm(data, plainPath, keys, range);
    BlobForm(data, path, key, nonce, keys, range);
    ChunkedForm(data, path, key, fn, keys, range);
    V1Form(data, path, key, fn, keys, range);
    if !ReadsAsMagic(nonce) {
      LegacyForm(data, path, key, nonce, keys, range);
    }
  }

  /** A generator that is reached without the opening before it sends the same bytes of an envelope itself, and raises
      if a single blob does not open. */
  lemma WithoutPreflight(data: Bytes, path: Path, key: Key, fn: Bytes, nonce: Bytes, keys: seq<Key>, start: nat,
                         end: int)
    requires EndsWith(path, ENCRYPTED_SUFFIX) && GoodNonce(fn) && |nonce| == NONCE_SIZE
    requires V2Fits(|data|, data, SEEKABLE_CHUNK_SIZE) && start <= end + 1
    ensures var blob := EncodeBlob(key, path, nonce, data);
            if key in keys then
              && RangeBody(blob, path, keys, None, start, end) == Body(Slice(data, start, end + 1), Done)
              && WholeBody(blob, path, keys, None) == Body(data, Done)
            else
              && RangeBody(blob, path, keys, None, start, end) == Body([], Raised(DecryptFailed))
              && WholeBody(blob, path, keys, None) == Body([], Raised(DecryptFailed))
    ensures key in keys ==>
              var chunked := EncodeV2(key, path, fn, SEEKABLE_CHUNK_SIZE, |data|, data);
              && RangeBody(chunked, path, keys, None, start, end) == Body(Slice(data, start, end + 1), Done)
              && WholeBody(chunked, path, keys, None) == Body(data, Done)
  {
    hide EncodeV2, EncodeBlob, RangeBody, WholeBody, EndsWith, V2Fits, GoodNonce, Slice;
    BlobWithoutPreflight(data, path, key, nonce, keys, start, end);
    if key in keys {
      ChunkedWithoutPreflight(data, path, key, fn, keys, start, end);
    }
  }

  lemma BlobWithoutPreflight(data: Bytes, path: Path, key: Key, nonce: Bytes, keys: seq<Key>, start: nat, end: int)
    requires EndsWith(path, ENCRYPTED_SUFFIX) && |nonce| == NONCE_SIZE
    ensures var blob := EncodeBlob(key, path, nonce, data);
            if key in keys then
              && RangeBody(blob, path, keys, None, start, end) == Body(Slice(data, start, end + 1), Done)
              && WholeBody(blob, path, keys, None) == Body(data, Done)
            else
              && RangeBody(blob, path, keys, None, start, end) == Body([], Raised(DecryptFailed))
              && WholeBody(blob, path, keys, None) == Body([], Raised(DecryptFailed))
  {
    hide Slice, EndsWith, EncodeBlob, Prefix, Header, ReadRange, OpenSeekable, DecryptPayload;
    PrefixDecides(EncodeBlob(key, path, nonce, data));
    BlobOpens(key, path, nonce, data, [key]);
    if key in keys {
      BlobOpens(key, path, nonce, data, keys);
    } else {
      BlobFails(key, path, nonce, data, keys);
    }
  }

  lemma ChunkedWithoutPreflight(data: Bytes, path: Path, key: Key, fn: Bytes, keys: seq<Key>, start: nat, end: int)
    requires EndsWith(path, ENCRYPTED_SUFFIX) && GoodNonce(fn) && key in keys
    requires V2Fits(|data|, data, SEEKABLE_CHUNK_SIZE) && start <= end + 1
    ensures var chunked := EncodeV2(key, path, fn, SEEKABLE_CHUNK_SIZE, |data|, data);
            && RangeBody(chunked, path, keys, None, start, end) == Body(Slice(data, start, end + 1), Done)
            && WholeBody(chunked, path, keys, None) == Body(data, Done)
  {
    hide Slice, EndsWith, EncodeV2, Prefix, Header, ReadRange, SeekableSize, OpenObject, IsSealed, V2Fits, GoodNonce,
         FrameV2;
    var chunked := EncodeV2(key, path, fn, SEEKABLE_CHUNK_SIZE, |data|, data);
    var f := EncodedV2IsSealed(key, path, fn, SEEKABLE_CHUNK_SIZE, |data|, data);
    PrefixDecides(chunked);
    RangeRefinesSlicing(key, path, fn, SEEKABLE_CHUNK_SIZE, data, keys, start, end - start + 1);
    RangeRefinesSlicing(key, path, fn, SEEKABLE_CHUNK_SIZE, data, keys, 0, |data|);
    WholeSlice(data);
  }

  lemma BlobFails(key: Key, path: Path, nonce: Bytes, data: Bytes, keys: seq<Key>)
    requires |nonce| == NONCE_SIZE && key !in keys
    ensures DecryptPayload(EncodeBlob(key, path, nonce, data), path, keys) == Err(DecryptFailed)
  {
    hide EncodeBlob, BlobAad;
    BlobParts(key, path, nonce, data);
    OpenForeign(keys, nonce, Sealing(key, nonce, BlobAad(path), data), BlobAad(path));
  }

  lemma PlainForm(data: Bytes, path: Path, keys: seq<Key>, range: RangeHeader)
    requires !EndsWith(path, ENCRYPTED_SUFFIX)
    ensures Served(Some(Raws(data)), path, keys, range) == Expected(data, range)
  {
    hide Slice, EndsWith;
    assert Values(Raws(data)) == data;
  }

  lemma BlobForm(data: Bytes, path: Path, key: Key, nonce: Bytes, keys: seq<Key>, range: RangeHeader)
    requires EndsWith(path, ENCRYPTED_SUFFIX) && |nonce| == NONCE_SIZE && key in keys
    ensures Served(Some(EncodeBlob(key, path, nonce, data)), path, keys, range) == Expected(data, range)
  {
    hide Slice, EndsWith, OpenObject, EncodeBlob, Prefix, Header;
    var obj := EncodeBlob(key, path, nonce, data);
    SealThenOpen(key, path, seq(FILE_NONCE_SIZE, _ => 0), nonce, data, keys);
    BlobOpens(key, path, nonce, data, keys);
    PrefixDecides(obj);
    assert Preflight(obj, path, keys) == Ok(Some(data));
  }

  /** A chunked object all of whose ranges are slices of the data is served like the data. */
  lemma SlicedForm(obj: Stored, data: Bytes, path: Path, keys: seq<Key>, range: RangeHeader)
    requires EndsWith(path, ENCRYPTED_SUFFIX)
    requires SeekableVersion(Prefix(obj)) > 0 && SeekableSize(obj) == Ok(|data|)
    requires forall start: nat, length: nat ::
               FlatBody(ReadRange(obj, path, keys, start, length)) == Body(Slice(data, start, start + length), Done)
    ensures Served(Some(obj), path, keys, range) == Expected(data, range)
  {
    hide Slice, EndsWith, Prefix, Header, ReadRange, SeekableSize;
    assert FlatBody(ReadRange(obj, path, keys, 0, 1)).status == Done;
    assert Preflight(obj, path, keys) == Ok(None);
    match range {
      case Absent =>
        assert FlatBody(ReadRange(obj, path, keys, 0, |data|)) == Body(Slice(data, 0, 0 + |data|), Done);
        WholeSlice(data);
      case Malformed =>
      case Span(first, last) =>
        var start := if first.Some? then first.value else 0;
        if start < |data| {
          var end := Min(if last.Some? then last.value else |data| - 1, |data| - 1);
          if start <= end {
            var length := end - start + 1;
            assert FlatBody(ReadRange(obj, path, keys, start, length))
                   == Body(Slice(data, start, start + length), Done);
          } else {
            EmptyRead(obj, path, keys, start, end - start + 1);
            NoSlice(data, start, end + 1);
          }
        }
    }
  }

  lemma ChunkedForm(data: Bytes, path: Path, key: Key, fn: Bytes, keys: seq<Key>, range: RangeHeader)
    requires EndsWith(path, ENCRYPTED_SUFFIX)
    requires GoodNonce(fn) && key in keys && V2Fits(|data|, data, SEEKABLE_CHUNK_SIZE)
    ensures Served(Some(EncodeV2(key, path, fn, SEEKABLE_CHUNK_SIZE, |data|, data)), path, keys, range)
            == Expected(data, range)
  {
    hide Slice, EndsWith, EncodeV2, Prefix, Header, ReadRange, SeekableSize, V2Fits, GoodNonce, IsSealed, FrameV2;
    var obj := EncodeV2(key, path, fn, SEEKABLE_CHUNK_SIZE, |data|, data);
    var f := EncodedV2IsSealed(key, path, fn, SEEKABLE_CHUNK_SIZE, |data|, data);
    PrefixDecides(obj);
    forall start: nat, length: nat
      ensures FlatBody(ReadRange(obj, path, keys, start, length)) == Body(Slice(data, start, start + length), Done)
    {
      RangeRefinesSlicing(key, path, fn, SEEKABLE_CHUNK_SIZE, data, keys, start, length);
    }
    SlicedForm(obj, data, path, keys, range);
  }

  lemma V1Form(data: Bytes, path: Path, key: Key, fn: Bytes, keys: seq<Key>, range: RangeHeader)
    requires EndsWith(path, ENCRYPTED_SUFFIX)
    requires GoodNonce(fn) && key in keys && V2Fits(|data|, data, SEEKABLE_CHUNK_SIZE)
    ensures Served(Some(EncodeV1(key, path, fn, |data|, data)), path, keys, range) == Expected(data, range)
  {
    hide Slice, EndsWith, EncodeV1, Prefix, Header, ReadRange, SeekableSize, GoodNonce, IsSealed, FrameV1;
    var obj := EncodeV1(key, path, fn, |data|, data);
    PlainFits(data);
    var f := EncodedV1IsSealed(key, path, fn, |data|, data);
    PrefixDecides(obj);
    forall start: nat, length: nat
      ensures FlatBody(ReadRange(obj, path, keys, start, length)) == Body(Slice(data, start, start + length), Done)
    {
      V1RangeRefinesSlicing(key, path, fn, data, keys, start, length);
    }
    SlicedForm(obj, data, path, keys, range);
  }

  lemma LegacyForm(data: Bytes, path: Path, key: Key, nonce: Bytes, keys: seq<Key>, range: RangeHeader)
    requires EndsWith(path, ENCRYPTED_SUFFIX) && |nonce| == NONCE_SIZE && key in keys && !ReadsAsMagic(nonce)
    ensures Served(Some(EncodeLegacy(key, nonce, data)), path, keys, range) == Expected(data, range)
  {
    hide Slice, EndsWith, OpenObject, EncodeLegacy, Prefix, Header;
    LegacyOpensExactly(key, path, nonce, data, keys);
    assert Preflight(EncodeLegacy(key, nonce, data), path, keys) == Ok(Some(data));
  }

  lemma WholeSlice(data: Bytes)
    ensures Slice(data, 0, |data|) == data
  {
  }

  /** Whether a request gets a body at all: a plain object always; a single blob exactly if it opens; a chunked
      object exactly if its first byte does, its length is given, and its header is no shorter. */
  predicate CanBeServed(obj: Stored, path: Path, keys: seq<Key>) {
    if !EndsWith(path, [0x2E, 0x65, 0x6E, 0x63]) then true
    else if !StartsWith(Values(obj), SEEKABLE_MAGIC) && !StartsWith(Values(obj), SEEKABLE_MAGIC_V2) then
      OpenObject(obj, path, keys).Ok?
    else
      var probe := ReadRange(obj, path, keys, 0, 1);
      (Flatten(probe.pieces) != [] || probe.status.Done?) && SeekableSize(obj).Ok?
  }

  /** The statuses: 404 exactly without an object, 500 exactly if the object cannot be served; else a header that is
      no range is bad, one that starts behind the end cannot be satisfied, and everything else is answered. */
  lemma StatusExactly(obj: Option<Stored>, path: Path, keys: seq<Key>, range: RangeHeader)
    ensures var r := Served(obj, path, keys, range);
            && (r.Gone? <==> obj.None?)
            && (r.ServerError? <==> obj.Some? && !CanBeServed(obj.value, path, keys))
            && (obj.Some? && CanBeServed(obj.value, path, keys) ==>
                  && (r.BadRange? <==> range.Malformed?)
                  && (r.Whole? <==> range.Absent?)
                  && (r.Partial? || r.Unsatisfiable? <==> range.Span?)
                  && (r.Unsatisfiable? ==> r.size <= if range.first.Some? then range.first.value else 0)
                  && (r.Partial? ==> r.start == (if range.first.Some? then range.first.value else 0) < r.size))
  {
    hide ReadRange, Slice, OpenObject, Prefix, SeekableSize, EndsWith, Values, RangeBody, WholeBody, StartsWith;
    if obj.Some? {
      PrefixDecides(obj.value);
      VersionOfValues(obj.value);
      FirstPiece(obj.value, path, keys);
      if EndsWith(path, ENCRYPTED_SUFFIX) && SeekableVersion(Prefix(obj.value)) > 0 {
        ChunkedSizes(obj.value);
      }
    }
  }

  lemma ChunkedSizes(obj: Stored)
    requires SeekableVersion(Prefix(obj)) > 0
    ensures EncryptedPlaintextSize(obj) == SeekableSize(obj)
  {
  }

  /** The reader never hands over an empty piece. */
  lemma FirstPiece(obj: Stored, path: Path, keys: seq<Key>)
    ensures var pieces := ReadRange(obj, path, keys, 0, 1).pieces; pieces != [] <==> Flatten(pieces) != []
  {
    hide Walk, Header, SlotAt;
    var header := Header(obj);
    if SeekableVersion(header) > 0 {
      var f := if SeekableVersion(header) == 2 then FrameV2(path, header) else Ok(FrameV1(path, header));
      if f.Ok? {
        var index := FirstIndex(0, f.value.chunkSize);
        NoEmptyPieces(obj, f.value, keys, 0, 1, index, SlotAt(f.value, index), index * f.value.chunkSize);
      }
    }
  }

  lemma {:induction false} NoEmptyPieces(obj: Stored, f: Frame, keys: seq<Key>, start: nat, end: nat,
                                         index: nat, at: nat, position: int)
    ensures var pieces := Walk(obj, f, keys, start, end, index, at, position).pieces;
            pieces != [] ==> pieces[0] != []
    decreases |obj| - at
  {
    hide OpenSlot, Slice, Trim, Walk;
    if position >= end || at >= |obj| {
      WalkEnds(obj, f, keys, start, end, index, at, position);
    } else {
      WalkUnfold(obj, f, keys, start, end, index, at, position);
      NoEmptyPieces(obj, f, keys, start, end, index + 1, at + f.chunkSize + TAG_SIZE,
                    position + |Slot(obj, f, at)| - TAG_SIZE);
    }
  }

  /** A suffix range is taken for a prefix: `-n` asks for the last n bytes (section 14.1.2 of RFC 9110), the
      endpoint answers with the first n + 1. The two coincide exactly if there are no more than n bytes. */
  lemma SuffixRangeIsMisread(data: Bytes, n: nat)
    requires 0 < n && data != []
    ensures var r := Expected(data, Span(None, Some(n)));
            && r.Partial? && r.body.sent == Slice(data, 0, n + 1)
            && ((r.start, r.end) == (Max(0, |data| - n), |data| - 1) <==> |data| <= n)
  {
  }
}
