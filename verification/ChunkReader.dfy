/** The range reader over a chunked object: `_read_seekable_chunks` and its callers. */
module ChunkReader {
  import opened ByteStrings
  import opened Aead
  import opened Envelope

  /** How a generator ended: it ran out, or it raised. */
  datatype Status = Done | Raised(error: Error)

  /** Everything a generator handed over before it ended, and how it ended. */
  datatype Yield = Yield(pieces: seq<Bytes>, status: Status)

  /** Where chunk `index` is stored. */
  function SlotAt(f: Frame, index: nat): (n: nat) {
    f.offset + index * (f.chunkSize + TAG_SIZE)
  }

  /** `stream.seek(at); stream.read(chunk_size + 16)` */
  function Slot(obj: Stored, f: Frame, at: nat): (s: Stored)
    ensures |s| <= f.chunkSize + TAG_SIZE
    ensures s != [] <==> at < |obj|
    ensures |s| < f.chunkSize + TAG_SIZE ==> |obj| < at + f.chunkSize + TAG_SIZE
  {
    Slice(obj, at, at + f.chunkSize + TAG_SIZE)
  }

  function OpenSlot(obj: Stored, f: Frame, keys: seq<Key>, index: nat, at: nat): (r: Option<Bytes>)
    ensures r.Some? ==> |Slot(obj, f, at)| == |r.value| + TAG_SIZE
  {
    OpenAny(keys, f.fileNonce + IndexBytes(index), Slot(obj, f, at), f.aad + IndexBytes(index))
  }

  /** The part of an opened chunk at `position` that the range asks for. */
  function Trim(plain: Bytes, position: int, start: nat, end: nat): (piece: Bytes)
    ensures position < end && start < end && position + |plain| > start ==>
      |piece| == Min(position + |plain|, end) - Max(position, start)
  {
    var from := Max(0, start - position);
    Slice(plain, from, from + (end - Max(position, start)))
  }

  /** The reader's loop as a function of where it stands: at chunk `index`, stored from `at` on, with
      `position` plaintext bytes behind it. The measure is what the object still holds from `at` on,
      since `position` can go down on a stored chunk under 16 bytes. */
  function Walk(obj: Stored, f: Frame, keys: seq<Key>, start: nat, end: nat,
                index: nat, at: nat, position: int): (r: Yield)
    decreases |obj| - at
  {
    if position >= end || position >= f.length then Yield([], Done)
    else
      var stored := Slot(obj, f, at);
      if stored == [] then Yield([], Raised(Truncated))
      else
        var next := position + |stored| - TAG_SIZE;
        var rest := Walk(obj, f, keys, start, end, index + 1, at + f.chunkSize + TAG_SIZE, next);
        if next <= start then rest
        else if !IndexFits(index) then Yield([], Raised(Overflow))
        else
          var plain := OpenSlot(obj, f, keys, index, at);
          if plain.None? then Yield([], Raised(DecryptFailed))
          else
            var piece := Trim(plain.value, position, start, end);
            if piece == [] then rest else Yield([piece] + rest.pieces, rest.status)
  }

  /** One turn of the loop. */
  lemma WalkUnfold(obj: Stored, f: Frame, keys: seq<Key>, start: nat, end: nat, index: nat, at: nat, position: int)
    requires position < end
    ensures var y := Walk(obj, f, keys, start, end, index, at, position);
            var stored := Slot(obj, f, at);
            if position >= f.length then y == Yield([], Done)
            else if stored == [] then y == Yield([], Raised(Truncated))
            else
              var next := position + |stored| - TAG_SIZE;
              var rest := Walk(obj, f, keys, start, end, index + 1, at + f.chunkSize + TAG_SIZE, next);
              if next <= start then y == rest
              else if !IndexFits(index) then y == Yield([], Raised(Overflow))
              else
                var plain := OpenSlot(obj, f, keys, index, at);
                if plain.None? then y == Yield([], Raised(DecryptFailed))
                else
                  var piece := Trim(plain.value, position, start, end);
                  y == if piece == [] then rest else Yield([piece] + rest.pieces, rest.status)
  {
    hide OpenSlot, Slice, Trim;
  }

  lemma Succ(index: nat, size: nat)
    ensures (index + 1) * size == index * size + size
  {
  }

  /** The first chunk that can matter. */
  function FirstIndex(start: nat, chunkSize: nat): (index: nat)
    requires chunkSize > 0
    ensures index * chunkSize <= start < index * chunkSize + chunkSize
  {
    start / chunkSize
  }

  function ReadFrame(obj: Stored, f: Frame, keys: seq<Key>, start: nat, length: nat): (r: Yield)
    requires f.chunkSize > 0
  {
    var index := FirstIndex(start, f.chunkSize);
    Walk(obj, f, keys, start, start + length, index, SlotAt(f, index), index * f.chunkSize)
  }

  /** `_read_seekable_chunks`, piece by piece. */
  method ReadChunks(obj: Stored, f: Frame, keys: seq<Key>, start: nat, length: nat) returns (y: Yield)
    requires f.chunkSize > 0
    ensures y == ReadFrame(obj, f, keys, start, length)
  {
    hide OpenSlot, Slice, SlotAt, FirstIndex, Trim, Walk;
    var wantedEnd := start + length;
    var index: nat := FirstIndex(start, f.chunkSize);
    var position: int := index * f.chunkSize;
    var pieces: seq<Bytes> := [];
    ghost var whole := ReadFrame(obj, f, keys, start, length);
    while position < wantedEnd
      invariant var rest := Walk(obj, f, keys, start, wantedEnd, index, SlotAt(f, index), position);
                whole == Yield(pieces + rest.pieces, rest.status)
      decreases |obj| - SlotAt(f, index)
    {
      WalkUnfold(obj, f, keys, start, wantedEnd, index, SlotAt(f, index), position);
      if position >= f.length {
        return Yield(pieces, Done);
      }
      var stored := Slot(obj, f, SlotAt(f, index));
      if stored == [] {
        return Yield(pieces, Raised(Truncated));
      }
      var chunkEnd := position + |stored| - TAG_SIZE;
      if chunkEnd > start {
        if !IndexFits(index) {
          return Yield(pieces, Raised(Overflow));
        }
        var plain := OpenSlot(obj, f, keys, index, SlotAt(f, index));
        if plain.None? {
          return Yield(pieces, Raised(DecryptFailed));
        }
        var piece := Trim(plain.value, position, start, wantedEnd);
        if piece != [] {
          pieces := pieces + [piece];
        }
      }
      NextSlot(f, index);
      position := chunkEnd;
      index := index + 1;
    }
    WalkEnds(obj, f, keys, start, wantedEnd, index, SlotAt(f, index), position);
    return Yield(pieces, Done);
  }

  /** `read_seekable_range` on the bytes of one object. */
  function ReadRange(obj: Stored, path: Path, keys: seq<Key>, start: nat, length: int): (r: Yield) {
    if length <= 0 then Yield([], Done)
    else
      var header := Header(obj);
      match SeekableVersion(header)
      case 2 =>
        if |header| < SEEKABLE_HEADER_V2_SIZE then Yield([], Raised(HeaderTruncated))
        else
          var f := FrameV2(path, header);
          if f.Err? then Yield([], Raised(f.error)) else ReadFrame(obj, f.value, keys, start, length)
      case 1 => ReadFrame(obj, FrameV1(path, header), keys, start, length)
      case _ => Yield([], Raised(NotSeekable))
  }

  /** `get_seekable_plaintext_size` */
  function SeekableSize(obj: Stored): (r: Result<nat>) {
    var header := Header(obj);
    var v := SeekableVersion(header);
    if v == 2 && |header| >= SEEKABLE_HEADER_V2_SIZE then Ok(LengthField(header))
    else if v == 1 && |header| >= SEEKABLE_HEADER_SIZE then Ok(LengthField(header))
    else Err(HeaderTruncated)
  }

  /** The whole plaintext of a chunked object, or why there is none. */
  function OpenSeekable(obj: Stored, path: Path, keys: seq<Key>): (r: Result<Bytes>) {
    var size := SeekableSize(obj);
    if size.Err? then Err(size.error)
    else
      var y := ReadRange(obj, path, keys, 0, size.value);
      if y.status.Done? then Ok(Flatten(y.pieces)) else Err(y.status.error)
  }

  // ---- one step of the walk ----

  /** What a step that neither ends nor raises adds to the stream. */
  lemma WalkStep(obj: Stored, f: Frame, keys: seq<Key>, start: nat, end: nat, index: nat, at: nat, position: int)
    requires position < end && position < f.length && start < end && at < |obj|
    ensures var stored := Slot(obj, f, at);
            var next := position + |stored| - TAG_SIZE;
            var y := Walk(obj, f, keys, start, end, index, at, position);
            var rest := Walk(obj, f, keys, start, end, index + 1, at + f.chunkSize + TAG_SIZE, next);
            if next <= start then y == rest
            else if IndexFits(index) && OpenSlot(obj, f, keys, index, at).Some? then
              var piece := Trim(OpenSlot(obj, f, keys, index, at).value, position, start, end);
              y.status == rest.status && Flatten(y.pieces) == piece + Flatten(rest.pieces)
            else y.pieces == [] && y.status.Raised?
  {
    hide OpenSlot, Slice;
    var next := position + |Slot(obj, f, at)| - TAG_SIZE;
    var rest := Walk(obj, f, keys, start, end, index + 1, at + f.chunkSize + TAG_SIZE, next);
    if next > start && IndexFits(index) && OpenSlot(obj, f, keys, index, at).Some? {
      var piece := Trim(OpenSlot(obj, f, keys, index, at).value, position, start, end);
      assert ([piece] + rest.pieces)[1..] == rest.pieces;
    }
  }

  /** Where a walk ends, it ends at once: done, or behind the last stored byte. */
  lemma WalkEnds(obj: Stored, f: Frame, keys: seq<Key>, start: nat, end: nat, index: nat, at: nat, position: int)
    requires position >= end || position >= f.length || at >= |obj|
    ensures Walk(obj, f, keys, start, end, index, at, position)
            == Yield([], if position >= end || position >= f.length then Done else Raised(Truncated))
  {
  }

  /** The ways in which a walk can fail. */
  lemma {:induction false} WalkErrors(obj: Stored, f: Frame, keys: seq<Key>, start: nat, end: nat,
                                      index: nat, at: nat, position: int)
    ensures var status := Walk(obj, f, keys, start, end, index, at, position).status;
            status.Raised? ==> status.error == Truncated || status.error == Overflow || status.error == DecryptFailed
    decreases |obj| - at
  {
    hide OpenSlot, Slice, Trim, Walk;
    if position >= end || at >= |obj| {
      WalkEnds(obj, f, keys, start, end, index, at, position);
    } else {
      WalkUnfold(obj, f, keys, start, end, index, at, position);
      WalkErrors(obj, f, keys, start, end, index + 1, at + f.chunkSize + TAG_SIZE,
                 position + |Slot(obj, f, at)| - TAG_SIZE);
    }
  }

  /** No read of a chunked object ends in the error that is meant for a short copy. */
  lemma OpenErrors(obj: Stored, path: Path, keys: seq<Key>)
    ensures OpenSeekable(obj, path, keys).Err? ==> OpenSeekable(obj, path, keys).error != DecryptedShort
    ensures forall start: nat, length: int :: ReadRange(obj, path, keys, start, length).status != Raised(DecryptedShort)
  {
    forall start: nat, length: int ensures ReadRange(obj, path, keys, start, length).status != Raised(DecryptedShort) {
      RangeErrors(obj, path, keys, start, length);
    }
  }

  lemma RangeErrors(obj: Stored, path: Path, keys: seq<Key>, start: nat, length: int)
    ensures ReadRange(obj, path, keys, start, length).status != Raised(DecryptedShort)
  {
    hide Walk, Header, SlotAt;
    var header := Header(obj);
    if length > 0 && SeekableVersion(header) > 0 {
      var f := if SeekableVersion(header) == 2 then FrameV2(path, header) else Ok(FrameV1(path, header));
      if f.Ok? {
        var index := FirstIndex(start, f.value.chunkSize);
        WalkErrors(obj, f.value, keys, start, start + length, index, SlotAt(f.value, index),
                   index * f.value.chunkSize);
      }
    }
  }

  // ---- total or error ----

  /** A walk that completes has covered the range as far as the frame's length reaches, and no more than the range. */
  lemma {:induction false} WalkTotal(obj: Stored, f: Frame, keys: seq<Key>, start: nat, end: nat,
                                     index: nat, at: nat, position: int)
    requires start < end
    requires Walk(obj, f, keys, start, end, index, at, position).status.Done?
    ensures var got := |Flatten(Walk(obj, f, keys, start, end, index, at, position).pieces)|;
            Min(end, f.length) - Max(start, position) <= got <= Max(0, end - Max(start, position))
    decreases |obj| - at
  {
    hide OpenSlot, Slice, Walk;
    if position >= end || position >= f.length || at >= |obj| {
      WalkEnds(obj, f, keys, start, end, index, at, position);
    } else {
      WalkStep(obj, f, keys, start, end, index, at, position);
      var next := position + |Slot(obj, f, at)| - TAG_SIZE;
      if next == position + f.chunkSize {
        WalkTotal(obj, f, keys, start, end, index + 1, at + f.chunkSize + TAG_SIZE, next);
      } else {
        WalkEnds(obj, f, keys, start, end, index + 1, at + f.chunkSize + TAG_SIZE, next);
      }
    }
  }

  /** For ANY stored bytes of either version: a read inside the length the header promises
      yields exactly as many bytes as were asked for, or raises. */
  lemma TotalOrError(obj: Stored, path: Path, keys: seq<Key>, start: nat, length: nat)
    requires SeekableSize(obj).Ok? && start + length <= SeekableSize(obj).value
    requires ReadRange(obj, path, keys, start, length).status.Done?
    ensures |Flatten(ReadRange(obj, path, keys, start, length).pieces)| == length
  {
    if length > 0 {
      var header := Header(obj);
      var f := if SeekableVersion(header) == 2 then FrameV2(path, header).value else FrameV1(path, header);
      var index := FirstIndex(start, f.chunkSize);
      WalkTotal(obj, f, keys, start, start + length, index, SlotAt(f, index), index * f.chunkSize);
    }
  }

  /** The size reported from the header alone is the length of what opens. */
  lemma SizeIsLength(obj: Stored, path: Path, keys: seq<Key>)
    requires OpenSeekable(obj, path, keys).Ok?
    ensures SeekableSize(obj) == Ok(|OpenSeekable(obj, path, keys).value|)
  {
    TotalOrError(obj, path, keys, 0, SeekableSize(obj).value);
  }

  // ---- authentic objects ----

  /** Whatever opens at a slot is the piece of `plain` that belongs there. */
  ghost predicate Authentic(obj: Stored, f: Frame, keys: seq<Key>, plain: Bytes) {
    forall i: nat :: IndexFits(i) && OpenSlot(obj, f, keys, i, SlotAt(f, i)).Some? ==>
      && i * f.chunkSize < |plain|
      && OpenSlot(obj, f, keys, i, SlotAt(f, i)).value == Slice(plain, i * f.chunkSize, (i + 1) * f.chunkSize)
  }

  /** A trimmed chunk is its part of the range; what follows it is the rest of the range. */
  lemma PieceJoins(plain: Bytes, position: nat, full: nat, start: nat, end: nat)
    requires start < full && position < end && position < full && start < end
    ensures var piece := Trim(Slice(plain, position, full), position, start, end);
            var all := Slice(plain, Max(start, position), end);
            && piece <= all && (|plain| < full || end <= full ==> piece == all)
            && all == piece + Slice(plain, full, end)
  {
    hide Slice;
    var from := Max(0, start - position);
    SliceOfSlice(plain, position, full, from, from + (end - Max(position, start)));
    SliceCut(plain, Max(start, position), full, end);
  }

  lemma AuthenticSlot(obj: Stored, f: Frame, keys: seq<Key>, plain: Bytes, index: nat)
    requires Authentic(obj, f, keys, plain)
    requires IndexFits(index) && OpenSlot(obj, f, keys, index, SlotAt(f, index)).Some?
    ensures var position := index * f.chunkSize;
            && position < |plain|
            && OpenSlot(obj, f, keys, index, SlotAt(f, index)).value == Slice(plain, position, position + f.chunkSize)
  {
    Succ(index, f.chunkSize);
  }

  lemma NextSlot(f: Frame, index: nat)
    ensures SlotAt(f, index + 1) == SlotAt(f, index) + f.chunkSize + TAG_SIZE
    ensures (index + 1) * f.chunkSize == index * f.chunkSize + f.chunkSize
  {
  }

  /** Then everything a walk hands over, even one that raises later, is a prefix of the range. */
  lemma {:induction false} WalkAuthentic(obj: Stored, f: Frame, keys: seq<Key>, plain: Bytes,
                                         start: nat, end: nat, index: nat, at: nat, position: nat)
    requires Authentic(obj, f, keys, plain) && f.chunkSize > 0 && start < end
    requires at == SlotAt(f, index) && position == index * f.chunkSize
    ensures var y := Walk(obj, f, keys, start, end, index, at, position);
            var all := Slice(plain, Max(start, position), end);
            Flatten(y.pieces) <= all && (y.status.Done? && |plain| <= f.length ==> Flatten(y.pieces) == all)
    decreases |obj| - at
  {
    hide OpenSlot, Slice, Authentic, SlotAt, Walk;
    SliceLengths(plain, Max(start, position), end);
    if position >= end || position >= f.length || at >= |obj| {
      WalkEnds(obj, f, keys, start, end, index, at, position);
    } else {
      WalkStep(obj, f, keys, start, end, index, at, position);
      var full, next := position + f.chunkSize, position + |Slot(obj, f, at)| - TAG_SIZE;
      if next == full {
        NextSlot(f, index);
        WalkAuthentic(obj, f, keys, plain, start, end, index + 1, at + f.chunkSize + TAG_SIZE, full);
      } else {
        WalkEnds(obj, f, keys, start, end, index + 1, at + f.chunkSize + TAG_SIZE, next);
      }
      if IndexFits(index) && OpenSlot(obj, f, keys, index, at).Some? {
        AuthenticSlot(obj, f, keys, plain, index);
        SliceLengths(plain, position, full);
        if start < full {
          PieceJoins(plain, position, full, start, end);
        }
      }
    }
  }
}
