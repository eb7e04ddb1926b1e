/** `_S3RangeStream`: a seekable view over one remote object, assembled from ranged GETs. */
module S3Stream {
  import opened ByteStrings
  import opened Aead
  import opened Envelope
  import opened ChunkReader

  datatype Whence = FromStart | FromHere | FromEnd | Other(code: int)

  datatype StreamError = Missing | BadWhence | NegativePosition

  datatype Reply = At(position: nat) | Data(cells: Stored) | Failed(error: StreamError)

  // ---- the flat array the stream has to look like ----

  /** `read(size)` of an open file; no size, or a negative one, means the rest. */
  function FlatRead(obj: Stored, position: nat, size: Option<int>): (cells: Stored) {
    if size.None? || size.value < 0 then Slice(obj, position, Max(position, |obj|))
    else Slice(obj, position, position + size.value)
  }

  function FlatSeek(obj: Stored, position: nat, offset: int, whence: Whence): (r: Reply) {
    if whence.Other? then Failed(BadWhence)
    else
      var target := match whence case FromStart => offset case FromHere => position + offset case _ => |obj| + offset;
      if target < 0 then Failed(NegativePosition) else At(target)
  }

  datatype Op = Seek(offset: int, whence: Whence) | Read(size: Option<int>)

  /** Where the position is after an operation with the given reply. */
  function After(position: nat, reply: Reply): (n: nat) {
    match reply
    case At(p) => p
    case Data(cells) => position + |cells|
    case Failed(_) => position
  }

  function FlatStep(obj: Option<Stored>, position: nat, op: Op): (r: Reply) {
    if obj.None? then Failed(Missing)
    else
      match op
      case Seek(offset, whence) => FlatSeek(obj.value, position, offset, whence)
      case Read(size) => Data(FlatRead(obj.value, position, size))
  }

  /** The replies of a flat file to a sequence of operations. */
  function FlatRun(obj: Option<Stored>, position: nat, ops: seq<Op>): (items: seq<Reply>)
    decreases |ops|
  {
    if ops == [] then []
    else
      var reply := FlatStep(obj, position, ops[0]);
      [reply] + FlatRun(obj, After(position, reply), ops[1..])
  }

  // ---- what the stream costs ----

  /** A stretch of the object: what the buffer holds, or what one ranged GET asks for. */
  datatype Span = Span(at: nat, length: nat)
  {
    predicate Covers(from: nat, to: nat) {
      at <= from && to <= at + length
    }
  }

  /** The GET that a read makes: one, unless it starts behind the end or the buffer covers it. */
  function RequestFor(obj: Stored, window: nat, held: Span, position: nat, size: Option<int>): (r: Option<Span>)
    ensures r.Some? ==> r.value.at + r.value.length <= |obj|
    ensures r.Some? ==> r.value.Covers(position, position + |FlatRead(obj, position, size)|)
  {
    var needed := |FlatRead(obj, position, size)|;
    if position >= |obj| || held.Covers(position, position + needed) then None
    else Some(Span(position, Min(|obj| - position, Max(window, needed))))
  }

  function Requested(r: Option<Span>): (spans: seq<Span>) {
    if r.Some? then [r.value] else []
  }

  /** All GETs of a sequence of operations, in order. */
  function Requests(obj: Option<Stored>, window: nat, held: Span, position: nat, ops: seq<Op>): (spans: seq<Span>)
    ensures |spans| <= |ops|
    decreases |ops|
  {
    if ops == [] || obj.None? then []
    else
      var r := if ops[0].Read? then RequestFor(obj.value, window, held, position, ops[0].size) else None;
      Requested(r) + Requests(obj, window, if r.Some? then r.value else held,
                              After(position, FlatStep(obj, position, ops[0])), ops[1..])
  }

  /** A request is larger than the window exactly if the read that makes it returns more than the window. */
  lemma RequestExceedsExactly(obj: Stored, window: nat, held: Span, position: nat, size: Option<int>)
    requires RequestFor(obj, window, held, position, size).Some?
    ensures RequestFor(obj, window, held, position, size).value.length > window
            <==> |FlatRead(obj, position, size)| > window
  {
    hide Slice, FlatRead;
    RestOfObject(obj, position, size);
  }

  /** Windows are not capped: reading the rest of any object larger than the window is one request for all of it. */
  lemma WindowsAreNotCapped(obj: Stored, window: nat)
    requires |obj| > window
    ensures Requests(Some(obj), window, Span(0, 0), 0, [Op.Read(None)]) == [Span(0, |obj|)]
  {
    hide Slice, FlatRead, FlatSeek;
    RestOfObject(obj, 0, None);
    assert [Op.Read(None)][1..] == [];
  }

  class RangeStream {
    /** The object behind the bucket and key, None if there is none; it does not change. */
    const remote: Option<Stored>
    const window: nat
    var total: Option<nat>
    var position: nat
    var buffer: Stored
    var bufferAt: nat
    /** The ranged GETs that were made. */
    ghost var requests: seq<Span>

    ghost predicate Valid()
      reads `total, `buffer, `bufferAt
    {
      && (total.Some? ==> remote.Some? && total.value == |remote.value|)
      && (remote.None? ==> buffer == [])
      && (remote.Some? ==> bufferAt + |buffer| <= |remote.value|
                           && buffer == remote.value[bufferAt..bufferAt + |buffer|])
    }

    function Held(): (held: Span)
      reads `buffer, `bufferAt
    {
      Span(bufferAt, |buffer|)
    }

    constructor (remote: Option<Stored>, window: nat)
      ensures Valid() && this.remote == remote && this.window == window && position == 0
      ensures Held() == Span(0, 0) && requests == []
    {
      this.remote, this.window := remote, window;
      total, position, buffer, bufferAt, requests := None, 0, [], 0, [];
    }

    method Size() returns (r: Option<nat>)
      requires Valid()
      modifies this`total
      ensures Valid()
      ensures r == if remote.Some? then Some(|remote.value|) else None
    {
      if total.None? && remote.Some? {
        total := Some(|remote.value|);
      }
      return total;
    }

    method Seek(offset: int, whence: Whence) returns (reply: Reply)
      requires Valid()
      modifies this
      ensures Valid() && Held() == old(Held()) && requests == old(requests)
      ensures reply == FlatStep(remote, old(position), Op.Seek(offset, whence))
      ensures position == After(old(position), reply)
    {
      var size := Size();
      if size.None? {
        return Failed(Missing);
      }
      var target;
      match whence {
        case FromStart => target := offset;
        case FromHere => target := position + offset;
        case FromEnd => target := size.value + offset;
        case Other(_) => return Failed(BadWhence);
      }
      if target < 0 {
        return Failed(NegativePosition);
      }
      position := target;
      return At(position);
    }

    /** The ranged GET of a read that the buffer does not cover. */
    method Fetch(windowEnd: nat)
      requires Valid() && remote.Some? && position < |remote.value| && position <= windowEnd <= |remote.value|
      modifies this
      ensures Valid() && position == old(position) && total == old(total)
      ensures Held() == Span(position, Min(|remote.value| - position, Max(window, windowEnd - position)))
      ensures requests == old(requests) + [Held()]
    {
      var start := position;
      var end := Min(|remote.value|, start + Max(window, windowEnd - start));
      buffer := remote.value[start..end];
      bufferAt := start;
      requests := requests + [Span(start, end - start)];
    }

    lemma Covered(from: nat, to: nat)
      requires Valid() && remote.Some? && bufferAt <= from <= to <= bufferAt + |buffer|
      ensures to <= |remote.value| && buffer[from - bufferAt..to - bufferAt] == remote.value[from..to]
    {
      WindowSlice(remote.value, bufferAt, |buffer|, from, to);
    }

    /** The rest of a read, once the buffer covers it. */
    method Cut(windowEnd: nat) returns (piece: Stored)
      requires Valid() && remote.Some? && position <= windowEnd && Held().Covers(position, windowEnd)
      modifies this`position
      ensures windowEnd <= |remote.value| && piece == remote.value[old(position)..windowEnd]
      ensures position == windowEnd
    {
      Covered(position, windowEnd);
      var offset := position - bufferAt;
      piece := buffer[offset..offset + (windowEnd - position)];
      position := position + |piece|;
    }

    /** A read answers like a flat file, and makes exactly the request it needs. */
    method Read(size: Option<int>) returns (reply: Reply)
      requires Valid()
      modifies this
      ensures Valid()
      ensures reply == FlatStep(remote, old(position), Op.Read(size))
      ensures position == After(old(position), reply)
      ensures remote.None? ==> requests == old(requests) && Held() == old(Held())
      ensures remote.Some? ==>
                var r := RequestFor(remote.value, window, old(Held()), old(position), size);
                requests == old(requests) + Requested(r) && Held() == if r.Some? then r.value else old(Held())
    {
      hide Slice, FlatRead, FlatSeek, FlatStep, RequestFor, RangeStream.Valid;
      StepOfRead(remote, position, size);
      var known := Size();
      if known.None? {
        return Failed(Missing);
      }
      RestOfObject(remote.value, position, size);
      RequestOfRead(remote.value, window, Held(), position, size);
      var size' := known.value;
      if position >= size' {
        return Data([]);
      }
      var windowEnd := if size.None? || size.value < 0 then size' else Min(size', position + size.value);
      if !(bufferAt <= position && windowEnd <= bufferAt + |buffer|) {
        Fetch(windowEnd);
      }
      var piece := Cut(windowEnd);
      return Data(piece);
    }

    /** For every sequence of seeks and reads the stream answers like a flat file, at the cost it should have. */
    method Replay(ops: seq<Op>) returns (replies: seq<Reply>)
      requires Valid()
      modifies this
      ensures Valid() && replies == FlatRun(remote, old(position), ops)
      ensures requests == old(requests) + Requests(remote, window, old(Held()), old(position), ops)
    {
      hide Slice, FlatStep, FlatRun, RequestFor, Requests, RangeStream.Valid;
      replies := [];
      assert ops[0..] == ops;
      for i := 0 to |ops|
        invariant Valid()
        invariant FlatRun(remote, old(position), ops) == replies + FlatRun(remote, position, ops[i..])
        invariant old(requests) + Requests(remote, window, old(Held()), old(position), ops)
                  == requests + Requests(remote, window, Held(), position, ops[i..])
      {
        var reply;
        UnfoldOps(remote, window, Held(), position, ops[i..]);
        assert ops[i..][0] == ops[i] && ops[i..][1..] == ops[i + 1..];
        match ops[i] {
          case Seek(offset, whence) => reply := Seek(offset, whence);
          case Read(size) => reply := Read(size);
        }
        replies := replies + [reply];
      }
      NoOps(remote, window, Held(), position);
    }

    /** What the chunk reader does with it: seek to a slot and read it. */
    method ReadSlot(f: Frame, index: nat) returns (stored: Stored)
      requires Valid() && remote.Some?
      modifies this
      ensures Valid() && stored == Slot(remote.value, f, SlotAt(f, index))
    {
      var at := Seek(SlotAt(f, index), FromStart);
      var reply := Read(Some(f.chunkSize + TAG_SIZE));
      stored := reply.cells;
    }
  }

  lemma NoOps(obj: Option<Stored>, window: nat, held: Span, position: nat)
    ensures FlatRun(obj, position, []) == [] && Requests(obj, window, held, position, []) == []
  {
  }

  lemma UnfoldOps(obj: Option<Stored>, window: nat, held: Span, position: nat, ops: seq<Op>)
    requires ops != []
    ensures var reply := FlatStep(obj, position, ops[0]);
            var next := After(position, reply);
            var r := if obj.Some? && ops[0].Read? then RequestFor(obj.value, window, held, position, ops[0].size)
                    else None;
            && FlatRun(obj, position, ops) == [reply] + FlatRun(obj, next, ops[1..])
            && Requests(obj, window, held, position, ops)
               == Requested(r) + Requests(obj, window, if r.Some? then r.value else held, next, ops[1..])
  {
    hide FlatStep, RequestFor;
  }

  lemma StepOfRead(obj: Option<Stored>, position: nat, size: Option<int>)
    ensures FlatStep(obj, position, Op.Read(size))
            == if obj.None? then Failed(Missing) else Data(FlatRead(obj.value, position, size))
  {
  }

  /** A flat read in terms of where it ends. */
  lemma RestOfObject(obj: Stored, position: nat, size: Option<int>)
    ensures var end := if size.None? || size.value < 0 then |obj| else Min(|obj|, position + size.value);
            FlatRead(obj, position, size) == if position >= |obj| then [] else obj[position..end]
  {
  }

  /** The request of a read in terms of where it ends. */
  lemma RequestOfRead(obj: Stored, window: nat, held: Span, position: nat, size: Option<int>)
    ensures var end := if size.None? || size.value < 0 then |obj| else Min(|obj|, position + size.value);
            RequestFor(obj, window, held, position, size)
            == if position >= |obj| || held.Covers(position, end) then None
               else Some(Span(position, Min(|obj| - position, Max(window, end - position))))
  {
    hide FlatRead;
    RestOfObject(obj, position, size);
  }

  lemma WindowSlice(obj: Stored, at: nat, length: nat, from: nat, to: nat)
    requires at <= from <= to <= at + length <= |obj|
    ensures obj[at..at + length][from - at..to - at] == obj[from..to]
  {
    var window := obj[at..at + length];
    var part := window[from - at..to - at];
    assert forall i | 0 <= i < to - from :: part[i] == window[from - at + i];
    assert forall i | 0 <= i < to - from :: part[i] == obj[from + i];
  }

  /** A seek, whence by whence; a position may lie beyond the end, but not before the start. */
  lemma SeekMeans(obj: Stored, position: nat, offset: int)
    ensures FlatStep(Some(obj), position, Op.Seek(offset, FromStart))
            == if offset >= 0 then At(offset) else Failed(NegativePosition)
    ensures FlatStep(Some(obj), position, Op.Seek(offset, FromHere))
            == if position + offset >= 0 then At(position + offset) else Failed(NegativePosition)
    ensures FlatStep(Some(obj), position, Op.Seek(offset, FromEnd))
            == if |obj| + offset >= 0 then At(|obj| + offset) else Failed(NegativePosition)
    ensures forall code :: FlatStep(Some(obj), position, Op.Seek(offset, Other(code))) == Failed(BadWhence)
    ensures forall op :: FlatStep(None, position, op) == Failed(Missing)
  {
  }

  /** Seeking n bytes before the end and reading the rest gives the last n bytes, and nothing at the end itself. */
  lemma LastBytes(obj: Stored, position: nat, n: nat)
    requires n <= |obj|
    ensures FlatRun(Some(obj), position, [Op.Seek(0 - n, FromEnd), Op.Read(None)])
            == [At(|obj| - n), Data(obj[|obj| - n..])]
  {
    hide Slice, FlatRead, FlatRun;
    var seek, read := Op.Seek(0 - n, FromEnd), Op.Read(None);
    var at: nat := |obj| - n;
    RestOfObject(obj, at, None);
    assert obj[at..|obj|] == obj[at..];
    assert [seek, read][1..] == [read] && [read][1..] == [];
    UnfoldOps(Some(obj), 0, Span(0, 0), position, [seek, read]);
    UnfoldOps(Some(obj), 0, Span(0, 0), at, [read]);
    NoOps(Some(obj), 0, Span(0, 0), at + n);
  }

  /** Reading on and on by `size` gives the rest of the object, piece after piece. */
  lemma {:induction false} FlatReadsJoin(obj: Stored, position: nat, size: nat, count: nat)
    requires size > 0 && |obj| <= position + count * size
    ensures var ops := seq(count, _ => Op.Read(Some(size)));
            JoinData(FlatRun(Some(obj), position, ops)) == Slice(obj, position, Max(position, |obj|))
    decreases count
  {
    hide Slice;
    var ops := seq(count, _ => Op.Read(Some(size)));
    if count == 0 {
      SliceLengths(obj, position, Max(position, |obj|));
    } else {
      var piece := Slice(obj, position, position + size);
      SliceLengths(obj, position, position + size);
      assert ops[1..] == seq(count - 1, _ => Op.Read(Some(size)));
      Fewer(count, size);
      FlatReadsJoin(obj, position + |piece|, size, count - 1);
      RunOneRead(obj, position, size, ops);
      SliceJoins(obj, position, size);
    }
  }

  lemma RunOneRead(obj: Stored, position: nat, size: nat, ops: seq<Op>)
    requires ops != [] && ops[0] == Op.Read(Some(size))
    ensures var piece := Slice(obj, position, position + size);
            JoinData(FlatRun(Some(obj), position, ops))
            == piece + JoinData(FlatRun(Some(obj), position + |piece|, ops[1..]))
  {
    hide Slice;
    var run := FlatRun(Some(obj), position, ops);
    assert run[1..] == FlatRun(Some(obj), position + |Slice(obj, position, position + size)|, ops[1..]);
  }

  lemma Fewer(count: nat, size: nat)
    requires count > 0
    ensures count * size == (count - 1) * size + size
    ensures 0 <= (count - 1) * size
  {
  }

  lemma SliceJoins(obj: Stored, position: nat, size: nat)
    ensures var piece := Slice(obj, position, position + size);
            var next := position + |piece|;
            Slice(obj, position, Max(position, |obj|)) == piece + Slice(obj, next, Max(next, |obj|))
  {
    hide Slice;
    var piece := Slice(obj, position, position + size);
    var end := Max(position, |obj|);
    SliceLengths(obj, position, position + size);
    if position + size <= |obj| {
      SliceSplit(obj, position, position + size, end);
    } else {
      SliceClip(obj, position, position + size);
      SliceLengths(obj, position, end);
      SliceLengths(obj, position + |piece|, Max(position + |piece|, |obj|));
    }
  }

  function JoinData(replies: seq<Reply>): (cells: Stored) {
    if replies == [] then []
    else (if replies[0].Data? then replies[0].cells else []) + JoinData(replies[1..])
  }
}
