/** The download behind the fetch tool: the part of `fetch_bytes_checked` in app/core/remote_fetch.py that decides
    how many bytes of a page are taken before it is handed over or turned down. */
module RemoteFetch {
  import opened ByteStrings

  const READ_SIZE := 64 * 1024

  /** The size of one read of a body. */
  type ChunkSize = n: nat | 0 < n <= READ_SIZE witness 1

  /** What a server does: it is turned down before its body is looked at (address, status, redirects, content
      type), or sends a body in these chunks under the length it may have announced; `broken` if the connection
      fails behind them. */
  datatype Answer = TurnedDown | Body(announced: Option<nat>, chunks: seq<ChunkSize>, broken: bool)

  /** The body bytes that were taken, and whether they are handed over as the page. */
  datatype Download = Download(taken: nat, complete: bool)

  function Total(chunks: seq<ChunkSize>): (n: nat) {
    if chunks == [] then 0 else chunks[0] + Total(chunks[1..])
  }

  /** The size is checked behind each chunk, when that has been taken. */
  function Take(chunks: seq<ChunkSize>, broken: bool, taken: nat, maxBytes: nat): (d: Download) {
    if chunks == [] then Download(taken, !broken)
    else if taken + chunks[0] > maxBytes then Download(taken + chunks[0], false)
    else Take(chunks[1..], broken, taken + chunks[0], maxBytes)
  }

  predicate TooLongByName(answer: Answer, maxBytes: nat)
    requires answer.Body?
  {
    answer.announced.Some? && answer.announced.value > maxBytes
  }

  function Fetch(answer: Answer, maxBytes: nat): (d: Download) {
    if answer.TurnedDown? || TooLongByName(answer, maxBytes) then Download(0, false)
    else Take(answer.chunks, answer.broken, 0, maxBytes)
  }

  /** The reading loop of `fetch_bytes_checked`. */
  method FetchBytes(answer: Answer, maxBytes: nat) returns (d: Download)
    ensures d == Fetch(answer, maxBytes)
  {
    if answer.TurnedDown? || TooLongByName(answer, maxBytes) {
      return Download(0, false);
    }
    var taken: nat := 0;
    for i := 0 to |answer.chunks|
      invariant Fetch(answer, maxBytes) == Take(answer.chunks[i..], answer.broken, taken, maxBytes)
    {
      assert answer.chunks[i..][1..] == answer.chunks[i + 1..];
      taken := taken + answer.chunks[i];
      if taken > maxBytes {
        return Download(taken, false);
      }
    }
    return Download(taken, !answer.broken);
  }

  lemma {:induction false} TakeMeans(chunks: seq<ChunkSize>, broken: bool, taken: nat, maxBytes: nat)
    requires taken <= maxBytes
    ensures var d := Take(chunks, broken, taken, maxBytes);
            && taken <= d.taken <= taken + Total(chunks) && d.taken <= maxBytes + READ_SIZE
            && (d.complete <==> !broken && taken + Total(chunks) <= maxBytes)
            && (taken + Total(chunks) <= maxBytes ==> d.taken == taken + Total(chunks))
            && (d.taken == taken <==> chunks == [])
  {
    if chunks != [] && taken + chunks[0] <= maxBytes {
      TakeMeans(chunks[1..], broken, taken + chunks[0], maxBytes);
    }
  }

  /** A page is handed over exactly if it is not turned down, not broken and not too long, and then whole. No
      download takes more than the limit and one chunk; none takes nothing unless it sends nothing. */
  lemma FetchMeans(answer: Answer, maxBytes: nat)
    ensures var d := Fetch(answer, maxBytes);
            && (d.complete <==> answer.Body? && !TooLongByName(answer, maxBytes) && !answer.broken
                                && Total(answer.chunks) <= maxBytes)
            && (d.complete ==> d.taken == Total(answer.chunks) <= maxBytes)
            && d.taken <= maxBytes + READ_SIZE
            && (d.taken == 0 <==> answer.TurnedDown? || TooLongByName(answer, maxBytes) || answer.chunks == [])
  {
    if answer.Body? {
      TakeMeans(answer.chunks, answer.broken, 0, maxBytes);
    }
  }
}
