/** `LocalStorage.migrate_legacy_encryption_batch`: legacy single-blob objects are rewritten in place, at most
    `limit` of them examined in one pass, and objects no key opens are remembered by size and time. */
module Migration {
  import opened ByteStrings
  import opened Aead
  import opened Envelope
  import opened ChunkReader
  import opened Storage

  datatype File = File(cells: Stored, mtime: nat)

  datatype Signature = Signature(size: nat, mtime: nat)

  type Files = map<Path, File>
  type Cache = map<Path, Signature>

  function Sign(f: File): (r: Signature) {
    Signature(|f.cells|, f.mtime)
  }

  /** What outside writers leave under names: a file, or None for a deletion. */
  type Writes = map<Path, Option<File>>

  /** The keys, the fresh nonces and the clock of one pass, and what outside writers do to a file while the pass is
      at it: `outside` behind its being read and before the re-check, `late` between that and the replacement. */
  datatype Pass = Pass(primary: Key, legacy: seq<Key>, limit: nat, nonces: map<Path, Bytes>, now: nat,
                       outside: Writes, late: Writes)
  {
    function Ring(): (keys: seq<Key>)
      ensures primary in keys
    {
      [primary] + legacy
    }

    function Nonce(p: Path): (n: Bytes)
      ensures |n| == NONCE_SIZE
    {
      if p in nonces && |nonces[p]| == NONCE_SIZE then nonces[p] else seq(NONCE_SIZE, _ => 0)
    }
  }

  datatype Tally = Tally(migrated: nat, current: nat, pending: nat, examined: nat, foreign: nat)

  datatype State = State(files: Files, unreadable: Cache, tally: Tally)

  // ---- one file ----

  predicate IsCurrent(cells: Stored) {
    StartsWith(Header(cells), ENCRYPTED_FILE_MAGIC)
  }

  predicate IsChunked(cells: Stored) {
    SeekableVersion(Header(cells)) > 0
  }

  /** One byte is asked of the range reader; only its first piece is pulled. */
  predicate OpensUnder(cells: Stored, path: Path, key: Key) {
    var header := Header(cells);
    var y := if SeekableVersion(header) == 2 then
               var f := FrameV2(path, header);
               if f.Err? then Yield([], Raised(f.error)) else ReadFrame(cells, f.value, [key], 0, 1)
             else ReadFrame(cells, FrameV1(path, header), [key], 0, 1);
    y.pieces != [] || y.status.Done?
  }

  /** `_classify_seekable`: the first key that opens the object. */
  function Classify(cells: Stored, path: Path, keys: seq<Key>): (k: Option<Key>)
    ensures k.Some? <==> IsChunked(cells) && exists key :: key in keys && OpensUnder(cells, path, key)
    ensures k.Some? ==> k.value in keys && OpensUnder(cells, path, k.value)
  {
    if !IsChunked(cells) || keys == [] then None
    else if OpensUnder(cells, path, keys[0]) then Some(keys[0])
    else Classify(cells, path, keys[1..])
  }

  predicate IsLegacy(cells: Stored) {
    !IsCurrent(cells) && !IsChunked(cells)
  }

  predicate IsCached(st: State, p: Path)
    requires p in st.files
  {
    p in st.unreadable && st.unreadable[p] == Sign(st.files[p])
  }

  /** The files a pass still has to deal with. */
  predicate IsCandidate(st: State, p: Path) {
    p in st.files && IsLegacy(st.files[p].cells) && !IsCached(st, p)
  }

  predicate HasRoom(st: State, pass: Pass) {
    pass.limit == 0 || st.tally.examined < pass.limit
  }

  /** What a pass does about one listed file, as a function. */
  function Visit(st: State, p: Path, pass: Pass): (after: State)
    requires p in st.files
  {
    var f, t := st.files[p], st.tally;
    var found := Written(st.files, p, pass.outside);
    if IsCurrent(f.cells) then State(found, st.unreadable, t.(current := t.current + 1))
    else if IsChunked(f.cells) then
      if Classify(f.cells, p, pass.Ring()).Some? then State(found, st.unreadable, t.(current := t.current + 1))
      else State(found, st.unreadable, t.(foreign := t.foreign + 1))
    else if IsCached(st, p) then State(found, st.unreadable, t)
    else if !HasRoom(st, pass) then State(found, st.unreadable, t.(pending := t.pending + 1))
    else
      var t' := t.(examined := t.examined + 1);
      var plain := DecryptPayload(f.cells, p, pass.Ring());
      if plain.Err? then State(found, st.unreadable[p := Sign(f)], t')
      else if p !in found || Sign(found[p]) != Sign(f) then State(found, st.unreadable, t')
      else
        State(found[p := Replacement(p, plain.value, pass)], st.unreadable - {p}, t'.(migrated := t.migrated + 1))
  }

  function Replacement(p: Path, plain: Bytes, pass: Pass): (f: File) {
    File(EncodeBlob(pass.primary, p, pass.Nonce(p), plain), pass.now)
  }

  /** The files when others have written under `p`. */
  function Written(files: Files, p: Path, writes: Writes): (after: Files)
    ensures p !in writes ==> after == files
    ensures forall q :: q != p ==> (q in after <==> q in files) && (q in files ==> after[q] == files[q])
  {
    if p !in writes then files
    else if writes[p].None? then files - {p}
    else files[p := writes[p].value]
  }

  /** Nothing that others write before a replacement outlives it. */
  lemma ReplacementCovers(files: Files, p: Path, writes: Writes, f: File)
    ensures Written(files, p, writes)[p := f] == files[p := f]
  {
  }

  function VisitAll(st: State, listing: seq<Path>, pass: Pass): (after: State)
    requires Distinct(listing) && forall p :: p in listing ==> p in st.files
    decreases |listing|
  {
    if listing == [] then st else VisitAll(Visit(st, listing[0], pass), listing[1..], pass)
  }

  lemma VisitNext(st: State, listing: seq<Path>, pass: Pass)
    requires listing != [] && Distinct(listing) && forall p :: p in listing ==> p in st.files
    ensures Distinct(listing[1..]) && forall p :: p in listing[1..] ==> p in Visit(st, listing[0], pass).files
    ensures VisitAll(st, listing, pass) == VisitAll(Visit(st, listing[0], pass), listing[1..], pass)
  {
  }

  lemma VisitNone(st: State, pass: Pass)
    ensures VisitAll(st, [], pass) == st
  {
  }

  predicate Distinct(listing: seq<Path>) {
    forall i, j :: 0 <= i < j < |listing| ==> listing[i] != listing[j]
  }

  /** The start of a pass: nothing is counted yet. */
  function Fresh(files: Files, unreadable: Cache): (st: State) {
    State(files, unreadable, Tally(0, 0, 0, 0, 0))
  }

  class LocalStorage {
    var files: Files
    var unreadable: Cache
    var knownLegacy: Option<seq<Key>>

    /** `migrate_legacy_encryption_batch`; `listing` is the sorted list of the `.enc` files. */
    method MigrateLegacyEncryptionBatch(pass: Pass, listing: seq<Path>) returns (result: Tally, unreadableCount: nat)
      requires Distinct(listing) && forall p :: p in listing ==> p in files
      modifies this
      ensures var remembered := if old(knownLegacy) == Some(pass.legacy) then old(unreadable) else map[];
              State(files, unreadable, result)
              == VisitAll(Fresh(old(files), remembered), listing, pass)
      ensures knownLegacy == Some(pass.legacy) && unreadableCount == |unreadable|
    {
      hide Header, DecryptPayload, EncodeBlob, OpensUnder, IsCurrent, IsChunked, VisitAll, Distinct, Pass.Nonce;
      if knownLegacy != Some(pass.legacy) {
        unreadable := map[];
        knownLegacy := Some(pass.legacy);
      }
      ghost var goal := VisitAll(State(files, unreadable, Tally(0, 0, 0, 0, 0)), listing, pass);
      var migrated, current, pending, examined, foreign := 0, 0, 0, 0, 0;
      for i := 0 to |listing|
        invariant Distinct(listing[i..]) && forall p :: p in listing[i..] ==> p in files
        invariant knownLegacy == Some(pass.legacy)
        invariant goal == VisitAll(State(files, unreadable, Tally(migrated, current, pending, examined, foreign)),
                                   listing[i..], pass)
      {
        var path := listing[i];
        assert listing[i..][0] == path && listing[i..][1..] == listing[i + 1..];
        VisitNext(State(files, unreadable, Tally(migrated, current, pending, examined, foreign)), listing[i..], pass);
        var file := files[path];
        files := Written(files, path, pass.outside);
        if IsCurrent(file.cells) {
          current := current + 1;
          continue;
        }
        if IsChunked(file.cells) {
          var verdict := Classify(file.cells, path, pass.Ring());
          if verdict.Some? {
            current := current + 1;
          } else {
            foreign := foreign + 1;
          }
          continue;
        }
        var signature := Sign(file);
        if path in unreadable && unreadable[path] == signature {
          continue;
        }
        if pass.limit > 0 && examined >= pass.limit {
          pending := pending + 1;
          continue;
        }
        examined := examined + 1;
        var plain := DecryptPayload(file.cells, path, pass.Ring());
        if plain.Err? {
          unreadable := unreadable[path := signature];
          continue;
        }
        var replacement := EncodeBlob(pass.primary, path, pass.Nonce(path), plain.value);
        BlobOpens(pass.primary, path, pass.Nonce(path), plain.value, pass.Ring());
        assert DecryptPayload(replacement, path, pass.Ring()) == plain;
        if path !in files {
          continue;
        }
        if Sign(files[path]) != signature {
          continue;
        }
        ReplacementCovers(files, path, pass.late, File(replacement, pass.now));
        files := Written(files, path, pass.late);
        files := files[path := File(replacement, pass.now)];
        unreadable := unreadable - {path};
        migrated := migrated + 1;
      }
      VisitNone(State(files, unreadable, Tally(migrated, current, pending, examined, foreign)), pass);
      return Tally(migrated, current, pending, examined, foreign), |unreadable|;
    }
  }
}
