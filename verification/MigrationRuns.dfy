/** What passes of the migration achieve, alone and one after another. */
module MigrationRuns {
  import opened ByteStrings
  import opened Aead
  import opened Envelope
  import opened ChunkReader
  import opened SealedObjects
  import opened Storage
  import opened Migration

  predicate Quiet(pass: Pass) {
    pass.outside == map[] && pass.late == map[]
  }

  predicate Listed(st: State, listing: seq<Path>) {
    Distinct(listing) && forall p :: p in listing ==> p in st.files
  }

  /** The listed files a pass has still to deal with. */
  function Candidates(st: State, listing: seq<Path>): (n: nat) {
    if listing == [] then 0
    else (if IsCandidate(st, listing[0]) then 1 else 0) + Candidates(st, listing[1..])
  }

  /** How many of `n` candidates a pass examines when it has already examined `done`. */
  function Share(n: nat, limit: nat, done: nat): (count: nat) {
    if limit == 0 then n else Min(n, Max(0, limit - done))
  }

  // ---- one visit ----

  /** Two states agree about one path. */
  ghost predicate Agree(a: State, b: State, p: Path) {
    && (p in a.files <==> p in b.files) && (p in a.files ==> a.files[p] == b.files[p])
    && (p in a.unreadable <==> p in b.unreadable) && (p in a.unreadable ==> a.unreadable[p] == b.unreadable[p])
  }

  /** A visit touches no file and no cache entry but its own. */
  lemma VisitFrame(st: State, p: Path, pass: Pass, q: Path)
    requires p in st.files && q != p
    ensures var st' := Visit(st, p, pass);
            Agree(st', st, q) && (IsCandidate(st', q) <==> IsCandidate(st, q))
  {
    hide Header, DecryptPayload, EncodeBlob, OpensUnder, IsCurrent, IsChunked, Classify;
  }

  lemma {:induction false} CandidatesFrame(st: State, p: Path, pass: Pass, listing: seq<Path>)
    requires p in st.files && p !in listing
    ensures Candidates(Visit(st, p, pass), listing) == Candidates(st, listing)
  {
    hide Visit, IsCandidate;
    if listing != [] {
      VisitFrame(st, p, pass, listing[0]);
      CandidatesFrame(st, p, pass, listing[1..]);
    }
  }

  /** The replacement is current and opens as the object did. */
  lemma ReplacementOpens(path: Path, plain: Bytes, pass: Pass)
    ensures var cells := EncodeBlob(pass.primary, path, pass.Nonce(path), plain);
            && IsCurrent(cells) && !IsChunked(cells) && OpenObject(cells, path, pass.Ring()) == Ok(plain)
            && OpenObject(cells, path, [pass.primary]) == Ok(plain)
  {
    hide Prefix, OpenSeekable, DecryptPayload, EncodeBlob, Header;
    BlobOpens(pass.primary, path, pass.Nonce(path), plain, pass.Ring());
    BlobOpens(pass.primary, path, pass.Nonce(path), plain, [pass.primary]);
    PrefixDecides(EncodeBlob(pass.primary, path, pass.Nonce(path), plain));
  }

  lemma LegacyOpens(cells: Stored, path: Path, keys: seq<Key>)
    requires IsLegacy(cells)
    ensures OpenObject(cells, path, keys) == DecryptPayload(cells, path, keys)
  {
    hide Prefix, OpenSeekable, DecryptPayload, Header;
    PrefixDecides(cells);
  }

  /** Whatever others do, a candidate is examined if there is room, else counted as pending. */
  lemma VisitCounts(st: State, p: Path, pass: Pass)
    requires p in st.files
    ensures var t, t' := st.tally, Visit(st, p, pass).tally;
            && t'.examined == t.examined + (if IsCandidate(st, p) && HasRoom(st, pass) then 1 else 0)
            && t'.pending == t.pending + (if IsCandidate(st, p) && !HasRoom(st, pass) then 1 else 0)
  {
    hide Header, DecryptPayload, EncodeBlob, OpensUnder, IsCurrent, IsChunked, Classify;
  }

  /** A visit to a file that nobody else writes to: a candidate is dealt with for good if there is room; any other
      file is left as it is. */
  lemma VisitUntouched(st: State, p: Path, pass: Pass)
    requires p in st.files && p !in pass.outside
    ensures var st' := Visit(st, p, pass);
            && st'.files.Keys == st.files.Keys
            && OpenObject(st'.files[p].cells, p, pass.Ring()) == OpenObject(st.files[p].cells, p, pass.Ring())
            && (!IsCandidate(st, p) || !HasRoom(st, pass) ==>
                  st'.files == st.files && st'.unreadable == st.unreadable)
            && (IsCandidate(st', p) <==> IsCandidate(st, p) && !HasRoom(st, pass))
  {
    hide Header, DecryptPayload, EncodeBlob, OpensUnder, IsCurrent, IsChunked, Classify, OpenObject;
    var f := st.files[p];
    if IsCandidate(st, p) && HasRoom(st, pass) {
      LegacyOpens(f.cells, p, pass.Ring());
      var plain := DecryptPayload(f.cells, p, pass.Ring());
      if plain.Ok? {
        ReplacementOpens(p, plain.value, pass);
      }
    }
  }

  // ---- one pass ----

  /** Progress of one pass: whatever others do, it examines as many candidates as it has room for and reports the
      rest as pending; if nobody writes to a listed file, it leaves exactly those as candidates. */
  lemma {:induction false} PassProgress(st: State, listing: seq<Path>, pass: Pass)
    requires Listed(st, listing)
    ensures var n, st' := Candidates(st, listing), VisitAll(st, listing, pass);
            var share := Share(n, pass.limit, st.tally.examined);
            && st'.tally.examined == st.tally.examined + share
            && st'.tally.pending == st.tally.pending + n - share
            && (Untouched(listing, pass) ==> Candidates(st', listing) == n - share)
    decreases |listing|
  {
    hide Visit, IsCandidate;
    if listing != [] {
      var p, rest := listing[0], listing[1..];
      var st1 := Visit(st, p, pass);
      VisitCounts(st, p, pass);
      CandidatesFrame(st, p, pass, rest);
      StillListed(st, listing, pass);
      PassProgress(st1, rest, pass);
      VisitAllFrame(st1, rest, pass, p);
      if Untouched(listing, pass) {
        VisitUntouched(st, p, pass);
      }
    }
  }

  predicate Untouched(listing: seq<Path>, pass: Pass) {
    forall p :: p in listing ==> p !in pass.outside
  }

  lemma StillListed(st: State, listing: seq<Path>, pass: Pass)
    requires listing != [] && Listed(st, listing)
    ensures Listed(Visit(st, listing[0], pass), listing[1..]) && listing[0] !in listing[1..]
  {
    hide Visit;
    forall q | q in listing[1..] ensures q in Visit(st, listing[0], pass).files {
      VisitFrame(st, listing[0], pass, q);
    }
  }

  /** A pass touches only listed files. */
  lemma {:induction false} VisitAllFrame(st: State, listing: seq<Path>, pass: Pass, q: Path)
    requires Listed(st, listing) && q !in listing
    ensures var st' := VisitAll(st, listing, pass);
            Agree(st', st, q) && (IsCandidate(st', q) <==> IsCandidate(st, q))
    decreases |listing|
  {
    hide Visit, IsCandidate;
    if listing != [] {
      VisitFrame(st, listing[0], pass, q);
      forall p | p in listing[1..] ensures p in Visit(st, listing[0], pass).files {
        VisitFrame(st, listing[0], pass, p);
      }
      VisitAllFrame(Visit(st, listing[0], pass), listing[1..], pass, q);
    }
  }

  /** Accounting of any pass: every listed file falls in exactly one of current, foreign, skipped from the
      cache, pending and examined, by what it was when the pass began. */
  lemma {:induction false} PassAccounting(st: State, listing: seq<Path>, pass: Pass)
    requires Listed(st, listing)
    ensures var t, t' := st.tally, VisitAll(st, listing, pass).tally;
            && t'.current - t.current == CurrentIn(st, listing, pass)
            && t'.foreign - t.foreign == ForeignIn(st, listing, pass)
            && |listing| == (t'.current - t.current) + (t'.foreign - t.foreign) + SkippedIn(st, listing)
                            + (t'.pending - t.pending) + (t'.examined - t.examined)
    decreases |listing|
  {
    hide Visit, IsCandidate, Classify, IsCurrent, IsChunked, IsCached;
    if listing != [] {
      var p, rest := listing[0], listing[1..];
      VisitTallies(st, p, pass);
      TalliesFrame(st, p, pass, rest);
      forall q | q in rest ensures q in Visit(st, p, pass).files {
        VisitFrame(st, p, pass, q);
      }
      PassAccounting(Visit(st, p, pass), rest, pass);
    }
  }

  predicate IsForeign(cells: Stored, p: Path, keys: seq<Key>) {
    !IsCurrent(cells) && IsChunked(cells) && Classify(cells, p, keys).None?
  }

  predicate CountsAsCurrent(cells: Stored, p: Path, keys: seq<Key>) {
    IsCurrent(cells) || (IsChunked(cells) && Classify(cells, p, keys).Some?)
  }

  predicate IsSkipped(st: State, p: Path) {
    p in st.files && IsLegacy(st.files[p].cells) && IsCached(st, p)
  }

  function CurrentIn(st: State, listing: seq<Path>, pass: Pass): (n: nat) {
    if listing == [] then 0
    else (if listing[0] in st.files && CountsAsCurrent(st.files[listing[0]].cells, listing[0], pass.Ring())
          then 1 else 0)
         + CurrentIn(st, listing[1..], pass)
  }

  function ForeignIn(st: State, listing: seq<Path>, pass: Pass): (n: nat) {
    if listing == [] then 0
    else (if listing[0] in st.files && IsForeign(st.files[listing[0]].cells, listing[0], pass.Ring()) then 1 else 0)
         + ForeignIn(st, listing[1..], pass)
  }

  function SkippedIn(st: State, listing: seq<Path>): (n: nat) {
    if listing == [] then 0 else (if IsSkipped(st, listing[0]) then 1 else 0) + SkippedIn(st, listing[1..])
  }

  lemma VisitTallies(st: State, p: Path, pass: Pass)
    requires p in st.files
    ensures var cells, t, t' := st.files[p].cells, st.tally, Visit(st, p, pass).tally;
            && t'.current - t.current == (if CountsAsCurrent(cells, p, pass.Ring()) then 1 else 0)
            && t'.foreign - t.foreign == (if IsForeign(cells, p, pass.Ring()) then 1 else 0)
            && 1 == (t'.current - t.current) + (t'.foreign - t.foreign) + (if IsSkipped(st, p) then 1 else 0)
                    + (t'.pending - t.pending) + (t'.examined - t.examined)
  {
    hide Header, DecryptPayload, EncodeBlob, OpensUnder, IsCurrent, IsChunked, Classify;
  }

  lemma {:induction false} TalliesFrame(st: State, p: Path, pass: Pass, listing: seq<Path>)
    requires p in st.files && p !in listing
    ensures var st' := Visit(st, p, pass);
            && CurrentIn(st', listing, pass) == CurrentIn(st, listing, pass)
            && ForeignIn(st', listing, pass) == ForeignIn(st, listing, pass)
            && SkippedIn(st', listing) == SkippedIn(st, listing)
  {
    hide Visit, Classify, IsCurrent, IsChunked;
    if listing != [] {
      VisitFrame(st, p, pass, listing[0]);
      TalliesFrame(st, p, pass, listing[1..]);
    }
  }

  /** A candidate of the first state that the second remembers as unreadable. */
  predicate NowUnreadable(st: State, st': State, p: Path) {
    IsCandidate(st, p) && IsSkipped(st', p)
  }

  function NewlyUnreadable(st: State, st': State, listing: seq<Path>): (n: nat) {
    if listing == [] then 0
    else (if NowUnreadable(st, st', listing[0]) then 1 else 0) + NewlyUnreadable(st, st', listing[1..])
  }

  lemma VisitExamined(st: State, p: Path, pass: Pass)
    requires p in st.files
    ensures var st', t, t' := Visit(st, p, pass), st.tally, Visit(st, p, pass).tally;
            var rest := (t'.examined - t.examined) - (t'.migrated - t.migrated)
                        - (if NowUnreadable(st, st', p) then 1 else 0);
            if p in pass.outside then -1 <= rest <= 1 else rest == 0
  {
    hide Header, DecryptPayload, EncodeBlob, OpensUnder, IsCurrent, IsChunked, Classify;
    var plain := DecryptPayload(st.files[p].cells, p, pass.Ring());
    if plain.Ok? {
      ReplacementOpens(p, plain.value, pass);
    }
  }

  function TouchedIn(listing: seq<Path>, pass: Pass): (n: nat) {
    if listing == [] then 0 else (if listing[0] in pass.outside then 1 else 0) + TouchedIn(listing[1..], pass)
  }

  lemma {:induction false} NewlyUnreadableFrame(st: State, p: Path, pass: Pass, st': State, listing: seq<Path>)
    requires p in st.files && p !in listing
    ensures NewlyUnreadable(Visit(st, p, pass), st', listing) == NewlyUnreadable(st, st', listing)
  {
    hide Visit, IsCandidate, IsSkipped;
    if listing != [] {
      VisitFrame(st, p, pass, listing[0]);
      NewlyUnreadableFrame(st, p, pass, st', listing[1..]);
    }
  }

  /** Every examined object is either migrated or newly remembered as unreadable, but for as many at most as others
      write to: in a quiet pass, for all. */
  lemma {:induction false} PassExamined(st: State, listing: seq<Path>, pass: Pass)
    requires Listed(st, listing)
    ensures var st' := VisitAll(st, listing, pass);
            var rest := (st'.tally.examined - st.tally.examined) - (st'.tally.migrated - st.tally.migrated)
                        - NewlyUnreadable(st, st', listing);
            && 0 <= rest + TouchedIn(listing, pass) && rest <= TouchedIn(listing, pass)
            && (Quiet(pass) ==> rest == 0)
    decreases |listing|
  {
    hide Visit, IsCandidate, IsCurrent, IsChunked;
    if listing != [] {
      var p, rest := listing[0], listing[1..];
      var st1, st' := Visit(st, p, pass), VisitAll(st, listing, pass);
      StillListed(st, listing, pass);
      VisitExamined(st, p, pass);
      PassExamined(st1, rest, pass);
      NewlyUnreadableFrame(st, p, pass, st', rest);
      VisitAllFrame(st1, rest, pass, p);
    }
  }

  // ---- one file in a pass ----

  function LookUp<T>(m: map<Path, T>, p: Path): (r: Option<T>) {
    if p in m then Some(m[p]) else None
  }

  /** What stands under a name when the re-check looks. */
  function AtRecheck(st: State, p: Path, pass: Pass): (f: Option<File>) {
    LookUp(Written(st.files, p, pass.outside), p)
  }

  predicate SameSizeAndTime(f: File, g: File) {
    |f.cells| == |g.cells| && f.mtime == g.mtime
  }

  /** When a visit replaces a file. */
  predicate Replaces(st: State, p: Path, pass: Pass) {
    && IsCandidate(st, p) && HasRoom(st, pass) && OpenObject(st.files[p].cells, p, pass.Ring()).Ok?
    && AtRecheck(st, p, pass).Some? && SameSizeAndTime(AtRecheck(st, p, pass).value, st.files[p])
  }

  /** What one visit leaves under the name, whoever else writes there. */
  lemma VisitLeaves(st: State, p: Path, pass: Pass)
    requires p in st.files
    ensures LookUp(Visit(st, p, pass).files, p)
            == if Replaces(st, p, pass) then
                 Some(Replacement(p, OpenObject(st.files[p].cells, p, pass.Ring()).value, pass))
               else AtRecheck(st, p, pass)
  {
    hide Header, DecryptPayload, EncodeBlob, OpensUnder, IsCurrent, IsChunked, Classify, OpenObject, Replacement;
    if IsLegacy(st.files[p].cells) {
      LegacyOpens(st.files[p].cells, p, pass.Ring());
    }
  }

  /** What one visit remembers about the file. */
  lemma VisitRemembers(st: State, p: Path, pass: Pass)
    requires p in st.files
    ensures LookUp(Visit(st, p, pass).unreadable, p)
            == if Replaces(st, p, pass) then None
               else if IsCandidate(st, p) && HasRoom(st, pass)
                       && OpenObject(st.files[p].cells, p, pass.Ring()).Err? then
                 Some(Sign(st.files[p]))
               else LookUp(st.unreadable, p)
  {
    hide Header, DecryptPayload, EncodeBlob, OpensUnder, IsCurrent, IsChunked, Classify, OpenObject, Replacement,
         Written;
    if IsLegacy(st.files[p].cells) {
      LegacyOpens(st.files[p].cells, p, pass.Ring());
    }
  }

  lemma SameOutlook(a: State, b: State, p: Path, pass: Pass)
    requires Agree(a, b, p) && a.tally == b.tally && p in a.files
    ensures IsCandidate(a, p) <==> IsCandidate(b, p)
    ensures HasRoom(a, pass) <==> HasRoom(b, pass)
    ensures AtRecheck(a, p, pass) == AtRecheck(b, p, pass)
    ensures Replaces(a, p, pass) <==> Replaces(b, p, pass)
  {
    hide IsCurrent, IsChunked, OpenObject;
  }

  lemma VisitCongruent(a: State, b: State, p: Path, pass: Pass)
    requires Agree(a, b, p) && a.tally == b.tally && p in a.files
    ensures Agree(Visit(a, p, pass), Visit(b, p, pass), p)
  {
    hide Visit, IsCandidate, HasRoom, AtRecheck, Replaces, OpenObject, Replacement;
    SameOutlook(a, b, p, pass);
    VisitLeaves(a, p, pass);
    VisitLeaves(b, p, pass);
    VisitRemembers(a, p, pass);
    VisitRemembers(b, p, pass);
    var x, y := Visit(a, p, pass), Visit(b, p, pass);
    assert LookUp(x.files, p) == LookUp(y.files, p) && LookUp(x.unreadable, p) == LookUp(y.unreadable, p);
  }

  /** In a pass every listed file fares as if it were visited alone, at some count of examined files. */
  lemma {:induction false} VisitAllAt(st: State, listing: seq<Path>, pass: Pass, p: Path) returns (t: Tally)
    requires Listed(st, listing) && p in listing
    ensures Agree(Visit(st.(tally := t), p, pass), VisitAll(st, listing, pass), p)
    decreases |listing|
  {
    hide Visit, IsCandidate;
    var q, rest := listing[0], listing[1..];
    var st1 := Visit(st, q, pass);
    forall r | r in rest ensures r in st1.files {
      VisitFrame(st, q, pass, r);
    }
    if p == q {
      t := st.tally;
      VisitAllFrame(st1, rest, pass, p);
      assert st.(tally := t) == st;
    } else {
      VisitFrame(st, q, pass, p);
      t := VisitAllAt(st1, rest, pass, p);
      VisitCongruent(st1.(tally := t), st.(tally := t), p, pass);
    }
  }

  /** Safety of any pass, file by file, for the files nobody else writes to: no object opens to anything else than
      before; a file is rewritten only if it is a legacy object that one of the keys opens, and then it is current;
      an examined object that no key opens is remembered, with its bytes untouched. */
  lemma PassSafety(st: State, listing: seq<Path>, pass: Pass, p: Path)
    requires Listed(st, listing) && p in st.files && (p in listing ==> p !in pass.outside)
    ensures var st' := VisitAll(st, listing, pass);
            && p in st'.files
            && OpenObject(st'.files[p].cells, p, pass.Ring()) == OpenObject(st.files[p].cells, p, pass.Ring())
            && (st'.files[p] != st.files[p] ==>
                  && p in listing && IsCandidate(st, p) && OpenObject(st.files[p].cells, p, pass.Ring()).Ok?
                  && IsCurrent(st'.files[p].cells))
            && (IsCandidate(st, p) && !IsCandidate(st', p) ==>
                  if OpenObject(st.files[p].cells, p, pass.Ring()).Ok? then IsCurrent(st'.files[p].cells)
                  else IsCached(st', p) && st'.files[p] == st.files[p])
            && (!IsCandidate(st, p) ==> !IsCandidate(st', p))
  {
    hide Visit, OpenObject, IsCurrent, IsChunked, VisitAll, Pass.Ring;
    if p in listing {
      var t := VisitAllAt(st, listing, pass, p);
      VisitUntouched(st.(tally := t), p, pass);
      VisitOutcome(st.(tally := t), p, pass);
    } else {
      VisitAllFrame(st, listing, pass, p);
    }
  }

  lemma VisitOutcome(st: State, p: Path, pass: Pass)
    requires p in st.files && p !in pass.outside
    ensures var st' := Visit(st, p, pass);
            var opens := OpenObject(st.files[p].cells, p, pass.Ring()).Ok?;
            && p in st'.files
            && (IsCandidate(st, p) && HasRoom(st, pass) ==>
                  if opens then IsCurrent(st'.files[p].cells)
                  else st'.files[p] == st.files[p] && IsCached(st', p))
  {
    hide Header, DecryptPayload, EncodeBlob, OpensUnder, IsCurrent, IsChunked, Classify, OpenObject;
    var f := st.files[p];
    if IsCandidate(st, p) {
      LegacyOpens(f.cells, p, pass.Ring());
      var plain := DecryptPayload(f.cells, p, pass.Ring());
      if plain.Ok? {
        ReplacementOpens(p, plain.value, pass);
      }
    }
  }

  // ---- with other writers about ----

  /** Every pass and every file. A listed file is replaced exactly if it was a candidate with room left that a key
      opens and the re-check finds its size and time unchanged; the replacement opens to what was read. Else what
      stands there is what the re-check finds, or, on a file nobody writes to, what stood there before; and files
      that are not listed stay. */
  lemma PassLeaves(st: State, listing: seq<Path>, pass: Pass, p: Path) returns (t: Tally)
    requires Listed(st, listing) && p in st.files
    ensures var st', at := VisitAll(st, listing, pass), st.(tally := t);
            var read := OpenObject(st.files[p].cells, p, pass.Ring());
            if p in listing && Replaces(at, p, pass) then
              && LookUp(st'.files, p) == Some(Replacement(p, read.value, pass))
              && OpenObject(st'.files[p].cells, p, pass.Ring()) == read && IsCurrent(st'.files[p].cells)
              && OpenObject(st'.files[p].cells, p, [pass.primary]) == read
            else LookUp(st'.files, p) == if p in listing then AtRecheck(st, p, pass) else Some(st.files[p])
  {
    hide Visit, VisitAll, OpenObject, IsCurrent, IsChunked, Pass.Ring, EncodeBlob, IsCandidate;
    if p in listing {
      t := VisitAllAt(st, listing, pass, p);
      VisitLeaves(st.(tally := t), p, pass);
      if Replaces(st.(tally := t), p, pass) {
        ReplacementOpens(p, OpenObject(st.files[p].cells, p, pass.Ring()).value, pass);
      }
    } else {
      t := st.tally;
      VisitAllFrame(st, listing, pass, p);
    }
  }

  /** So whatever others leave (or delete) under a name before the re-check survives the pass if it shows in size
      or time, even as the last of several writes. */
  lemma OutsideWriteSurvives(st: State, listing: seq<Path>, pass: Pass, p: Path)
    requires Listed(st, listing) && p in listing && p in pass.outside
    requires pass.outside[p].Some? ==> !SameSizeAndTime(pass.outside[p].value, st.files[p])
    ensures LookUp(VisitAll(st, listing, pass).files, p) == pass.outside[p]
  {
    hide VisitAll, OpenObject, IsCurrent, IsChunked;
    var t := PassLeaves(st, listing, pass, p);
  }

  /** The re-check is no lock. Of any object of the oldest form that opens, whatever another writer leaves between
      the re-check and the replacement is lost, and a deletion is undone: only the replacement stands. */
  lemma LateWriteIsLost(key: Key, p: Path, nonce: Bytes, plain: Bytes, mtime: nat, pass: Pass)
    requires |nonce| == NONCE_SIZE && !ReadsAsMagic(nonce) && key in pass.Ring() && p !in pass.outside
    ensures var st := State(map[p := File(EncodeLegacy(key, nonce, plain), mtime)], map[], Tally(0, 0, 0, 0, 0));
            var left := LookUp(VisitAll(st, [p], pass).files, p);
            && left == Some(Replacement(p, plain, pass))
            && (p in pass.late && pass.late[p] != Some(Replacement(p, plain, pass)) ==> left != pass.late[p])
  {
    hide Visit, Replacement, OpenObject, EncodeLegacy, Header, Prefix, Values, Pass.Ring;
    var cells := EncodeLegacy(key, nonce, plain);
    var st := State(map[p := File(cells, mtime)], map[], Tally(0, 0, 0, 0, 0));
    LegacyOpensExactly(key, p, nonce, plain, pass.Ring());
    LegacyPrefix(key, nonce, plain);
    PrefixDecides(cells);
    assert Replaces(st, p, pass);
    VisitLeaves(st, p, pass);
    VisitNone(Visit(st, p, pass), pass);
    VisitNext(st, [p], pass);
    assert [p][1..] == [];
  }

  /** The cache skips an object of the oldest form exactly while it has the size and the time under which it was
      remembered: whoever rewrites it gets it examined again. */
  lemma SkippedExactly(st: State, p: Path)
    requires p in st.files && IsLegacy(st.files[p].cells)
    ensures IsCandidate(st, p) <==>
              !(&& p in st.unreadable
                && st.unreadable[p].size == |st.files[p].cells| && st.unreadable[p].mtime == st.files[p].mtime)
    ensures IsSkipped(st, p) <==> !IsCandidate(st, p)
  {
    hide IsCurrent, IsChunked;
  }

  // ---- a change of the keys ----

  function LegacyIn(st: State, listing: seq<Path>): (n: nat) {
    if listing == [] then 0
    else (if listing[0] in st.files && IsLegacy(st.files[listing[0]].cells) then 1 else 0) + LegacyIn(st, listing[1..])
  }

  lemma {:induction false} NothingRemembered(st: State, listing: seq<Path>)
    requires st.unreadable == map[]
    ensures Candidates(st, listing) == LegacyIn(st, listing)
  {
    hide IsCurrent, IsChunked;
    if listing != [] {
      NothingRemembered(st, listing[1..]);
    }
  }

  /** A call of the job under legacy keys other than it knew: nothing that was remembered plays a part, so every
      listed object of the oldest form is examined or pending; and whatever a key opens now is migrated by a pass
      without a limit, unless somebody else writes to it, also if it was remembered as unreadable before. */
  method MigrateUnderNewKeys(storage: LocalStorage, pass: Pass, listing: seq<Path>) returns (result: Tally)
    requires Listed(Fresh(storage.files, map[]), listing)
    requires storage.knownLegacy != Some(pass.legacy)
    modifies storage
    ensures result.examined + result.pending
            == LegacyIn(Fresh(old(storage.files), map[]), listing)
    ensures forall p :: p in listing && p !in pass.outside && pass.limit == 0
                        && IsLegacy(old(storage.files)[p].cells)
                        && OpenObject(old(storage.files)[p].cells, p, pass.Ring()).Ok? ==>
              && p in storage.files
              && storage.files[p] == Replacement(p, OpenObject(old(storage.files)[p].cells, p, pass.Ring()).value, pass)
              && OpenObject(storage.files[p].cells, p, pass.Ring())
                 == OpenObject(old(storage.files)[p].cells, p, pass.Ring())
  {
    hide VisitAll, OpenObject, IsCurrent, IsChunked, Candidates, Pass.Ring, Replacement, Distinct;
    ghost var start := Fresh(storage.files, map[]);
    var unreadable;
    DistinctListing(start, listing);
    result, unreadable := storage.MigrateLegacyEncryptionBatch(pass, listing);
    NothingRemembered(start, listing);
    PassProgress(start, listing, pass);
    forall p | p in listing && p !in pass.outside && pass.limit == 0 && IsLegacy(start.files[p].cells)
               && OpenObject(start.files[p].cells, p, pass.Ring()).Ok?
      ensures p in storage.files
      ensures storage.files[p] == Replacement(p, OpenObject(start.files[p].cells, p, pass.Ring()).value, pass)
      ensures OpenObject(storage.files[p].cells, p, pass.Ring()) == OpenObject(start.files[p].cells, p, pass.Ring())
    {
      var t := PassLeaves(start, listing, pass, p);
    }
  }

  lemma DistinctListing(st: State, listing: seq<Path>)
    requires Listed(st, listing)
    ensures Distinct(listing) && forall p :: p in listing ==> p in st.files
  {
  }

  // ---- honest chunked objects ----

  /** A chunked object counts as current under the key it was sealed with; under none of its keys, if it holds
      anything, it is somebody else's. */
  lemma HonestClassification(key: Key, path: Path, fn: Bytes, chunkSize: nat, plain: Bytes, keys: seq<Key>)
    requires GoodNonce(fn) && V2Fits(|plain|, plain, chunkSize)
    ensures var cells := EncodeV2(key, path, fn, chunkSize, |plain|, plain);
            && (key in keys ==> CountsAsCurrent(cells, path, keys))
            && (key !in keys && plain != [] ==> IsForeign(cells, path, keys))
    ensures ChunkCount(|plain|, SEEKABLE_CHUNK_SIZE) <= 0x1_0000_0000 ==>
              var cells := EncodeV1(key, path, fn, |plain|, plain);
              && (key in keys ==> CountsAsCurrent(cells, path, keys))
              && (key !in keys && plain != [] ==> IsForeign(cells, path, keys))
  {
    hide OpensUnder, EncodeV2, EncodeV1, Header, IsSealed, FrameV2, FrameV1, CountsAsCurrent, IsForeign;
    var f := EncodedV2IsSealed(key, path, fn, chunkSize, |plain|, plain);
    SealedClassification(EncodeV2(key, path, fn, chunkSize, |plain|, plain), f, key, path, plain, keys);
    if ChunkCount(|plain|, SEEKABLE_CHUNK_SIZE) <= 0x1_0000_0000 {
      PlainFits(plain);
      var g := EncodedV1IsSealed(key, path, fn, |plain|, plain);
      SealedClassification(EncodeV1(key, path, fn, |plain|, plain), g, key, path, plain, keys);
    }
  }

  /** The frame an object is read with, whatever its version. */
  ghost predicate IsReadAs(cells: Stored, path: Path, f: Frame) {
    if SeekableVersion(Header(cells)) == 2 then FrameV2(path, Header(cells)) == Ok(f)
    else SeekableVersion(Header(cells)) == 1 && FrameV1(path, Header(cells)) == f
  }

  lemma SealedClassification(cells: Stored, f: Frame, key: Key, path: Path, plain: Bytes, keys: seq<Key>)
    requires IsSealed(cells, f, key, plain) && IsReadAs(cells, path, f) && f.length == |plain|
    ensures key in keys ==> CountsAsCurrent(cells, path, keys)
    ensures key !in keys && plain != [] ==> IsForeign(cells, path, keys)
  {
    hide OpensUnder, Header, IsSealed;
    NotCurrent(cells);
    if key in keys {
      OpensUnderItsKey(cells, f, key, path, plain);
    } else if plain != [] {
      forall k | k in keys ensures !OpensUnder(cells, path, k) {
        OpensUnderNoOther(cells, f, key, path, plain, k);
      }
    }
  }

  lemma NotCurrent(cells: Stored)
    requires SeekableVersion(Header(cells)) > 0
    ensures !IsCurrent(cells)
  {
    hide Values;
    PrefixDecides(cells);
    VersionOfValues(cells);
  }

  lemma OpensUnderItsKey(cells: Stored, f: Frame, key: Key, path: Path, plain: Bytes)
    requires IsSealed(cells, f, key, plain) && IsReadAs(cells, path, f) && f.length == |plain|
    ensures OpensUnder(cells, path, key)
  {
    hide Header, FrameV2, FrameV1, ReadFrame;
    SealedRange(cells, f, key, plain, [key], 0, 1);
  }

  lemma OpensUnderNoOther(cells: Stored, f: Frame, key: Key, path: Path, plain: Bytes, other: Key)
    requires IsSealed(cells, f, key, plain) && IsReadAs(cells, path, f) && f.length == |plain|
    requires plain != [] && other != key
    ensures !OpensUnder(cells, path, other)
  {
    hide Header, FrameV2, FrameV1, Walk, OpenSlot, Slice;
    assert FirstIndex(0, f.chunkSize) == 0;
    SealedSlot(cells, f, key, plain, 0);
    SliceLengths(plain, 0, f.chunkSize);
    ForeignSlot(cells, f, key, plain, other);
    SliceIsThere(cells, f);
    WalkUnfold(cells, f, [other], 0, 1, 0, SlotAt(f, 0), 0);
  }

  lemma ForeignSlot(cells: Stored, f: Frame, key: Key, plain: Bytes, other: Key)
    requires Slot(cells, f, SlotAt(f, 0)) == Seal(ChunkOf(f, key, plain, 0, 0)) && other != key
    ensures OpenSlot(cells, f, [other], 0, SlotAt(f, 0)).None?
  {
    hide Seal, Slice;
    OpenForeign([other], f.fileNonce + IndexBytes(0), ChunkOf(f, key, plain, 0, 0), f.aad + IndexBytes(0));
  }

  lemma SliceIsThere(cells: Stored, f: Frame)
    ensures SlotAt(f, 0) == f.offset
  {
  }

  // ---- pass after pass ----

  /** `states[i + 1]` is what pass i makes of `states[i]`, its tally starting from nothing. */
  ghost predicate IsRun(states: seq<State>, passes: seq<Pass>, listing: seq<Path>, legacy: seq<Key>, limit: nat) {
    && |states| == |passes| + 1
    && (forall i :: 0 <= i < |states| ==> Listed(states[i], listing))
    && (forall i :: 0 <= i < |passes| ==>
          && Quiet(passes[i]) && passes[i].legacy == legacy && passes[i].limit == limit
          && states[i + 1] == VisitAll(Fresh(states[i].files, states[i].unreadable),
                                       listing, passes[i]))
  }

  /** Migration progress: after k quiet passes with fixed legacy keys and a limit of at least one, exactly
      max(0, N - k * limit) of the N candidates are left, and that is what the k-th pass reported as pending. */
  lemma {:induction false} RunProgress(states: seq<State>, passes: seq<Pass>, listing: seq<Path>,
                                       legacy: seq<Key>, limit: nat, k: nat)
    requires IsRun(states, passes, listing, legacy, limit) && limit >= 1 && k < |states|
    ensures var left := Max(0, Candidates(states[0], listing) - k * limit);
            Candidates(states[k], listing) == left && (k > 0 ==> states[k].tally.pending == left)
  {
    hide VisitAll, Candidates, Listed;
    if k > 0 {
      RunProgress(states, passes, listing, legacy, limit, k - 1);
      var pass := passes[k - 1];
      var start := Fresh(states[k - 1].files, states[k - 1].unreadable);
      TallyDoesNotMatter(states[k - 1], start, listing);
      assert Listed(start, listing) by { ListedFiles(states[k - 1], start, listing); }
      PassProgress(start, listing, pass);
    }
  }

  lemma {:induction false} TallyDoesNotMatter(a: State, b: State, listing: seq<Path>)
    requires a.files == b.files && a.unreadable == b.unreadable
    ensures Candidates(a, listing) == Candidates(b, listing)
  {
    if listing != [] {
      TallyDoesNotMatter(a, b, listing[1..]);
    }
  }

  lemma ListedFiles(a: State, b: State, listing: seq<Path>)
    requires Listed(a, listing) && a.files == b.files
    ensures Listed(b, listing)
  {
  }

  lemma {:induction false} NoCandidates(st: State, listing: seq<Path>, p: Path)
    requires Candidates(st, listing) == 0 && p in listing
    ensures !IsCandidate(st, p)
  {
    if p != listing[0] {
      NoCandidates(st, listing[1..], p);
    }
  }

  lemma {:induction false} PassIdle(st: State, listing: seq<Path>, pass: Pass)
    requires Listed(st, listing) && Quiet(pass) && Candidates(st, listing) == 0
    ensures var st' := VisitAll(st, listing, pass); st'.files == st.files && st'.unreadable == st.unreadable
    decreases |listing|
  {
    hide Visit, IsCandidate;
    if listing != [] {
      VisitUntouched(st, listing[0], pass);
      StillListed(st, listing, pass);
      CandidatesFrame(st, listing[0], pass, listing[1..]);
      PassIdle(Visit(st, listing[0], pass), listing[1..], pass);
    }
  }

  lemma {:induction false} RunSettled(states: seq<State>, passes: seq<Pass>, listing: seq<Path>,
                                      legacy: seq<Key>, limit: nat, k: nat, j: nat)
    requires IsRun(states, passes, listing, legacy, limit) && limit >= 1 && k <= j < |states|
    requires Candidates(states[0], listing) <= k * limit
    ensures states[j].files == states[k].files && states[j].unreadable == states[k].unreadable
  {
    hide VisitAll, Candidates, Listed;
    if k < j {
      RunSettled(states, passes, listing, legacy, limit, k, j - 1);
      RunProgress(states, passes, listing, legacy, limit, k);
      var pass := passes[j - 1];
      var start := Fresh(states[j - 1].files, states[j - 1].unreadable);
      TallyDoesNotMatter(states[k], start, listing);
      ListedFiles(states[j - 1], start, listing);
      PassIdle(start, listing, pass);
    }
  }

  /** The cache does not hide an object that opens. */
  predicate Sound(st: State, p: Path, keys: seq<Key>) {
    IsSkipped(st, p) ==> OpenObject(st.files[p].cells, p, keys).Err?
  }

  /** A history of passes of any kind, with other writers about: each lists what it finds, and works on the files
      and the cache that the one before has left. */
  ghost predicate IsHistory(states: seq<State>, passes: seq<Pass>, listings: seq<seq<Path>>, legacy: seq<Key>) {
    && |states| == |passes| + 1 == |listings| + 1
    && (forall i :: 0 <= i < |passes| ==>
          && Listed(states[i], listings[i]) && passes[i].legacy == legacy
          && states[i + 1] == VisitAll(Fresh(states[i].files, states[i].unreadable),
                                       listings[i], passes[i]))
  }

  /** Through every history a file that nobody else writes to opens to the same plaintext, and the cache never
      hides one that opens. */
  lemma {:induction false} RunSafety(states: seq<State>, passes: seq<Pass>, listings: seq<seq<Path>>,
                                     primary: Key, legacy: seq<Key>, k: nat, p: Path)
    requires IsHistory(states, passes, listings, legacy) && k < |states| && p in states[0].files
    requires forall pass :: pass in passes ==> pass.primary == primary && p !in pass.outside
    requires Sound(states[0], p, [primary] + legacy)
    ensures p in states[k].files && Sound(states[k], p, [primary] + legacy)
    ensures OpenObject(states[k].files[p].cells, p, [primary] + legacy)
            == OpenObject(states[0].files[p].cells, p, [primary] + legacy)
  {
    hide VisitAll, OpenObject, IsCurrent, IsChunked;
    if k > 0 {
      RunSafety(states, passes, listings, primary, legacy, k - 1, p);
      var pass := passes[k - 1];
      assert pass in passes;
      var start := Fresh(states[k - 1].files, states[k - 1].unreadable);
      ListedFiles(states[k - 1], start, listings[k - 1]);
      PassSafety(start, listings[k - 1], pass, p);
    }
  }

  lemma RunIsHistory(states: seq<State>, passes: seq<Pass>, listing: seq<Path>, legacy: seq<Key>, limit: nat)
    requires IsRun(states, passes, listing, legacy, limit)
    ensures IsHistory(states, passes, seq(|passes|, _ => listing), legacy)
    ensures forall pass, p :: pass in passes ==> p !in pass.outside
    ensures forall i :: 0 <= i < |states| ==> Listed(states[i], listing)
  {
    hide VisitAll, Listed;
  }

  /** Nothing starves: once k * limit reaches the number of candidates, every listed object that a key opened
      at the start has left the legacy form, still opens to the same plaintext, and further passes change
      nothing, whatever unreadable objects stand before it in the listing. */
  lemma RunComplete(states: seq<State>, passes: seq<Pass>, listing: seq<Path>,
                    primary: Key, legacy: seq<Key>, limit: nat, k: nat, p: Path)
    requires IsRun(states, passes, listing, legacy, limit) && limit >= 1 && k < |states| && p in listing
    requires forall pass :: pass in passes ==> pass.primary == primary
    requires Candidates(states[0], listing) <= k * limit
    requires Sound(states[0], p, [primary] + legacy)
    requires p in states[0].files && OpenObject(states[0].files[p].cells, p, [primary] + legacy).Ok?
    ensures p in states[k].files && !IsLegacy(states[k].files[p].cells)
    ensures OpenObject(states[k].files[p].cells, p, [primary] + legacy)
            == OpenObject(states[0].files[p].cells, p, [primary] + legacy)
    ensures forall j :: k <= j < |states| ==>
              states[j].files == states[k].files && states[j].unreadable == states[k].unreadable
  {
    hide VisitAll, Candidates, OpenObject, IsCurrent, IsChunked, IsRun;
    RunProgress(states, passes, listing, legacy, limit, k);
    RunIsHistory(states, passes, listing, legacy, limit);
    RunSafety(states, passes, seq(|passes|, _ => listing), primary, legacy, k, p);
    NoCandidates(states[k], listing, p);
    forall j | k <= j < |states|
      ensures states[j].files == states[k].files && states[j].unreadable == states[k].unreadable {
      RunSettled(states, passes, listing, legacy, limit, k, j);
    }
  }
}
