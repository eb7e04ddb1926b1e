/** Offline packages: the normalized resource list, the NSP container and the hybrid manifest. */
module Packages {
  import opened ByteStrings

  const RESOURCE_TYPES := {"binary", "container", "css", "html", "image", "js", "json", "sealed", "text"}
  const PACKABLE_RESOURCE_TYPES := {"container", "css", "html", "image", "js", "json", "text"}
  const STANDALONE_RESOURCE_TYPES := {"binary", "sealed"}
  /** `NSPK` */
  const MAGIC: Bytes := [0x4E, 0x53, 0x50, 0x4B]
  const FOOTER_SIZE := 12

  predicate IsPackable(kind: string) {
    kind in PACKABLE_RESOURCE_TYPES
  }

  predicate IsStandalone(kind: string) {
    kind in STANDALONE_RESOURCE_TYPES
  }

  predicate IsSupported(kind: string) {
    kind in RESOURCE_TYPES
  }

  /** The two kinds of resources are all the supported ones, and exclude each other. */
  lemma KindsPartition(kind: string)
    ensures IsSupported(kind) <==> IsPackable(kind) || IsStandalone(kind)
    ensures IsPackable(kind) ==> !IsStandalone(kind)
    ensures IsStandalone(kind) <==> kind == "binary" || kind == "sealed"
  {
    assert RESOURCE_TYPES == PACKABLE_RESOURCE_TYPES + STANDALONE_RESOURCE_TYPES;
    assert "binary"[0] == 'b' && "sealed"[0] == 's';
    assert forall k :: k in PACKABLE_RESOURCE_TYPES ==> k[0] != 'b' && k[0] != 's';
  }

  /** A resource entry; `rest` stands for the fields nobody looks at. */
  datatype Resource = Resource(url: string, kind: string, size: Option<int>, sha256: Option<string>, rest: string)

  datatype Error = BadUrl | BadType | BadSize | BadDigest | Conflict | Unavailable | TooLarge | BadId

  datatype Result<+T> = Ok(value: T) | Err(error: Error)

  // ---- normalize_package_resources ----

  predicate IsDigest(s: string) {
    |s| == 64 && forall c :: c in s ==> '0' <= c <= '9' || 'a' <= c <= 'f'
  }

  /** The checks on one entry, in the order in which they are made. */
  function Check(r: Resource, isLocal: string -> bool): (result: Option<Error>) {
    if r.url == "" || !isLocal(r.url) then Some(BadUrl)
    else if !IsSupported(r.kind) then Some(BadType)
    else if r.size.Some? && r.size.value < 0 then Some(BadSize)
    else if r.sha256.Some? && !IsDigest(r.sha256.value) then Some(BadDigest)
    else None
  }

  /** An entry passes exactly if it has a local URL, one of the nine types, no negative size, and no digest but one of
      64 lower-case hexadecimal digits. */
  lemma CheckExactly(r: Resource, isLocal: string -> bool)
    ensures Check(r, isLocal).None? <==>
              && r.url != "" && isLocal(r.url)
              && (|| r.kind == "binary" || r.kind == "container" || r.kind == "css" || r.kind == "html"
                  || r.kind == "image" || r.kind == "js" || r.kind == "json" || r.kind == "sealed" || r.kind == "text")
              && (r.size.Some? ==> r.size.value >= 0)
              && (r.sha256.Some? ==>
                    && |r.sha256.value| == 64
                    && forall c :: c in r.sha256.value ==> c in "0123456789abcdef")
  {
    assert forall c: char :: ('0' <= c <= '9' || 'a' <= c <= 'f') <==> c in "0123456789abcdef";
  }

  predicate DistinctUrls(resources: seq<Resource>) {
    forall i, j :: 0 <= i < j < |resources| ==> resources[i].url != resources[j].url
  }

  /** Two entries of one URL are the same entry. */
  predicate Functional(resources: seq<Resource>) {
    forall x, y :: x in resources && y in resources && x.url == y.url ==> x == y
  }

  predicate AllPass(resources: seq<Resource>, isLocal: string -> bool) {
    forall r :: r in resources ==> Check(r, isLocal).None?
  }

  /** The first of every group of equal entries, in order. */
  function Dedup(resources: seq<Resource>): (items: seq<Resource>) {
    if resources == [] then []
    else
      var n := |resources| - 1;
      var before := Dedup(resources[..n]);
      if resources[n] in resources[..n] then before else before + [resources[n]]
  }

  /** `normalize_package_resources`: it raises exactly if an entry fails its checks or two entries of one URL
      differ; else it keeps the first of each, in manifest order. */
  method Normalize(resources: seq<Resource>, isLocal: string -> bool) returns (r: Result<seq<Resource>>)
    ensures r.Ok? <==> AllPass(resources, isLocal) && Functional(resources)
    ensures r.Ok? ==> r.value == Dedup(resources)
  {
    var normalized: seq<Resource> := [];
    var seen: map<string, Resource> := map[];
    for i := 0 to |resources|
      invariant AllPass(resources[..i], isLocal) && Functional(resources[..i])
      invariant normalized == Dedup(resources[..i])
      invariant forall x :: x in resources[..i] ==> x.url in seen && seen[x.url] == x
      invariant forall url :: url in seen ==> seen[url] in resources[..i] && seen[url].url == url
    {
      var resource := resources[i];
      assert resources[..i + 1] == resources[..i] + [resource];
      var failure := Check(resource, isLocal);
      if failure.Some? {
        assert resource in resources;
        return Err(failure.value);
      }
      assert resources[..i + 1][..i] == resources[..i];
      if resource.url in seen {
        if seen[resource.url] != resource {
          assert seen[resource.url] in resources && resource in resources;
          return Err(Conflict);
        }
        continue;
      }
      seen := seen[resource.url := resource];
      normalized := normalized + [resource];
    }
    assert resources[..|resources|] == resources;
    return Ok(normalized);
  }

  /** A normalized list has no URL twice, loses no entry, and normalizing it again changes nothing. */
  lemma {:induction false} DedupMeans(resources: seq<Resource>)
    requires Functional(resources)
    ensures var d := Dedup(resources);
            DistinctUrls(d) && Functional(d) && Dedup(d) == d && forall r :: r in d <==> r in resources
  {
    hide Functional, DistinctUrls;
    if resources == [] {
      FunctionalPart([], resources);
      NoUrls();
    } else {
      var n := |resources| - 1;
      var before, last := resources[..n], resources[n];
      assert resources == before + [last];
      FunctionalPart(before, resources);
      DedupMeans(before);
      if last !in before {
        DedupOneMore(resources, Dedup(before), last);
      }
      FunctionalPart(Dedup(resources), resources);
    }
  }

  /** Entries keep their order: a list without repeats stays as it is, and what comes later changes nothing before. */
  lemma {:induction false} DedupKeepsOrder(resources: seq<Resource>, n: nat)
    requires n <= |resources|
    ensures Dedup(resources[..n]) <= Dedup(resources)
    ensures DistinctUrls(resources) ==> Dedup(resources) == resources
    decreases |resources|
  {
    if resources != [] {
      var m := |resources| - 1;
      assert resources == resources[..m] + [resources[m]];
      if n < |resources| {
        assert resources[..m][..n] == resources[..n];
        DedupKeepsOrder(resources[..m], n);
      } else {
        assert resources[..n] == resources;
        DedupKeepsOrder(resources[..m], m);
      }
    }
  }

  lemma NoUrls()
    ensures DistinctUrls([])
  {
  }

  lemma FunctionalPart(part: seq<Resource>, resources: seq<Resource>)
    requires Functional(resources) && forall r :: r in part ==> r in resources
    ensures Functional(part)
  {
  }

  lemma DedupOneMore(resources: seq<Resource>, d: seq<Resource>, x: Resource)
    requires Functional(resources) && x in resources && x !in d && (forall r :: r in d ==> r in resources)
    requires DistinctUrls(d) && Dedup(d) == d
    ensures DistinctUrls(d + [x]) && Dedup(d + [x]) == d + [x]
  {
    assert (d + [x])[..|d|] == d;
    forall i | 0 <= i < |d| ensures d[i].url != x.url {
      assert d[i] in d;
    }
  }

  // ---- the container ----

  datatype Entry = Entry(offset: nat, length: nat, mime: string, digest: Bytes)

  /** The index in the order in which it is written; with distinct URLs that is the dictionary. */
  type Index = seq<(string, Entry)>

  /** What the server answers for a resource: its content and type, or a failure. */
  datatype Fetched = Fetched(content: Bytes, mime: string) | Failure

  function Packable(resources: seq<Resource>): (items: seq<Resource>) {
    if resources == [] then []
    else (if IsPackable(resources[0].kind) then [resources[0]] else []) + Packable(resources[1..])
  }

  function Standalone(resources: seq<Resource>): (items: seq<Resource>) {
    if resources == [] then []
    else (if IsStandalone(resources[0].kind) then [resources[0]] else []) + Standalone(resources[1..])
  }

  predicate AllFetched(resources: seq<Resource>, fetch: string -> Fetched) {
    forall r :: r in resources ==> fetch(r.url).Fetched?
  }

  /** The contents of the packed resources, one after another. */
  function Contents(packed: seq<Resource>, fetch: string -> Fetched): (bytes: Bytes)
    requires AllFetched(packed, fetch)
  {
    if packed == [] then []
    else
      var n := |packed| - 1;
      assert packed == packed[..n] + [packed[n]];
      Contents(packed[..n], fetch) + fetch(packed[n].url).content
  }

  /** The index: every entry starts where the one before it ends. */
  function IndexOf(packed: seq<Resource>, fetch: string -> Fetched): (r: Index)
    requires AllFetched(packed, fetch)
  {
    if packed == [] then []
    else
      var n := |packed| - 1;
      assert packed == packed[..n] + [packed[n]];
      var f := fetch(packed[n].url);
      IndexOf(packed[..n], fetch) +
      [(packed[n].url, Entry(|Contents(packed[..n], fetch)|, |f.content|, f.mime, f.content))]
  }

  /** `build_nsp_file`; `json` writes the index. Nothing incomplete is returned: one resource that cannot be
      fetched fails the package. */
  method BuildNsp(resources: seq<Resource>, fetch: string -> Fetched, json: Index -> Bytes) returns (r: Result<Bytes>)
    ensures var packed := Packable(resources);
            && (r.Ok? <==> AllFetched(packed, fetch) && |Contents(packed, fetch)| < 0x1_0000_0000_0000_0000)
            && (r.Ok? ==> r.value == Contents(packed, fetch) + json(IndexOf(packed, fetch))
                                     + ToBig(|Contents(packed, fetch)|, 8) + MAGIC)
  {
    var packed := Packable(resources);
    var file: Bytes := [];
    var index: Index := [];
    var offset := 0;
    for i := 0 to |packed|
      invariant AllFetched(packed[..i], fetch)
      invariant file == Contents(packed[..i], fetch) && index == IndexOf(packed[..i], fetch) && offset == |file|
    {
      var resource := fetch(packed[i].url);
      assert packed[..i + 1] == packed[..i] + [packed[i]] && packed[..i + 1][..i] == packed[..i];
      if resource.Failure? {
        assert packed[i] in packed;
        return Err(Unavailable);
      }
      index := index + [(packed[i].url, Entry(offset, |resource.content|, resource.mime, resource.content))];
      file := file + resource.content;
      offset := offset + |resource.content|;
    }
    assert packed[..|packed|] == packed;
    if offset >= 0x1_0000_0000_0000_0000 {
      return Err(TooLarge);
    }
    return Ok(file + json(index) + ToBig(offset, 8) + MAGIC);
  }

  // ---- reading it back ----

  /** The 12-byte footer: where the index starts, and the magic. */
  function Footer(nsp: Bytes): (r: Option<nat>) {
    if |nsp| < FOOTER_SIZE || nsp[|nsp| - 4..] != MAGIC then None
    else
      var offset := FromBig(nsp[|nsp| - FOOTER_SIZE..|nsp| - 4]);
      if offset > |nsp| - FOOTER_SIZE then None else Some(offset)
  }

  function ReadIndex(nsp: Bytes, parse: Bytes -> Option<Index>): (r: Option<Index>) {
    var at := Footer(nsp);
    if at.None? then None else parse(nsp[at.value..|nsp| - FOOTER_SIZE])
  }

  /** The content of the entry with a URL, cut out by offset and length. */
  function Extract(nsp: Bytes, index: Index, url: string): (r: Option<Bytes>) {
    if index == [] then None
    else if index[0].0 == url then
      var e := index[0].1;
      if e.offset + e.length <= |nsp| then Some(nsp[e.offset..e.offset + e.length]) else None
    else Extract(nsp, index[1..], url)
  }

  /** The entry of the resource packed last. */
  function LastEntry(packed: seq<Resource>, fetch: string -> Fetched): (r: Entry)
    requires packed != [] && AllFetched(packed, fetch)
  {
    var f := fetch(packed[|packed| - 1].url);
    Entry(|Contents(packed, fetch)| - |f.content|, |f.content|, f.mime, f.content)
  }

  /** What one resource more adds to the contents and the index. */
  lemma OnePacked(packed: seq<Resource>, fetch: string -> Fetched)
    requires packed != [] && AllFetched(packed, fetch)
    ensures var before, url := packed[..|packed| - 1], packed[|packed| - 1].url;
            && AllFetched(before, fetch) && fetch(url).Fetched?
            && Contents(packed, fetch) == Contents(before, fetch) + fetch(url).content
            && IndexOf(packed, fetch) == IndexOf(before, fetch) + [(url, LastEntry(packed, fetch))]
            && LastEntry(packed, fetch).offset == |Contents(before, fetch)|
  {
    assert packed == packed[..|packed| - 1] + [packed[|packed| - 1]];
  }

  /** The slices tile the contents: the first starts at 0, each starts where the one before ends, the last ends
      at the offset in the footer, and each holds its resource. */
  lemma {:induction false} SlicesTile(packed: seq<Resource>, fetch: string -> Fetched, rest: Bytes)
    requires AllFetched(packed, fetch)
    ensures var index, all := IndexOf(packed, fetch), Contents(packed, fetch);
            && Tiles(index, |all|) && |index| == |packed|
            && forall i :: 0 <= i < |index| ==>
                 index[i].0 == packed[i].url
                 && HoldsAt(all + rest, index[i].1, packed[i].url, fetch)
  {
    hide Contents, IndexOf, AllFetched, HoldsAt;
    if packed == [] {
      NothingPacked(fetch);
    } else {
      var n := |packed| - 1;
      OnePacked(packed, fetch);
      var content := fetch(packed[n].url).content;
      var body := Contents(packed[..n], fetch);
      SlicesTile(packed[..n], fetch, content + rest);
      assert body + content + rest == body + (content + rest);
      LastHolds(packed, fetch, body, rest);
    }
  }

  lemma NothingPacked(fetch: string -> Fetched)
    ensures Contents([], fetch) == [] && IndexOf([], fetch) == []
  {
  }

  lemma LastHolds(packed: seq<Resource>, fetch: string -> Fetched, body: Bytes, rest: Bytes)
    requires packed != [] && AllFetched(packed, fetch)
    requires Contents(packed, fetch) == body + fetch(packed[|packed| - 1].url).content
    ensures var url := packed[|packed| - 1].url;
            HoldsAt(Contents(packed, fetch) + rest, LastEntry(packed, fetch), url, fetch)
  {
    hide Contents;
    var content := fetch(packed[|packed| - 1].url).content;
    assert (body + content + rest)[|body|..|body| + |content|] == content;
  }

  /** Consecutive slices that cover [0, end) without gaps. */
  predicate Tiles(index: Index, end: nat) {
    if index == [] then end == 0
    else
      && index[0].1.offset == 0
      && (forall i :: 0 <= i < |index| - 1 ==> index[i].1.offset + index[i].1.length == index[i + 1].1.offset)
      && index[|index| - 1].1.offset + index[|index| - 1].1.length == end
  }

  ghost predicate HoldsAt(nsp: Bytes, e: Entry, url: string, fetch: string -> Fetched) {
    && fetch(url).Fetched? && e.offset + e.length <= |nsp|
    && nsp[e.offset..e.offset + e.length] == fetch(url).content == e.digest && e.mime == fetch(url).mime
  }

  lemma {:induction false} ExtractFinds(nsp: Bytes, index: Index, i: nat)
    requires i < |index| && index[i].1.offset + index[i].1.length <= |nsp|
    requires forall k, m :: 0 <= k < m < |index| ==> index[k].0 != index[m].0
    ensures Extract(nsp, index, index[i].0) == Some(nsp[index[i].1.offset..index[i].1.offset + index[i].1.length])
    decreases i
  {
    if i > 0 {
      ExtractFinds(nsp, index[1..], i - 1);
    }
  }

  lemma FooterOf(body: Bytes, index: Bytes, offset: nat)
    requires offset == |body| < 0x1_0000_0000_0000_0000
    ensures var nsp := body + index + ToBig(offset, 8) + MAGIC;
            && Footer(nsp) == Some(offset) && nsp[offset..|nsp| - FOOTER_SIZE] == index
            && nsp == body + (index + ToBig(offset, 8) + MAGIC)
  {
    hide ToBig, FromBig, Pow256;
    var number := ToBig(offset, 8);
    var nsp := body + index + number + MAGIC;
    var n := |body| + |index|;
    assert |nsp| == n + FOOTER_SIZE && |MAGIC| == 4;
    assert nsp[n + 8..] == MAGIC;
    assert nsp[n..n + 8] == number;
    assert nsp[|body|..n] == index;
    assert nsp == body + (index + number + MAGIC);
    Pow256Values();
    BigRoundTrip(offset, 8);
  }

  /** Round trip: reading the footer, then the index, then a slice gives every packed resource back. */
  lemma ContainerRoundTrip(resources: seq<Resource>, fetch: string -> Fetched, json: Index -> Bytes,
                           parse: Bytes -> Option<Index>, r: Resource)
    requires DistinctUrls(resources) && AllFetched(Packable(resources), fetch) && r in Packable(resources)
    requires |Contents(Packable(resources), fetch)| < 0x1_0000_0000_0000_0000
    requires parse(json(IndexOf(Packable(resources), fetch))) == Some(IndexOf(Packable(resources), fetch))
    ensures var packed := Packable(resources);
            var nsp := Contents(packed, fetch) + json(IndexOf(packed, fetch))
                      + ToBig(|Contents(packed, fetch)|, 8) + MAGIC;
            var index := ReadIndex(nsp, parse);
            index.Some? && Extract(nsp, index.value, r.url) == Some(fetch(r.url).content)
  {
    hide Contents, IndexOf, Footer, Packable, ToBig, Extract;
    var packed := Packable(resources);
    var body, index := Contents(packed, fetch), IndexOf(packed, fetch);
    var tail := json(index) + ToBig(|body|, 8) + MAGIC;
    FooterOf(body, json(index), |body|);
    SlicesTile(packed, fetch, tail);
    PackableDistinct(resources);
    var i :| 0 <= i < |packed| && packed[i] == r;
    ExtractFinds(body + tail, index, i);
  }

  lemma {:induction false} PackableDistinct(resources: seq<Resource>)
    requires DistinctUrls(resources)
    ensures DistinctUrls(Packable(resources)) && forall r :: r in Packable(resources) ==> r in resources
  {
    if resources != [] {
      PackableDistinct(resources[1..]);
      assert resources == [resources[0]] + resources[1..];
      var rest := Packable(resources[1..]);
      forall i | 0 <= i < |rest| ensures resources[0].url != rest[i].url {
        assert rest[i] in resources[1..];
        var k :| 0 <= k < |resources[1..]| && resources[1..][k] == rest[i];
        assert resources[k + 1] == rest[i];
      }
    }
  }

  // ---- make_hybrid_manifest ----

  predicate IsIdChar(c: char) {
    'A' <= c <= 'Z' || 'a' <= c <= 'z' || '0' <= c <= '9'
  }

  /** PACKAGE_ID_PATTERN */
  predicate IsPackageId(id: string) {
    1 <= |id| <= 128 && IsIdChar(id[0]) && forall c :: c in id[1..] ==> IsIdChar(c) || c == '_' || c == '-'
  }

  /** An id has 1 to 128 characters: letters and digits, and behind the first also underscores and hyphens. */
  lemma PackageIdExactly(id: string)
    ensures IsPackageId(id) <==>
              && 0 < |id| < 129
              && IsLetterOrDigit(id[0])
              && forall i :: 0 < i < |id| ==> IsLetterOrDigit(id[i]) || id[i] in "_-"
  {
    if |id| > 0 {
      assert forall i | 0 < i < |id| :: id[i] == id[1..][i - 1];
      assert forall c | c in id[1..] :: exists i :: 0 < i < |id| && id[i] == c;
    }
    assert "_-"[0] == '_' && "_-"[1] == '-';
    forall c: char ensures IsIdChar(c) <==> IsLetterOrDigit(c) {
      LettersAreIdChars(c);
    }
  }

  predicate IsLetterOrDigit(c: char) {
    || c in "ABCDEFGHIJKLMNOPQRSTUVWXYZ"
    || c in "abcdefghijklmnopqrstuvwxyz"
    || c in "0123456789"
  }

  lemma LettersAreIdChars(c: char)
    ensures IsIdChar(c) <==> IsLetterOrDigit(c)
  {
  }

  function ContainerOf(packageId: string): (r: Resource) {
    Resource("/api/packages/" + packageId + "/nsp", "container", None, None, "")
  }

  /** `make_hybrid_manifest`: the resources of the hybrid manifest. */
  function Hybrid(resources: seq<Resource>, packageId: string): (r: Result<seq<Resource>>) {
    if !IsPackageId(packageId) then Err(BadId)
    else if Packable(resources) == [] then Ok(Standalone(resources))
    else Ok(Standalone(resources) + [ContainerOf(packageId)])
  }

  /** The hybrid manifest lists the standalone resources in their order, and behind them its container exactly if
      something is packed; its own entries and the packed ones are together exactly the original resources,
      nothing sealed or binary is packed, and it is turned down exactly over a malformed id. */
  lemma HybridPartition(resources: seq<Resource>, packageId: string)
    requires forall r :: r in resources ==> IsSupported(r.kind)
    ensures Hybrid(resources, packageId).Ok? <==> IsPackageId(packageId)
    ensures IsPackageId(packageId) ==>
              var hybrid, packed := Hybrid(resources, packageId).value, Packable(resources);
              var own := if packed == [] then hybrid else hybrid[..|hybrid| - 1];
              && own == Standalone(resources)
              && (forall r :: r in own ==> r.kind == "binary" || r.kind == "sealed")
              && (packed != [] <==> exists r :: r in hybrid && r.kind == "container")
              && (packed != [] ==> hybrid != [] && hybrid[|hybrid| - 1] == ContainerOf(packageId))
              && multiset(own) + multiset(packed) == multiset(resources)
              && (forall r :: r in packed ==> r.kind != "binary" && r.kind != "sealed")
  {
    hide Packable, Standalone, IsSupported, IsPackageId;
    Partition(resources);
    var own, packed := Standalone(resources), Packable(resources);
    assert "container"[0] == 'c' && "binary"[0] == 'b' && "sealed"[0] == 's';
    assert (own + [ContainerOf(packageId)])[..|own|] == own;
    if packed != [] && IsPackageId(packageId) {
      assert ContainerOf(packageId) in own + [ContainerOf(packageId)];
    }
  }

  /** Where the container of a package is, by characters; two packages have two containers. */
  lemma ContainerIsNamed(id: string, other: string)
    ensures ContainerOf(id).url == ['/', 'a', 'p', 'i', '/', 'p', 'a', 'c', 'k', 'a', 'g', 'e', 's', '/'] + id
                                   + ['/', 'n', 's', 'p']
    ensures ContainerOf(id).url == ContainerOf(other).url ==> id == other
  {
    var a, b := ContainerOf(id).url, ContainerOf(other).url;
    assert a[14..|a| - 4] == id && b[14..|b| - 4] == other;
  }

  lemma {:induction false} Partition(resources: seq<Resource>)
    requires forall r :: r in resources ==> IsSupported(r.kind)
    ensures multiset(Standalone(resources)) + multiset(Packable(resources)) == multiset(resources)
    ensures forall r :: r in Packable(resources) ==> r.kind != "binary" && r.kind != "sealed"
    ensures forall r :: r in Standalone(resources) ==> r.kind == "binary" || r.kind == "sealed"
  {
    hide IsPackable, IsStandalone, IsSupported;
    if resources != [] {
      assert resources == [resources[0]] + resources[1..];
      KindsPartition(resources[0].kind);
      Partition(resources[1..]);
    }
  }
}
